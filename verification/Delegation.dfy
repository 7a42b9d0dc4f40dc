/** Set membership through nested sets, and the effective verbs of a delegation chain. */
module Delegation {
  import opened Wrappers
  import opened Names
  import opened PrincipalSets

  // ----- Transitive membership -----

  /** The first set of a name, as a linear search finds it. */
  function FindSet(sets: seq<MemberSet>, f: Fgrn): (r: Option<MemberSet>)
    ensures r.Some? ==> r.value in sets && r.value.fgrn == f
    ensures r.None? <==> forall i :: 0 <= i < |sets| ==> sets[i].fgrn != f
  {
    if sets == [] then None
    else if sets[0].fgrn == f then Some(sets[0])
    else FindSet(sets[1..], f)
  }

  /** A chain of present sets, each a member of the one before. */
  ghost predicate IsNesting(sets: seq<MemberSet>, p: seq<Fgrn>) {
    && (forall i :: 0 <= i < |p| ==> FindSet(sets, p[i]).Some?)
    && (forall i :: 0 <= i < |p| - 1 ==> Nests(sets, p[i], p[i + 1]))
  }

  ghost predicate Nests(sets: seq<MemberSet>, outer: Fgrn, inner: Fgrn) {
    FindSet(sets, outer).Some? && inner in FindSet(sets, outer).value.members && inner.kind.PrincipalSet?
  }

  ghost predicate Holds(sets: seq<MemberSet>, f: Fgrn, principal: Fgrn) {
    FindSet(sets, f).Some? && principal in FindSet(sets, f).value.members
  }

  /** A finite chain of present sets leads from the set to one that holds the principal. */
  ghost predicate Contains(sets: seq<MemberSet>, f: Fgrn, principal: Fgrn) {
    exists p :: p != [] && p[0] == f && IsNesting(sets, p) && Holds(sets, p[|p| - 1], principal)
  }

  ghost function SetNames(sets: seq<MemberSet>): set<Fgrn> {
    set s | s in sets :: s.fgrn
  }

  /** None of the searched sets holds the principal, and what they nest has been searched or is absent. */
  ghost predicate Searched(sets: seq<MemberSet>, principal: Fgrn, fs: set<Fgrn>, visited: set<Fgrn>) {
    forall f :: f in fs ==>
      && !Holds(sets, f, principal)
      && forall m :: Nests(sets, f, m) && FindSet(sets, m).Some? ==> m in visited
  }

  lemma SearchedJoins(sets: seq<MemberSet>, principal: Fgrn, a: set<Fgrn>, before: set<Fgrn>, b: set<Fgrn>, after: set<Fgrn>)
    requires Searched(sets, principal, a, before) && Searched(sets, principal, b, after) && before <= after
    ensures Searched(sets, principal, a + b, after)
  {
  }

  lemma SearchedHere(sets: seq<MemberSet>, principal: Fgrn, f: Fgrn, visited: set<Fgrn>)
    requires FindSet(sets, f).Some? && principal !in FindSet(sets, f).value.members
    requires forall m :: m in FindSet(sets, f).value.members && m.kind.PrincipalSet? && FindSet(sets, m).Some? ==> m in visited
    ensures Searched(sets, principal, {f}, visited)
  {
  }

  lemma SearchedNothing(sets: seq<MemberSet>, principal: Fgrn, visited: set<Fgrn>)
    ensures Searched(sets, principal, {}, visited)
  {
  }

  lemma ContainsHere(sets: seq<MemberSet>, f: Fgrn, principal: Fgrn)
    requires FindSet(sets, f).Some? && principal in FindSet(sets, f).value.members
    ensures Contains(sets, f, principal)
  {
    assert IsNesting(sets, [f]);
    assert [f][|[f]| - 1] == f;
  }

  lemma NestingPrepend(sets: seq<MemberSet>, f: Fgrn, p: seq<Fgrn>)
    requires p != [] && IsNesting(sets, p) && Nests(sets, f, p[0])
    ensures IsNesting(sets, [f] + p)
  {
    hide FindSet;
    var q := [f] + p;
    forall i | 0 <= i < |q| - 1
      ensures Nests(sets, q[i], q[i + 1])
    {
      if i > 0 {
        assert Nests(sets, p[i - 1], p[i]);
      }
    }
  }

  lemma ContainsBelow(sets: seq<MemberSet>, f: Fgrn, m: Fgrn, principal: Fgrn)
    requires FindSet(sets, f).Some? && m in FindSet(sets, f).value.members && m.kind.PrincipalSet?
    requires Contains(sets, m, principal)
    ensures Contains(sets, f, principal)
  {
    assert Nests(sets, f, m);
    hide FindSet, IsNesting, Nests, Holds;
    var p :| p != [] && p[0] == m && IsNesting(sets, p) && Holds(sets, p[|p| - 1], principal);
    NestingPrepend(sets, f, p);
    assert ([f] + p)[|[f] + p| - 1] == p[|p| - 1];
  }

  /** A search that ran dry has missed nothing. */
  lemma {:induction false} SearchedMissesNothing(sets: seq<MemberSet>, principal: Fgrn, visited: set<Fgrn>, p: seq<Fgrn>)
    requires Searched(sets, principal, visited, visited)
    requires p != [] && IsNesting(sets, p) && p[0] in visited
    ensures !Holds(sets, p[|p| - 1], principal)
    decreases |p|
  {
    if |p| > 1 {
      assert Nests(sets, p[0], p[1]);
      assert IsNesting(sets, p[1..]) by {
        forall i | 0 <= i < |p[1..]| - 1
          ensures Nests(sets, p[1..][i], p[1..][i + 1])
        {
          assert Nests(sets, p[i + 1], p[i + 2]);
        }
      }
      SearchedMissesNothing(sets, principal, visited, p[1..]);
    }
  }

  /** The list of sets already looked into, shared by all branches of one search. */
  class Walk {
    var visited: seq<Fgrn>

    constructor ()
      ensures visited == []
    {
      visited := [];
    }

    method Find(sets: seq<MemberSet>, f: Fgrn, principal: Fgrn) returns (found: bool)
      requires Elements(visited) <= SetNames(sets)
      modifies this
      ensures Elements(visited) <= SetNames(sets) && old(visited) <= visited
      ensures found ==> Contains(sets, f, principal)
      ensures !found ==> Searched(sets, principal, Elements(visited) - Elements(old(visited)), Elements(visited))
      ensures !found && FindSet(sets, f).Some? ==> f in visited
      decreases SetNames(sets) - Elements(visited)
    {
      hide Searched, Contains, Holds, Nests;
      var s := FindSet(sets, f);
      assert Elements(visited) - Elements(old(visited)) == {};
      SearchedNothing(sets, principal, Elements(visited));
      if s.None? {
        return false;
      }
      if f in visited {
        return false;
      }
      visited := visited + [f];
      assert Elements(visited) == Elements(old(visited)) + {f};
      if principal in s.value.members {
        ContainsHere(sets, f, principal);
        return true;
      }
      SearchedNothing(sets, principal, Elements(visited));
      assert Elements(visited) - (Elements(old(visited)) + {f}) == {};
      var rest := s.value.members;
      while rest != {}
        invariant rest <= s.value.members
        invariant Elements(visited) <= SetNames(sets) && old(visited) + [f] <= visited
        invariant Searched(sets, principal, Elements(visited) - (Elements(old(visited)) + {f}), Elements(visited))
        invariant forall m :: m in s.value.members - rest && m.kind.PrincipalSet? && FindSet(sets, m).Some? ==> m in visited
        decreases rest
      {
        var member :| member in rest;
        rest := rest - {member};
        if member.kind.PrincipalSet? {
          assert f in SetNames(sets) - Elements(old(visited)) && f in visited;
          ghost var start, mid := Elements(old(visited)) + {f}, Elements(visited);
          var below := Find(sets, member, principal);
          if below {
            ContainsBelow(sets, f, member, principal);
            return true;
          }
          SearchedJoins(sets, principal, mid - start, mid, Elements(visited) - mid, Elements(visited));
          assert mid - start + (Elements(visited) - mid) == Elements(visited) - start;
        }
      }
      ghost var others := Elements(visited) - (Elements(old(visited)) + {f});
      SearchedHere(sets, principal, f, Elements(visited));
      SearchedJoins(sets, principal, others, Elements(visited), {f}, Elements(visited));
      assert others + {f} == Elements(visited) - Elements(old(visited));
      return false;
    }
  }

  /** True exactly when a finite membership chain through present sets reaches the principal, whether
      or not the sets are circular. */
  method SetContains(sets: seq<MemberSet>, f: Fgrn, principal: Fgrn) returns (found: bool)
    ensures found <==> Contains(sets, f, principal)
  {
    var walk := new Walk();
    ghost var before := Elements(walk.visited);
    assert before == {};
    found := walk.Find(sets, f, principal);
    if !found {
      assert Elements(walk.visited) - before == Elements(walk.visited);
      hide Searched;
      forall p | p != [] && p[0] == f && IsNesting(sets, p)
        ensures !Holds(sets, p[|p| - 1], principal)
      {
        SearchedMissesNothing(sets, principal, Elements(walk.visited), p);
      }
    }
  }

  // ----- Effective verbs -----

  datatype Grant = Grant(resource: Fgrn, actions: set<string>, to: Fgrn)

  datatype Query = Query(links: seq<Fgrn>, resource: Fgrn, grants: seq<Grant>, sets: seq<MemberSet>)

  ghost predicate Reaches(g: Grant, q: Query, link: Fgrn) {
    g.resource == q.resource && (g.to == link || Contains(q.sets, g.to, link))
  }

  ghost predicate HoldsVerb(q: Query, link: Fgrn, verb: string) {
    exists i :: 0 <= i < |q.grants| && Reaches(q.grants[i], q, link) && verb in q.grants[i].actions
  }

  /** What the whole chain may do: what every one of its links may do. */
  ghost predicate Effective(q: Query, verb: string) {
    forall i :: 0 <= i < |q.links| ==> HoldsVerb(q, q.links[i], verb)
  }

  method VerbsHeld(link: Fgrn, q: Query) returns (held: set<string>)
    ensures forall v :: v in held <==> HoldsVerb(q, link, v)
  {
    held := {};
    for i := 0 to |q.grants|
      invariant forall v :: v in held <==>
        exists j :: 0 <= j < i && Reaches(q.grants[j], q, link) && v in q.grants[j].actions
    {
      var g := q.grants[i];
      if g.resource == q.resource {
        var via := g.to == link;
        if !via {
          via := SetContains(q.sets, g.to, link);
        }
        if via {
          held := held + g.actions;
        }
      }
    }
  }

  /** Stopping early at an empty intersection changes nothing: the result is the verbs held by all links. */
  method EffectiveVerbs(q: Query) returns (r: Result<set<string>, Fgrn>)
    requires |q.links| >= 2
    ensures r.Err? <==> !q.resource.kind.Resource?
    ensures r.Err? ==> r.error == q.resource
    ensures r.Ok? ==> forall v :: v in r.value <==> Effective(q, v)
  {
    if !q.resource.kind.Resource? {
      return Err(q.resource);
    }
    var effective: Option<set<string>> := None;
    var i := 0;
    while i < |q.links|
      invariant 0 <= i <= |q.links|
      invariant effective.None? <==> i == 0
      invariant effective.Some? ==>
        forall v :: v in effective.value <==> forall j :: 0 <= j < i ==> HoldsVerb(q, q.links[j], v)
    {
      var held := VerbsHeld(q.links[i], q);
      match effective {
        case None => effective := Some(held);
        case Some(prev) => effective := Some(prev * held);
      }
      i := i + 1;
      if effective.value == {} {
        break;
      }
    }
    r := Ok(effective.value);
  }

  /** Reordering or repeating links changes nothing, and further links only take verbs away. */
  lemma LinksOnlyNarrow(q: Query, links: seq<Fgrn>)
    requires forall l :: l in q.links ==> l in links
    ensures forall v :: Effective(q.(links := links), v) ==> Effective(q, v)
    ensures (forall l :: l in links ==> l in q.links) ==> forall v :: Effective(q, v) <==> Effective(q.(links := links), v)
  {
    var r := q.(links := links);
    forall l, v
      ensures HoldsVerb(r, l, v) <==> HoldsVerb(q, l, v)
    {
      SameGrants(q, r, l, v);
      SameGrants(r, q, l, v);
    }
    forall v | Effective(r, v)
      ensures Effective(q, v)
    {
      forall i | 0 <= i < |q.links|
        ensures HoldsVerb(q, q.links[i], v)
      {
        assert q.links[i] in q.links;
        var j :| 0 <= j < |links| && links[j] == q.links[i];
        assert HoldsVerb(r, links[j], v);
      }
    }
    if forall l :: l in links ==> l in q.links {
      forall v | Effective(q, v)
        ensures Effective(r, v)
      {
        forall i | 0 <= i < |links|
          ensures HoldsVerb(r, links[i], v)
        {
          assert links[i] in links;
          var j :| 0 <= j < |q.links| && q.links[j] == links[i];
          assert HoldsVerb(q, q.links[j], v);
        }
      }
    }
  }

  lemma SameGrants(q: Query, r: Query, link: Fgrn, verb: string)
    requires q.resource == r.resource && q.sets == r.sets
    requires forall g :: g in q.grants ==> g in r.grants
    ensures HoldsVerb(q, link, verb) ==> HoldsVerb(r, link, verb)
  {
    if HoldsVerb(q, link, verb) {
      var i :| 0 <= i < |q.grants| && Reaches(q.grants[i], q, link) && verb in q.grants[i].actions;
      assert q.grants[i] in q.grants;
      var j :| 0 <= j < |r.grants| && r.grants[j] == q.grants[i];
      assert Reaches(r.grants[j], r, link);
    }
  }

  /** Further grants only add verbs. */
  lemma GrantsOnlyWiden(q: Query, grants: seq<Grant>)
    requires forall g :: g in q.grants ==> g in grants
    ensures forall v :: Effective(q, v) ==> Effective(q.(grants := grants), v)
  {
    var r := q.(grants := grants);
    forall v | Effective(q, v)
      ensures Effective(r, v)
    {
      forall i | 0 <= i < |r.links|
        ensures HoldsVerb(r, r.links[i], v)
      {
        assert HoldsVerb(q, q.links[i], v);
        SameGrants(q, r, q.links[i], v);
      }
    }
  }
}
