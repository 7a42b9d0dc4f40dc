/** How the cycle checks, and the search through nested sets, relate to one another. */
module Circularity {
  import opened Wrappers
  import opened Names
  import opened Graphs
  import opened PrincipalSets
  import opened Delegation
  import opened GroupNesting

  // ----- The first and the last set of a name -----

  function LastSet(sets: seq<MemberSet>, f: Fgrn): Option<MemberSet> {
    if f in ByFgrn(sets) then Some(ByFgrn(sets)[f]) else None
  }

  ghost predicate IsFirst(sets: seq<MemberSet>, i: nat) {
    i < |sets| && forall j :: 0 <= j < i ==> sets[j].fgrn != sets[i].fgrn
  }

  ghost predicate IsLast(sets: seq<MemberSet>, i: nat) {
    i < |sets| && forall j :: i < j < |sets| ==> sets[j].fgrn != sets[i].fgrn
  }

  /** Of every name, the first set and the last are the same. */
  ghost predicate Settled(sets: seq<MemberSet>) {
    forall i: nat, j: nat :: IsFirst(sets, i) && IsLast(sets, j) && sets[i].fgrn == sets[j].fgrn ==> sets[i] == sets[j]
  }

  lemma {:induction false} FindSetIsFirst(sets: seq<MemberSet>, f: Fgrn)
    requires FindSet(sets, f).Some?
    ensures exists i: nat :: IsFirst(sets, i) && sets[i].fgrn == f && FindSet(sets, f).value == sets[i]
  {
    if sets[0].fgrn == f {
      assert IsFirst(sets, 0);
    } else {
      FindSetIsFirst(sets[1..], f);
      var i: nat :| IsFirst(sets[1..], i) && sets[1..][i].fgrn == f && FindSet(sets[1..], f).value == sets[1..][i];
      assert forall j :: 0 < j < i + 1 ==> sets[j] == sets[1..][j - 1];
      assert IsFirst(sets, i + 1);
    }
  }

  lemma {:induction false} LastSetIsLast(sets: seq<MemberSet>, f: Fgrn)
    requires f in ByFgrn(sets)
    ensures exists i: nat :: IsLast(sets, i) && sets[i].fgrn == f && ByFgrn(sets)[f] == sets[i]
    decreases |sets|
  {
    var n := |sets| - 1;
    if sets[n].fgrn == f {
      assert IsLast(sets, n);
    } else {
      LastSetIsLast(sets[..n], f);
      var i: nat :| IsLast(sets[..n], i) && sets[..n][i].fgrn == f && ByFgrn(sets[..n])[f] == sets[..n][i];
      assert forall j :: i < j < n ==> sets[j] == sets[..n][j];
      assert IsLast(sets, i);
    }
  }

  lemma {:induction false} FirstIsFound(sets: seq<MemberSet>, i: nat)
    requires IsFirst(sets, i)
    ensures FindSet(sets, sets[i].fgrn) == Some(sets[i])
    decreases i
  {
    if i > 0 {
      assert sets[0].fgrn != sets[i].fgrn;
      assert forall j :: 0 <= j < i ==> sets[1..][j] == sets[j + 1];
      FirstIsFound(sets[1..], i - 1);
    }
  }

  lemma {:induction false} LastIsKept(sets: seq<MemberSet>, i: nat)
    requires IsLast(sets, i)
    ensures LastSet(sets, sets[i].fgrn) == Some(sets[i])
    decreases |sets|
  {
    var n := |sets| - 1;
    if i < n {
      assert sets[n].fgrn != sets[i].fgrn;
      LastIsKept(sets[..n], i);
    }
  }

  /** The search that takes the first set of a name and the one that takes the last agree on all names
      exactly when of every name the first set and the last are the same. */
  lemma LookupsAgreeIff(sets: seq<MemberSet>)
    ensures (forall f :: FindSet(sets, f) == LastSet(sets, f)) <==> Settled(sets)
  {
    if forall f :: FindSet(sets, f) == LastSet(sets, f) {
      forall i: nat, j: nat | IsFirst(sets, i) && IsLast(sets, j) && sets[i].fgrn == sets[j].fgrn
        ensures sets[i] == sets[j]
      {
        FirstIsFound(sets, i);
        LastIsKept(sets, j);
      }
    }
    if Settled(sets) {
      ByFgrnHoldsNames(sets);
      forall f
        ensures FindSet(sets, f) == LastSet(sets, f)
      {
        if FindSet(sets, f).Some? {
          FindSetIsFirst(sets, f);
          LastSetIsLast(sets, f);
        }
      }
    }
  }

  // ----- Circular nesting is self-containment -----

  /** The same batch, last set first. */
  function Backwards(sets: seq<MemberSet>): seq<MemberSet> {
    if sets == [] then [] else Backwards(sets[1..]) + [sets[0]]
  }

  lemma {:induction false} FirstIsLastBackwards(sets: seq<MemberSet>, f: Fgrn)
    ensures FindSet(sets, f) == LastSet(Backwards(sets), f)
  {
    if sets != [] {
      FirstIsLastBackwards(sets[1..], f);
      var b := Backwards(sets);
      assert b[..|b| - 1] == Backwards(sets[1..]) && b[|b| - 1] == sets[0];
    }
  }

  lemma NestingIsEdge(sets: seq<MemberSet>, a: Fgrn, b: Fgrn)
    ensures Nests(sets, a, b) <==> Edge(NestedIn(ByFgrn(Backwards(sets))), a, b)
  {
    FirstIsLastBackwards(sets, a);
  }

  lemma CycleIsSelfContainment(sets: seq<MemberSet>, p: seq<Fgrn>)
    requires IsCycle(NestedIn(ByFgrn(Backwards(sets))), p)
    ensures p[0].kind.PrincipalSet? && Contains(sets, p[0], p[0])
  {
    var n := |p| - 1;
    forall i | 0 <= i < n
      ensures Nests(sets, p[i], p[i + 1]) && FindSet(sets, p[..n][i]).Some?
    {
      assert Edge(NestedIn(ByFgrn(Backwards(sets))), p[i], p[i + 1]);
      NestingIsEdge(sets, p[i], p[i + 1]);
    }
    assert Nests(sets, p[n - 1], p[n]);
    assert IsNesting(sets, p[..n]) && Holds(sets, p[..n][n - 1], p[0]);
  }

  lemma SelfContainmentIsCycle(sets: seq<MemberSet>, f: Fgrn)
    requires f.kind.PrincipalSet? && Contains(sets, f, f)
    ensures Cyclic(NestedIn(ByFgrn(Backwards(sets))))
  {
    var p :| p != [] && p[0] == f && IsNesting(sets, p) && Holds(sets, p[|p| - 1], f);
    var c := p + [f];
    forall i | 0 <= i < |c| - 1
      ensures Edge(NestedIn(ByFgrn(Backwards(sets))), c[i], c[i + 1])
    {
      assert Nests(sets, c[i], c[i + 1]);
      NestingIsEdge(sets, c[i], c[i + 1]);
    }
    assert IsCycle(NestedIn(ByFgrn(Backwards(sets))), c);
  }

  ghost predicate SomeContainsItself(sets: seq<MemberSet>) {
    exists f: Fgrn :: f.kind.PrincipalSet? && Contains(sets, f, f)
  }

  /** Of any batch, some set contains itself by the search that decides membership exactly when the
      cycle check finds the batch circular read backwards. */
  lemma SelfContainingIffCircularBackwards(sets: seq<MemberSet>)
    ensures SomeContainsItself(sets) <==> Cyclic(NestedIn(ByFgrn(Backwards(sets))))
  {
    if Cyclic(NestedIn(ByFgrn(Backwards(sets)))) {
      var p :| IsCycle(NestedIn(ByFgrn(Backwards(sets))), p);
      CycleIsSelfContainment(sets, p);
    }
    if SomeContainsItself(sets) {
      var f: Fgrn :| f.kind.PrincipalSet? && Contains(sets, f, f);
      SelfContainmentIsCycle(sets, f);
    }
  }

  /** When of every name the first set and the last are the same, a batch is circular exactly when some
      set contains itself. */
  lemma CircularIffSelfContaining(sets: seq<MemberSet>)
    requires Settled(sets)
    ensures Cyclic(NestedIn(ByFgrn(sets))) <==> SomeContainsItself(sets)
  {
    SelfContainingIffCircularBackwards(sets);
    LookupsAgreeIff(sets);
    forall f
      ensures LastSet(sets, f) == LastSet(Backwards(sets), f)
    {
      FirstIsLastBackwards(sets, f);
    }
    assert forall f :: f in ByFgrn(sets) <==> LastSet(sets, f).Some?;
    assert forall f :: f in ByFgrn(Backwards(sets)) <==> LastSet(Backwards(sets), f).Some?;
    assert ByFgrn(sets) == ByFgrn(Backwards(sets));
  }

  lemma TwoInARing(sets: seq<MemberSet>, a: Fgrn, b: Fgrn)
    requires a.kind.PrincipalSet? && b.kind.PrincipalSet?
    requires FindSet(sets, a) == Some(MemberSet(a, {b})) && FindSet(sets, b) == Some(MemberSet(b, {a}))
    ensures Contains(sets, a, a)
  {
    var p := [a, b];
    assert Nests(sets, a, b);
    assert IsNesting(sets, p) && Holds(sets, p[|p| - 1], a);
  }

  lemma OneEdgeIsAcyclic(byFgrn: map<Fgrn, MemberSet>, a: Fgrn, b: Fgrn)
    requires a != b && byFgrn == map[a := MemberSet(a, {b}), b := MemberSet(b, {})]
    ensures !Cyclic(NestedIn(byFgrn))
  {
    var g := NestedIn(byFgrn);
    assert Bounded(g, b, 0);
    assert Bounded(g, a, 1);
    assert Grounded(g, a) && Grounded(g, b);
    AllBoundedIsAcyclic(g);
  }

  /** What adding members one by one can build: principals and sets of the set's own organization, not the set itself. */
  predicate Buildable(s: MemberSet) {
    && s.fgrn.kind.PrincipalSet? && s.fgrn !in s.members
    && forall m :: m in s.members ==> (m.kind.Principal? || m.kind.PrincipalSet?) && m.organization == s.fgrn.organization
  }

  /** When they are not, the two can contradict each other: here a set contains itself although the
      cycle check accepts the batch and, within one organization, every set of it can be built. */
  lemma ChecksContradict(a: Fgrn, b: Fgrn)
    requires a != b && a.kind.PrincipalSet? && b.kind.PrincipalSet?
    ensures var sets := [MemberSet(a, {b}), MemberSet(b, {a}), MemberSet(b, {})];
            && Contains(sets, a, a) && !Cyclic(NestedIn(ByFgrn(sets)))
            && (a.organization == b.organization ==> Buildable(sets[0]) && Buildable(sets[1]) && Buildable(sets[2]))
  {
    var sets := [MemberSet(a, {b}), MemberSet(b, {a}), MemberSet(b, {})];
    assert sets[1..][0] == sets[1];
    TwoInARing(sets, a, b);
    var one, two := [sets[0]], [sets[0], sets[1]];
    assert one[..0] == [] && two[..1] == one && sets[..2] == two;
    assert ByFgrn(one) == map[a := sets[0]];
    assert ByFgrn(two) == map[a := sets[0], b := sets[1]];
    assert ByFgrn(sets) == map[a := sets[0], b := sets[2]];
    OneEdgeIsAcyclic(ByFgrn(sets), a, b);
  }

  // ----- The same nesting, written as groups -----

  /** The sets nested in a set. */
  function Nested(s: MemberSet): set<Fgrn> {
    set m | m in s.members && m.kind.PrincipalSet?
  }

  /** The group bears the name of the set and lists the names of its nested sets. */
  ghost predicate Spells(name: Fgrn -> string, s: MemberSet, g: Group) {
    && g.name == name(s.fgrn)
    && (set m | m in g.memberGroups) == (set m | m in Nested(s) :: name(m))
  }

  /** The sets of a batch and the sets nested in them. */
  ghost predicate Occurs(sets: seq<MemberSet>, f: Fgrn) {
    exists i :: 0 <= i < |sets| && (f == sets[i].fgrn || f in Nested(sets[i]))
  }

  /** The groups are the sets of the batch under names that tell them apart. */
  ghost predicate AllSpell(name: Fgrn -> string, sets: seq<MemberSet>, groups: seq<Group>) {
    && |sets| == |groups|
    && (forall i :: 0 <= i < |sets| ==> sets[i].fgrn.kind.PrincipalSet? && Spells(name, sets[i], groups[i]))
    && (forall a, b :: Occurs(sets, a) && Occurs(sets, b) && name(a) == name(b) ==> a == b)
  }

  ghost predicate SpelledAlike(name: Fgrn -> string, sets: seq<MemberSet>, groups: seq<Group>, f: Fgrn) {
    && (f in ByFgrn(sets) <==> name(f) in Adjacency(groups))
    && (f in ByFgrn(sets) ==> Spells(name, ByFgrn(sets)[f], Group(name(f), Adjacency(groups)[name(f)])))
  }

  lemma NothingAlike(name: Fgrn -> string, sets: seq<MemberSet>, groups: seq<Group>, f: Fgrn)
    requires sets == [] && groups == []
    ensures SpelledAlike(name, sets, groups, f)
  {
  }

  lemma AlikeNext(name: Fgrn -> string, sets: seq<MemberSet>, groups: seq<Group>, s: MemberSet, g: Group, f: Fgrn)
    requires SpelledAlike(name, sets, groups, f) && Spells(name, s, g)
    requires name(f) == name(s.fgrn) ==> f == s.fgrn
    ensures SpelledAlike(name, sets + [s], groups + [g], f)
  {
    assert (sets + [s])[..|sets|] == sets && (groups + [g])[..|groups|] == groups;
    assert g.name == name(s.fgrn) && g == Group(g.name, g.memberGroups);
    hide Spells;
  }

  lemma {:induction false} AllSpelledAlike(name: Fgrn -> string, all: seq<MemberSet>, groups: seq<Group>, n: nat, f: Fgrn)
    requires AllSpell(name, all, groups) && n <= |all| && Occurs(all, f)
    ensures SpelledAlike(name, all[..n], groups[..n], f)
  {
    hide SpelledAlike, Spells;
    if n == 0 {
      NothingAlike(name, all[..0], groups[..0], f);
    } else {
      AllSpelledAlike(name, all, groups, n - 1, f);
      assert Occurs(all, all[n - 1].fgrn);
      AlikeNext(name, all[..n - 1], groups[..n - 1], all[n - 1], groups[n - 1], f);
      assert all[..n] == all[..n - 1] + [all[n - 1]] && groups[..n] == groups[..n - 1] + [groups[n - 1]];
    }
  }

  /** Nodes correspond, and so do the edges between them. */
  ghost predicate Renames<N(!new), M(!new)>(g: Graph<N>, h: Graph<M>, name: N -> M) {
    && (forall a :: a in g ==> name(a) in h)
    && (forall x :: x in h ==> exists a :: a in g && name(a) == x)
    && (forall a, b :: a in g && b in g ==> (Edge(g, a, b) <==> Edge(h, name(a), name(b))))
  }

  lemma CycleIsPresent<N(!new)>(g: Graph<N>, p: seq<N>)
    requires IsCycle(g, p)
    ensures forall i :: 0 <= i < |p| ==> p[i] in g
  {
    forall i | 0 <= i < |p|
      ensures p[i] in g
    {
      assert Edge(g, p[if i == |p| - 1 then 0 else i], p[if i == |p| - 1 then 1 else i + 1]);
    }
  }

  lemma ImageIsCycle<N(!new), M(!new)>(g: Graph<N>, h: Graph<M>, name: N -> M, p: seq<N>)
    requires Renames(g, h, name) && IsCycle(g, p)
    ensures Cyclic(h)
  {
    CycleIsPresent(g, p);
    var q := seq(|p|, i requires 0 <= i < |p| => name(p[i]));
    forall i | 0 <= i < |q| - 1
      ensures Edge(h, q[i], q[i + 1])
    {
      assert Edge(g, p[i], p[i + 1]);
    }
    assert IsCycle(h, q);
  }

  lemma OriginalIsCycle<N(!new), M(!new)>(g: Graph<N>, h: Graph<M>, name: N -> M, q: seq<M>)
    requires Renames(g, h, name) && IsCycle(h, q)
    ensures Cyclic(g)
  {
    CycleIsPresent(h, q);
    var p := seq(|q|, i requires 0 <= i < |q| => Original(g, h, name, q[i]));
    forall i | 0 <= i < |p| - 1
      ensures Edge(g, p[i], p[i + 1])
    {
      assert Edge(h, q[i], q[i + 1]);
    }
    assert IsCycle(g, p);
  }

  lemma RenamingKeepsCycles<N(!new), M(!new)>(g: Graph<N>, h: Graph<M>, name: N -> M)
    requires Renames(g, h, name)
    ensures Cyclic(g) <==> Cyclic(h)
  {
    hide Renames, IsCycle;
    if Cyclic(g) {
      var p :| IsCycle(g, p);
      ImageIsCycle(g, h, name, p);
    }
    if Cyclic(h) {
      var q :| IsCycle(h, q);
      OriginalIsCycle(g, h, name, q);
    }
  }

  ghost function Original<N(!new), M(!new)>(g: Graph<N>, h: Graph<M>, name: N -> M, x: M): (a: N)
    requires Renames(g, h, name) && x in h
    ensures a in g && name(a) == x
  {
    var a :| a in g && name(a) == x;
    a
  }

  lemma SameEdge(name: Fgrn -> string, sets: seq<MemberSet>, groups: seq<Group>, a: Fgrn, b: Fgrn)
    requires AllSpell(name, sets, groups) && SpelledAlike(name, sets, groups, a)
    requires a in ByFgrn(sets) && Occurs(sets, a) && Occurs(sets, b)
    requires forall m :: m in Nested(ByFgrn(sets)[a]) ==> Occurs(sets, m)
    ensures Edge(NestedIn(ByFgrn(sets)), a, b) <==> Edge(NestingGraph(groups), name(a), name(b))
  {
    var s := ByFgrn(sets)[a];
    var members := Adjacency(groups)[name(a)];
    assert (set m | m in members) == (set m | m in Nested(s) :: name(m));
    assert name(b) in members <==> name(b) in (set m | m in members);
  }

  lemma {:induction false} ByFgrnIsListed(sets: seq<MemberSet>, f: Fgrn)
    ensures f in ByFgrn(sets) ==> ByFgrn(sets)[f] in sets && ByFgrn(sets)[f].fgrn == f
    decreases |sets|
  {
    if sets != [] {
      ByFgrnIsListed(sets[..|sets| - 1], f);
    }
  }

  lemma NodeOccurs(sets: seq<MemberSet>, a: Fgrn)
    requires a in ByFgrn(sets)
    ensures Occurs(sets, a) && forall m :: m in Nested(ByFgrn(sets)[a]) ==> Occurs(sets, m)
  {
    ByFgrnIsListed(sets, a);
    var i :| 0 <= i < |sets| && sets[i] == ByFgrn(sets)[a];
  }

  lemma NodeIsSpelled(name: Fgrn -> string, sets: seq<MemberSet>, groups: seq<Group>, a: Fgrn)
    requires AllSpell(name, sets, groups) && a in ByFgrn(sets)
    ensures SpelledAlike(name, sets, groups, a)
  {
    NodeOccurs(sets, a);
    AllSpelledAlike(name, sets, groups, |sets|, a);
    assert sets[..|sets|] == sets && groups[..|sets|] == groups;
  }

  lemma NodeHasName(name: Fgrn -> string, sets: seq<MemberSet>, groups: seq<Group>, a: Fgrn)
    requires AllSpell(name, sets, groups) && a in ByFgrn(sets)
    ensures name(a) in Adjacency(groups)
  {
    hide ByFgrn, Adjacency, Spells, AllSpell;
    NodeIsSpelled(name, sets, groups, a);
  }

  lemma NameIsSpelled(name: Fgrn -> string, sets: seq<MemberSet>, groups: seq<Group>, x: string)
    requires AllSpell(name, sets, groups) && x in Adjacency(groups)
    ensures exists a :: a in ByFgrn(sets) && name(a) == x
  {
    hide ByFgrn, Adjacency, Occurs, Nested;
    ByFgrnHoldsNames(sets);
    AdjacencyHoldsNames(groups);
    var i :| 0 <= i < |groups| && groups[i].name == x;
    assert Spells(name, sets[i], groups[i]);
    assert sets[i].fgrn in ByFgrn(sets);
  }

  lemma EdgeIsSpelled(name: Fgrn -> string, sets: seq<MemberSet>, groups: seq<Group>, a: Fgrn, b: Fgrn)
    requires AllSpell(name, sets, groups) && a in ByFgrn(sets) && b in ByFgrn(sets)
    ensures Edge(NestedIn(ByFgrn(sets)), a, b) <==> Edge(NestingGraph(groups), name(a), name(b))
  {
    NodeIsSpelled(name, sets, groups, a);
    NodeOccurs(sets, a);
    NodeOccurs(sets, b);
    SameEdge(name, sets, groups, a, b);
  }

  lemma SpellingRenames(name: Fgrn -> string, sets: seq<MemberSet>, groups: seq<Group>)
    requires AllSpell(name, sets, groups)
    ensures Renames(NestedIn(ByFgrn(sets)), NestingGraph(groups), name)
  {
    var g, h := NestedIn(ByFgrn(sets)), NestingGraph(groups);
    assert g.Keys == ByFgrn(sets).Keys && h.Keys == Adjacency(groups).Keys;
    hide AllSpell, ByFgrn, Adjacency, NestedIn, NestingGraph, Edge;
    forall a | a in g
      ensures name(a) in h
    {
      NodeHasName(name, sets, groups, a);
    }
    forall x | x in h
      ensures exists a :: a in g && name(a) == x
    {
      NameIsSpelled(name, sets, groups, x);
    }
    forall a, b | a in g && b in g
      ensures Edge(g, a, b) <==> Edge(h, name(a), name(b))
    {
      EdgeIsSpelled(name, sets, groups, a, b);
    }
  }

  /** On the same nesting, written as sets or as groups under any names that tell the sets apart, the
      two cycle checks give the same verdict. */
  lemma DetectorsAgree(name: Fgrn -> string, sets: seq<MemberSet>, groups: seq<Group>)
    requires AllSpell(name, sets, groups)
    ensures Cyclic(NestedIn(ByFgrn(sets))) <==> Cyclic(NestingGraph(groups))
  {
    SpellingRenames(name, sets, groups);
    RenamingKeepsCycles(NestedIn(ByFgrn(sets)), NestingGraph(groups), name);
  }

  // ----- One organization's sets under their ids, and every configuration of groups -----

  function NameOf(f: Fgrn): string {
    f.id
  }

  /** A batch of one organization's sets, as adding members keeps it, is told apart by ids. */
  lemma IdsTellApart(organization: string, sets: seq<MemberSet>, groups: seq<Group>)
    requires forall i :: 0 <= i < |sets| ==> sets[i].fgrn.kind.PrincipalSet?
    requires forall f :: Occurs(sets, f) ==> f.organization == organization
    requires |sets| == |groups| && forall i :: 0 <= i < |sets| ==> Spells(NameOf, sets[i], groups[i])
    ensures Cyclic(NestedIn(ByFgrn(sets))) <==> Cyclic(NestingGraph(groups))
  {
    forall a, b | Occurs(sets, a) && Occurs(sets, b) && NameOf(a) == NameOf(b)
      ensures a == b
    {
      assert a.kind.PrincipalSet? && b.kind.PrincipalSet?;
    }
    DetectorsAgree(NameOf, sets, groups);
  }

  function SetNamed(organization: string, name: string): Fgrn {
    Fgrn(organization, PrincipalSet, name)
  }

  /** A configuration of groups, written as the principal-sets of an organization. */
  function SetsOf(organization: string, groups: seq<Group>): (sets: seq<MemberSet>)
    ensures |sets| == |groups|
  {
    seq(|groups|, i requires 0 <= i < |groups| =>
      MemberSet(SetNamed(organization, groups[i].name),
                set m | m in groups[i].memberGroups :: SetNamed(organization, m)))
  }

  predicate ValidGroups(groups: seq<Group>) {
    forall i :: 0 <= i < |groups| ==>
      IsSegment(groups[i].name) && forall j :: 0 <= j < |groups[i].memberGroups| ==> IsSegment(groups[i].memberGroups[j])
  }

  lemma SegmentIsNativeId(s: string)
    requires IsSegment(s)
    ensures IsNativeId(s)
  {
    forall i | 0 <= i < |s|
      ensures IsNativeIdChar(s[i])
    {
      assert IsSegmentChar(s[i]);
    }
  }

  lemma SetsOfSpell(organization: string, groups: seq<Group>)
    ensures AllSpell(NameOf, SetsOf(organization, groups), groups)
  {
    var sets := SetsOf(organization, groups);
    forall i | 0 <= i < |sets|
      ensures Spells(NameOf, sets[i], groups[i])
      ensures forall f :: f == sets[i].fgrn || f in Nested(sets[i]) ==> f == SetNamed(organization, f.id)
    {
      forall m | m in groups[i].memberGroups
        ensures m in (set f | f in Nested(sets[i]) :: NameOf(f))
      {
        assert SetNamed(organization, m) in Nested(sets[i]) && NameOf(SetNamed(organization, m)) == m;
      }
    }
  }

  lemma BuildableIff(organization: string, groups: seq<Group>, i: nat)
    requires i < |groups|
    ensures Buildable(SetsOf(organization, groups)[i]) <==> groups[i].name !in groups[i].memberGroups
  {
    var s := SetsOf(organization, groups)[i];
    assert groups[i].name in groups[i].memberGroups ==> SetNamed(organization, groups[i].name) in s.members;
  }

  /** Every valid configuration of groups is the nesting of a batch of sets of any organization with valid
      FGRNs, and is reported as circular exactly when that batch is. A set of the batch can be built
      exactly when its group does not list itself. */
  lemma GroupsAreSets(organization: string, groups: seq<Group>)
    requires IsSegment(organization) && ValidGroups(groups)
    ensures var sets := SetsOf(organization, groups);
            && (forall i :: 0 <= i < |sets| ==> ValidFgrn(sets[i].fgrn) && sets[i].fgrn.kind.PrincipalSet?)
            && (forall i, m :: 0 <= i < |sets| && m in sets[i].members ==> ValidFgrn(m) && m.kind.PrincipalSet?)
            && (forall i :: 0 <= i < |sets| ==> (Buildable(sets[i]) <==> groups[i].name !in groups[i].memberGroups))
            && (Cyclic(NestedIn(ByFgrn(sets))) <==> Cyclic(NestingGraph(groups)))
  {
    var sets := SetsOf(organization, groups);
    forall i | 0 <= i < |sets|
      ensures ValidFgrn(sets[i].fgrn) && forall m :: m in sets[i].members ==> ValidFgrn(m)
      ensures Buildable(sets[i]) <==> groups[i].name !in groups[i].memberGroups
    {
      BuildableIff(organization, groups, i);
      SegmentIsNativeId(groups[i].name);
      forall m | m in groups[i].memberGroups
        ensures IsNativeId(m)
      {
        SegmentIsNativeId(m);
      }
    }
    SetsOfSpell(organization, groups);
    DetectorsAgree(NameOf, sets, groups);
  }
}
