/** The organizational spine: org units whose parent edges form one rooted tree. */
module Spines {
  import opened Wrappers
  import opened Names
  import opened Graphs
  import opened Sets

  datatype Unit = Unit(fgrn: Fgrn, parent: Option<Fgrn>)

  /** What constructing an org unit has already checked. */
  predicate ValidUnit(u: Unit) {
    && u.fgrn.kind.OrgUnit?
    && (u.parent.Some? ==>
          && u.parent.value.kind.OrgUnit?
          && u.parent.value != u.fgrn
          && u.parent.value.organization == u.fgrn.organization)
  }

  type Units = map<Fgrn, Option<Fgrn>>

  datatype SpineError =
    | Empty
    | Duplicate(unit: Fgrn)
    | ForeignOrganization(unit: Fgrn)
    | SecondRoot(unit: Fgrn)
    | NoRoot
    | UnknownParent(parent: Fgrn)
    | CycleAt(unit: Fgrn)
    | UnknownUnit(unit: Fgrn)
    | AlreadyRooted(unit: Fgrn)
    | RootMoved(unit: Fgrn)
    | WouldCycle(unit: Fgrn)

  // ----- Descents and root paths -----

  /** Every node is the parent of the next. */
  ghost predicate IsDescent(units: Units, p: seq<Fgrn>) {
    && (forall i :: 0 <= i < |p| ==> p[i] in units)
    && (forall i :: 0 < i < |p| ==> units[p[i]] == Some(p[i - 1]))
  }

  ghost predicate IsRootPath(units: Units, p: seq<Fgrn>, n: Fgrn) {
    p != [] && IsDescent(units, p) && units[p[0]].None? && p[|p| - 1] == n
  }

  ghost predicate Rooted(units: Units, n: Fgrn) {
    exists p :: IsRootPath(units, p, n)
  }

  /** One root, one organization, and a path from the root to every unit. */
  ghost predicate IsTree(units: Units, root: Fgrn, organization: string) {
    && root in units
    && (forall n :: n in units ==> (units[n].None? <==> n == root))
    && (forall n :: n in units ==> n.kind.OrgUnit? && n.organization == organization)
    && (forall n :: n in units ==> Rooted(units, n))
  }

  ghost function PathOf(units: Units, n: Fgrn): (p: seq<Fgrn>)
    requires Rooted(units, n)
    ensures IsRootPath(units, p, n)
  {
    var p :| IsRootPath(units, p, n);
    p
  }

  lemma PrefixIsRootPath(units: Units, p: seq<Fgrn>, n: Fgrn, i: nat)
    requires IsRootPath(units, p, n) && i < |p|
    ensures IsRootPath(units, p[..i + 1], p[i])
  {
  }

  lemma LastHasParent(units: Units, p: seq<Fgrn>, n: Fgrn)
    requires IsRootPath(units, p, n)
    ensures n in units && units[n] == if |p| == 1 then None else Some(p[|p| - 2])
  {
    if |p| > 1 {
      assert units[p[|p| - 1]] == Some(p[|p| - 1 - 1]);
    }
  }

  /** A unit has one path from a root. */
  lemma {:induction false} RootPathUnique(units: Units, p: seq<Fgrn>, q: seq<Fgrn>, n: Fgrn)
    requires IsRootPath(units, p, n) && IsRootPath(units, q, n)
    ensures p == q
    decreases |p|
  {
    var i, j := |p| - 1, |q| - 1;
    LastHasParent(units, p, n);
    LastHasParent(units, q, n);
    if i > 0 {
      PrefixIsRootPath(units, p, n, i - 1);
      PrefixIsRootPath(units, q, n, j - 1);
      RootPathUnique(units, p[..i], q[..j], p[i - 1]);
      assert p == p[..i] + [n] && q == q[..j] + [n];
    } else {
      assert p == [n] == q;
    }
  }

  lemma PathPrefix(units: Units, n: Fgrn, i: nat)
    requires Rooted(units, n) && i < |PathOf(units, n)|
    ensures var m := PathOf(units, n)[i]; Rooted(units, m) && PathOf(units, m) == PathOf(units, n)[..i + 1]
  {
    var p := PathOf(units, n);
    PrefixIsRootPath(units, p, n, i);
    RootPathUnique(units, PathOf(units, p[i]), p[..i + 1], p[i]);
  }

  /** No unit occurs twice on a path. */
  lemma PathHasNoRepeats(units: Units, n: Fgrn, i: nat, j: nat)
    requires Rooted(units, n) && i < |PathOf(units, n)| && j < |PathOf(units, n)|
    requires PathOf(units, n)[i] == PathOf(units, n)[j]
    ensures i == j
  {
    PathPrefix(units, n, i);
    PathPrefix(units, n, j);
  }

  // ----- At or below -----

  ghost predicate Below(units: Units, n: Fgrn, ancestor: Fgrn)
    requires Rooted(units, n)
  {
    ancestor in PathOf(units, n)
  }

  /** The units on a path are exactly the ancestors of its end; being at or below is a partial order
      whose ancestors form a chain. */
  lemma BelowIsTreeOrder(units: Units, a: Fgrn, b: Fgrn, c: Fgrn)
    requires Rooted(units, a) && Rooted(units, b) && Rooted(units, c)
    ensures Below(units, a, a)
    ensures Below(units, a, b) && Below(units, b, a) ==> a == b
    ensures Below(units, a, b) && Below(units, b, c) ==> Below(units, a, c)
    ensures Below(units, a, b) && Below(units, a, c) ==> Below(units, b, c) || Below(units, c, b)
  {
    var p := PathOf(units, a);
    assert p[|p| - 1] == a;
    if Below(units, a, b) {
      var i :| 0 <= i < |p| && p[i] == b;
      PathPrefix(units, a, i);
      assert PathOf(units, b) == p[..i + 1];
      if Below(units, b, a) {
        var k :| 0 <= k < i + 1 && p[..i + 1][k] == a;
        PathHasNoRepeats(units, a, k, |p| - 1);
      }
      if Below(units, a, c) {
        var j :| 0 <= j < |p| && p[j] == c;
        PathPrefix(units, a, j);
        assert j <= i ==> p[..i + 1][j] == c;
        assert i <= j ==> p[..j + 1][i] == b;
      }
    }
  }

  // ----- Cycles -----

  /** Hierarchy edges lead from a parent to its children. */
  function Hierarchy(units: Units): Graph<Fgrn> {
    map p | p in units :: set c | c in units && units[c] == Some(p)
  }

  lemma ChildIsDeeper(units: Units, parent: Fgrn, child: Fgrn)
    requires Rooted(units, child) && units[child] == Some(parent)
    ensures Rooted(units, parent) && PathOf(units, child) == PathOf(units, parent) + [child]
  {
    var p := PathOf(units, child);
    var n := |p| - 1;
    assert n > 0 ==> units[p[n]] == Some(p[n - 1]);
    PathPrefix(units, child, n - 1);
    assert p == p[..n] + [child];
  }

  lemma {:induction false} WalkDeepens(units: Units, p: seq<Fgrn>)
    requires p != [] && IsWalk(Hierarchy(units), p)
    requires forall n :: n in units ==> Rooted(units, n)
    requires p[0] in units
    ensures p[|p| - 1] in units && |PathOf(units, p[|p| - 1])| == |PathOf(units, p[0])| + |p| - 1
    decreases |p|
  {
    if |p| > 1 {
      var n := |p| - 1;
      assert forall i :: 0 <= i < n - 1 ==> Edge(Hierarchy(units), p[..n][i], p[..n][i + 1]) by {
        forall i | 0 <= i < n - 1
          ensures Edge(Hierarchy(units), p[..n][i], p[..n][i + 1])
        {
          assert Edge(Hierarchy(units), p[i], p[i + 1]);
        }
      }
      WalkDeepens(units, p[..n]);
      assert Edge(Hierarchy(units), p[n - 1], p[n]);
      ChildIsDeeper(units, p[n - 1], p[n]);
    }
  }

  /** When every unit has a path from a root, the hierarchy has no cycle. */
  lemma RootedIsAcyclic(units: Units)
    requires forall n :: n in units ==> Rooted(units, n)
    ensures !Cyclic(Hierarchy(units))
  {
    if Cyclic(Hierarchy(units)) {
      var p :| IsCycle(Hierarchy(units), p);
      assert Edge(Hierarchy(units), p[0], p[1]);
      WalkDeepens(units, p);
    }
  }

  lemma DescentIsWalk(units: Units, p: seq<Fgrn>)
    requires IsDescent(units, p)
    ensures IsWalk(Hierarchy(units), p)
  {
    forall i | 0 <= i < |p| - 1
      ensures Edge(Hierarchy(units), p[i], p[i + 1])
    {
      assert units[p[i + 1]] == Some(p[i + 1 - 1]);
    }
  }

  lemma {:induction false} DistinctSize(s: seq<Fgrn>)
    requires forall i, j :: 0 <= i < j < |s| ==> s[i] != s[j]
    ensures |set x | x in s| == |s|
  {
    if s != [] {
      var n := |s| - 1;
      DistinctSize(s[..n]);
      assert (set x | x in s) == (set x | x in s[..n]) + {s[n]};
    } else {
      assert (set x | x in s) == {};
    }
  }

  /** A descent through more nodes than there are units repeats one, so it runs around a cycle. */
  lemma LongDescentIsCyclic(units: Units, p: seq<Fgrn>)
    requires IsDescent(units, p) && |p| > |units|
    ensures Cyclic(Hierarchy(units))
  {
    if forall i, j :: 0 <= i < j < |p| ==> p[i] != p[j] {
      DistinctSize(p);
      SubsetSize((set x | x in p), units.Keys);
      assert false;
    }
    var i, j :| 0 <= i < j < |p| && p[i] == p[j];
    var c := p[i..j + 1];
    assert IsDescent(units, c);
    DescentIsWalk(units, c);
    assert IsCycle(Hierarchy(units), c);
  }
}
