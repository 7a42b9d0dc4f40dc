/** What adding and re-parenting do to the tree and to every unit's path. */
module SpineMoves {
  import opened Wrappers
  import opened Names
  import opened Graphs
  import opened Spines

  // ----- Adding a unit -----

  lemma PathSurvivesAdd(units: Units, n: Fgrn, fgrn: Fgrn, parent: Fgrn)
    requires Rooted(units, n) && fgrn !in units
    ensures IsRootPath(units[fgrn := Some(parent)], PathOf(units, n), n)
  {
  }

  lemma SamePathAfterAdd(units: Units, n: Fgrn, fgrn: Fgrn, parent: Fgrn)
    requires Rooted(units, n) && fgrn !in units
    ensures var after := units[fgrn := Some(parent)]; Rooted(after, n) && PathOf(after, n) == PathOf(units, n)
  {
    var after := units[fgrn := Some(parent)];
    PathSurvivesAdd(units, n, fgrn, parent);
    RootPathUnique(after, PathOf(after, n), PathOf(units, n), n);
  }

  lemma PathOfAdded(units: Units, fgrn: Fgrn, parent: Fgrn)
    requires Rooted(units, parent) && fgrn !in units
    ensures var after := units[fgrn := Some(parent)];
            Rooted(after, fgrn) && PathOf(after, fgrn) == PathOf(units, parent) + [fgrn]
  {
    var after := units[fgrn := Some(parent)];
    var p := PathOf(units, parent) + [fgrn];
    PathSurvivesAdd(units, parent, fgrn, parent);
    assert IsRootPath(after, p, fgrn);
    RootPathUnique(after, PathOf(after, fgrn), p, fgrn);
  }

  /** The new unit hangs below its parent and no path changes. */
  lemma AddKeepsTree(units: Units, root: Fgrn, organization: string, fgrn: Fgrn, parent: Fgrn)
    requires IsTree(units, root, organization)
    requires fgrn !in units && parent in units
    requires fgrn.kind.OrgUnit? && fgrn.organization == organization
    ensures var after := units[fgrn := Some(parent)];
            && IsTree(after, root, organization)
            && PathOf(after, fgrn) == PathOf(units, parent) + [fgrn]
            && forall n :: n in units ==> PathOf(after, n) == PathOf(units, n)
  {
    var after := units[fgrn := Some(parent)];
    hide IsRootPath, Rooted, PathOf;
    forall n | n in units
      ensures Rooted(after, n) && PathOf(after, n) == PathOf(units, n)
    {
      SamePathAfterAdd(units, n, fgrn, parent);
    }
    PathOfAdded(units, fgrn, parent);
  }

  // ----- Moving a subtree -----

  ghost predicate CanMove(units: Units, node: Fgrn, newParent: Fgrn) {
    && node in units && newParent in units && units[node].Some?
    && (forall n :: n in units ==> Rooted(units, n))
    && !Below(units, newParent, node)
  }

  lemma NodeOnPath(units: Units, node: Fgrn, n: Fgrn)
    requires Rooted(units, n) && Rooted(units, node) && Below(units, n, node)
    ensures var i := |PathOf(units, node)| - 1; i < |PathOf(units, n)| && PathOf(units, n)[i] == node
  {
    var p := PathOf(units, n);
    var i :| 0 <= i < |p| && p[i] == node;
    PathPrefix(units, n, i);
  }

  /** Where a unit is after the move: the new parent's path followed by the old path from the moved unit on. */
  ghost function MovedPath(units: Units, node: Fgrn, newParent: Fgrn, n: Fgrn): seq<Fgrn>
    requires CanMove(units, node, newParent) && n in units
  {
    if Below(units, n, node) then
      NodeOnPath(units, node, n);
      PathOf(units, newParent) + PathOf(units, n)[|PathOf(units, node)| - 1..]
    else PathOf(units, n)
  }

  /** A root path that avoids the moved unit, followed by a descent from it. */
  lemma SplicedPath(units: Units, node: Fgrn, newParent: Fgrn, a: seq<Fgrn>, s: seq<Fgrn>)
    requires IsRootPath(units, a, newParent) && node !in a
    requires IsDescent(units, s) && s != [] && s[0] == node
    requires forall k :: 0 < k < |s| ==> s[k] != node
    ensures IsRootPath(units[node := Some(newParent)], a + s, s[|s| - 1])
  {
    var after, q := units[node := Some(newParent)], a + s;
    forall k | 0 < k < |q|
      ensures after[q[k]] == Some(q[k - 1])
    {
      if k < |a| {
        assert a[k] in a && units[a[k]] == Some(a[k - 1]);
      } else if k > |a| {
        assert units[s[k - |a|]] == Some(s[k - |a| - 1]);
      }
    }
    assert a[0] in a;
  }

  /** The part of a path from one of its units on. */
  lemma PathSuffix(units: Units, n: Fgrn, i: nat)
    requires Rooted(units, n) && i < |PathOf(units, n)|
    ensures var p := PathOf(units, n);
            IsDescent(units, p[i..]) && forall k :: 0 < k < |p[i..]| ==> p[i..][k] != p[i]
  {
    var p := PathOf(units, n);
    forall k | 0 < k < |p[i..]|
      ensures units[p[i..][k]] == Some(p[i..][k - 1]) && p[i..][k] != p[i]
    {
      assert units[p[i + k]] == Some(p[i + k - 1]);
      if p[i + k] == p[i] {
        PathHasNoRepeats(units, n, i + k, i);
      }
    }
  }

  lemma PathEnds(units: Units, n: Fgrn)
    requires Rooted(units, n)
    ensures PathOf(units, n) != [] && PathOf(units, n)[|PathOf(units, n)| - 1] == n
  {
  }

  lemma MovedPathBelow(units: Units, node: Fgrn, newParent: Fgrn, n: Fgrn)
    requires CanMove(units, node, newParent) && n in units && Below(units, n, node)
    ensures IsRootPath(units[node := Some(newParent)], MovedPath(units, node, newParent, n), n)
  {
    hide IsDescent, IsRootPath;
    var i, p := |PathOf(units, node)| - 1, PathOf(units, n);
    PathEnds(units, node);
    PathEnds(units, n);
    NodeOnPath(units, node, n);
    PathSuffix(units, n, i);
    SplicedPath(units, node, newParent, PathOf(units, newParent), p[i..]);
    assert p[i..][|p[i..]| - 1] == n;
  }

  lemma MovedPathElsewhere(units: Units, node: Fgrn, newParent: Fgrn, n: Fgrn)
    requires CanMove(units, node, newParent) && n in units && !Below(units, n, node)
    ensures IsRootPath(units[node := Some(newParent)], PathOf(units, n), n)
  {
  }

  /** After an accepted move every unit at or below the moved one has the new parent's path followed by
      its old suffix, and every other path is unchanged. */
  lemma MoveKeepsTree(units: Units, root: Fgrn, organization: string, node: Fgrn, newParent: Fgrn)
    requires IsTree(units, root, organization) && CanMove(units, node, newParent)
    ensures var after := units[node := Some(newParent)];
            && IsTree(after, root, organization)
            && forall n :: n in units ==> PathOf(after, n) == MovedPath(units, node, newParent, n)
  {
    var after := units[node := Some(newParent)];
    forall n | n in units
      ensures Rooted(after, n) && PathOf(after, n) == MovedPath(units, node, newParent, n)
    {
      if Below(units, n, node) {
        MovedPathBelow(units, node, newParent, n);
      } else {
        MovedPathElsewhere(units, node, newParent, n);
      }
      RootPathUnique(after, PathOf(after, n), MovedPath(units, node, newParent, n), n);
    }
  }

  /** A move makes a cycle exactly when the new parent is at or below the moved unit. */
  lemma MoveCyclesIff(units: Units, root: Fgrn, organization: string, node: Fgrn, newParent: Fgrn)
    requires IsTree(units, root, organization)
    requires node in units && node != root && newParent in units
    ensures Below(units, newParent, node) <==> Cyclic(Hierarchy(units[node := Some(newParent)]))
  {
    var after := units[node := Some(newParent)];
    if Below(units, newParent, node) {
      var p := PathOf(units, newParent);
      NodeOnPath(units, node, newParent);
      var i := |PathOf(units, node)| - 1;
      PathSuffix(units, newParent, i);
      var c := [newParent] + p[i..];
      forall k | 0 < k < |c|
        ensures after[c[k]] == Some(c[k - 1])
      {
        if k > 1 {
          assert units[p[i..][k - 1]] == Some(p[i..][k - 1 - 1]);
        }
      }
      assert IsDescent(after, c);
      DescentIsWalk(after, c);
      assert IsCycle(Hierarchy(after), c);
    } else {
      MoveKeepsTree(units, root, organization, node, newParent);
      RootedIsAcyclic(after);
    }
  }

  // ----- Runs -----

  datatype Change = Add(unit: Unit) | Reparent(node: Fgrn, newParent: Fgrn)

  /** A change that is refused leaves the units as they are. */
  ghost predicate Accepts(units: Units, root: Fgrn, organization: string, c: Change) {
    match c
    case Add(u) =>
      u.parent.Some? && u.parent.value in units && u.fgrn !in units && u.fgrn.organization == organization
    case Reparent(node, newParent) =>
      node in units && node != root && newParent in units && Rooted(units, newParent) && !Below(units, newParent, node)
  }

  ghost function After(units: Units, root: Fgrn, organization: string, c: Change): Units {
    if !Accepts(units, root, organization, c) then units
    else match c
      case Add(u) => units[u.fgrn := u.parent]
      case Reparent(node, newParent) => units[node := Some(newParent)]
  }

  ghost function Run(units: Units, root: Fgrn, organization: string, cs: seq<Change>): Units
    decreases |cs|
  {
    if cs == [] then units
    else After(Run(units, root, organization, cs[..|cs| - 1]), root, organization, cs[|cs| - 1])
  }

  /** Every run of additions and moves leaves one tree with the same root and no fewer units. */
  lemma {:induction false} RunKeepsTree(units: Units, root: Fgrn, organization: string, cs: seq<Change>)
    requires IsTree(units, root, organization)
    requires forall i :: 0 <= i < |cs| && cs[i].Add? ==> ValidUnit(cs[i].unit)
    ensures IsTree(Run(units, root, organization, cs), root, organization)
    ensures units.Keys <= Run(units, root, organization, cs).Keys
    decreases |cs|
  {
    if cs != [] {
      var n := |cs| - 1;
      RunKeepsTree(units, root, organization, cs[..n]);
      var before := Run(units, root, organization, cs[..n]);
      if Accepts(before, root, organization, cs[n]) {
        match cs[n] {
          case Add(u) => AddKeepsTree(before, root, organization, u.fgrn, u.parent.value);
          case Reparent(node, newParent) => MoveKeepsTree(before, root, organization, node, newParent);
        }
      }
    }
  }
}
