/** The spine as the services hold it, updated in place. */
module OrgSpine {
  import opened Wrappers
  import opened Names
  import opened Graphs
  import opened Sets
  import opened Spines
  import opened SpineMoves

  // ----- The units a spine is built from -----

  function UnitsOf(list: seq<Unit>): Units {
    if list == [] then map[]
    else UnitsOf(list[..|list| - 1])[list[|list| - 1].fgrn := list[|list| - 1].parent]
  }

  ghost predicate Distinct(list: seq<Unit>) {
    forall i, j :: 0 <= i < j < |list| ==> list[i].fgrn != list[j].fgrn
  }

  lemma {:induction false} UnitsOfHolds(list: seq<Unit>)
    requires Distinct(list)
    ensures forall i :: 0 <= i < |list| ==> list[i].fgrn in UnitsOf(list) && UnitsOf(list)[list[i].fgrn] == list[i].parent
    ensures forall n :: n in UnitsOf(list) ==> exists i :: 0 <= i < |list| && list[i].fgrn == n
    decreases |list|
  {
    if list != [] {
      var n := |list| - 1;
      assert forall i :: 0 <= i < n ==> list[..n][i] == list[i];
      UnitsOfHolds(list[..n]);
      assert UnitsOf(list).Keys == UnitsOf(list[..n]).Keys + {list[n].fgrn};
    }
  }

  ghost predicate OnlyRoot(list: seq<Unit>, r: nat) {
    r < |list| && forall i :: 0 <= i < |list| ==> (list[i].parent.None? <==> i == r)
  }

  ghost predicate OneRoot(list: seq<Unit>) {
    exists r: nat :: OnlyRoot(list, r)
  }

  ghost predicate ParentsKnown(units: Units) {
    forall n :: n in units && units[n].Some? ==> units[n].value in units
  }

  /** What a list of units must be to make a spine. */
  ghost predicate MakesSpine(list: seq<Unit>) {
    && list != []
    && Distinct(list)
    && (forall i :: 0 <= i < |list| ==> list[i].fgrn.organization == list[0].fgrn.organization)
    && OneRoot(list)
    && ParentsKnown(UnitsOf(list))
    && !Cyclic(Hierarchy(UnitsOf(list)))
  }

  /** The fault that an error names is a fault of the list. */
  ghost predicate Blames(list: seq<Unit>, e: SpineError) {
    match e
    case Empty => list == []
    case Duplicate(f) => exists i, j :: 0 <= i < j < |list| && list[i].fgrn == f && list[j].fgrn == f
    case ForeignOrganization(f) =>
      exists i :: 0 <= i < |list| && list[i].fgrn == f && f.organization != list[0].fgrn.organization
    case SecondRoot(f) =>
      exists i, j :: 0 <= i < j < |list| && list[i].parent.None? && list[j].parent.None? && list[j].fgrn == f
    case NoRoot => forall i :: 0 <= i < |list| ==> list[i].parent.Some?
    case UnknownParent(f) => f !in UnitsOf(list) && exists n :: n in UnitsOf(list) && UnitsOf(list)[n] == Some(f)
    case CycleAt(_) => Cyclic(Hierarchy(UnitsOf(list)))
    case _ => false
  }

  lemma RootIsListed(list: seq<Unit>)
    ensures OneRoot(list) ==> exists i :: 0 <= i < |list| && list[i].parent.None?
  {
    if OneRoot(list) {
      var r: nat :| OnlyRoot(list, r);
      assert list[r].parent.None?;
    }
  }

  lemma BlamedMakesNoSpine(list: seq<Unit>, e: SpineError)
    requires Blames(list, e)
    ensures !MakesSpine(list)
  {
    match e
    case SecondRoot(_) =>
    case NoRoot => RootIsListed(list);
    case UnknownParent(f) =>
      var n :| n in UnitsOf(list) && UnitsOf(list)[n] == Some(f);
    case _ =>
  }

  /** The first rule that an addition breaks. */
  ghost predicate RefusesAdd(units: Units, organization: string, unit: Unit, e: SpineError) {
    if unit.parent.None? then e == AlreadyRooted(unit.fgrn)
    else if unit.parent.value !in units then e == UnknownParent(unit.parent.value)
    else if unit.fgrn in units then e == Duplicate(unit.fgrn)
    else e == ForeignOrganization(unit.fgrn) && unit.fgrn.organization != organization
  }

  /** The first rule that a move breaks. */
  ghost predicate RefusesMove(units: Units, root: Fgrn, node: Fgrn, newParent: Fgrn, e: SpineError) {
    if node !in units then e == UnknownUnit(node)
    else if node == root then e == RootMoved(node)
    else if newParent !in units then e == UnknownParent(newParent)
    else e == WouldCycle(node)
  }

  class Spine {
    var units: Units
    const root: Fgrn
    const organization: string

    ghost predicate Valid()
      reads this
    {
      IsTree(units, root, organization)
    }

    constructor (units: Units, root: Fgrn, organization: string)
      requires IsTree(units, root, organization)
      ensures Valid() && this.units == units && this.root == root && this.organization == organization
    {
      this.units, this.root, this.organization := units, root, organization;
    }

    /** The units from the root to the given one. */
    method Path(fgrn: Fgrn) returns (r: Result<seq<Fgrn>, SpineError>)
      requires Valid()
      ensures fgrn !in units ==> r == Err(UnknownUnit(fgrn))
      ensures fgrn in units ==> r == Ok(PathOf(units, fgrn))
    {
      if fgrn !in units {
        return Err(UnknownUnit(fgrn));
      }
      hide IsRootPath, IsDescent;
      var path := [fgrn];
      var current := fgrn;
      LastOnPath(units, fgrn);
      assert Reversed([fgrn]) == [fgrn];
      while units[current].Some?
        invariant current in units && Ascended(units, fgrn, current, Reversed(path))
        decreases |PathOf(units, current)|
      {
        var parent := units[current].value;
        Ascend(units, root, organization, fgrn, current, Reversed(path));
        path := path + [parent];
        assert path[..|path| - 1] + [parent] == path;
        current := parent;
      }
      AscendedToRoot(units, fgrn, current, Reversed(path));
      r := Ok(Reversed(path));
    }

    method IsAtOrBelow(node: Fgrn, ancestor: Fgrn) returns (r: Result<bool, SpineError>)
      requires Valid()
      ensures node !in units ==> r == Err(UnknownUnit(node))
      ensures node in units && ancestor !in units ==> r == Err(UnknownUnit(ancestor))
      ensures node in units && ancestor in units ==> r == Ok(Below(units, node, ancestor))
    {
      var path := Path(node);
      if path.Err? {
        return Err(path.error);
      }
      if ancestor !in units {
        return Err(UnknownUnit(ancestor));
      }
      return Ok(ancestor in path.value);
    }

    method Add(unit: Unit) returns (r: Result<(), SpineError>)
      requires Valid() && ValidUnit(unit)
      modifies this
      ensures Valid()
      ensures r.Ok? <==> Accepts(old(units), root, organization, Change.Add(unit))
      ensures units == After(old(units), root, organization, Change.Add(unit))
      ensures r.Err? ==> RefusesAdd(units, organization, unit, r.error)
    {
      if unit.parent.None? {
        return Err(AlreadyRooted(unit.fgrn));
      }
      if unit.parent.value !in units {
        return Err(UnknownParent(unit.parent.value));
      }
      if unit.fgrn in units {
        return Err(Duplicate(unit.fgrn));
      }
      if unit.fgrn.organization != organization {
        return Err(ForeignOrganization(unit.fgrn));
      }
      AddKeepsTree(units, root, organization, unit.fgrn, unit.parent.value);
      units := units[unit.fgrn := unit.parent];
      return Ok(());
    }

    /** Refused as a cycle exactly when the updated parents would be circular. */
    method Reparent(node: Fgrn, newParent: Fgrn) returns (r: Result<(), SpineError>)
      requires Valid()
      modifies this
      ensures Valid()
      ensures r.Ok? <==> Accepts(old(units), root, organization, Change.Reparent(node, newParent))
      ensures units == After(old(units), root, organization, Change.Reparent(node, newParent))
      ensures r.Err? ==> RefusesMove(units, root, node, newParent, r.error)
      ensures node in units && node != root && newParent in units ==>
        (r == Err(WouldCycle(node)) <==> Cyclic(Hierarchy(old(units)[node := Some(newParent)])))
    {
      if node !in units {
        return Err(UnknownUnit(node));
      }
      if node == root {
        return Err(RootMoved(node));
      }
      if newParent !in units {
        return Err(UnknownParent(newParent));
      }
      MoveCyclesIff(units, root, organization, node, newParent);
      var below := IsAtOrBelow(newParent, node);
      if below.value {
        return Err(WouldCycle(node));
      }
      MoveKeepsTree(units, root, organization, node, newParent);
      units := units[node := Some(newParent)];
      return Ok(());
    }
  }

  function Reversed(s: seq<Fgrn>): seq<Fgrn> {
    if s == [] then [] else [s[|s| - 1]] + Reversed(s[..|s| - 1])
  }

  /** The rest of the path from `current` down is known. */
  ghost predicate Ascended(units: Units, fgrn: Fgrn, current: Fgrn, known: seq<Fgrn>)
  {
    && Rooted(units, fgrn) && Rooted(units, current)
    && PathOf(units, current) != []
    && PathOf(units, fgrn) == PathOf(units, current)[..|PathOf(units, current)| - 1] + known
  }

  lemma LastOnPath(units: Units, n: Fgrn)
    requires Rooted(units, n)
    ensures Ascended(units, n, n, [n])
  {
  }

  lemma Ascend(units: Units, root: Fgrn, organization: string, fgrn: Fgrn, current: Fgrn, known: seq<Fgrn>)
    requires IsTree(units, root, organization)
    requires current in units && units[current].Some? && Ascended(units, fgrn, current, known)
    ensures var parent := units[current].value;
            && parent in units
            && |PathOf(units, parent)| < |PathOf(units, current)|
            && Ascended(units, fgrn, parent, [parent] + known)
  {
    var parent := units[current].value;
    ChildIsDeeper(units, parent, current);
    var p := PathOf(units, parent);
    assert PathOf(units, current)[..|p|] == p == p[..|p| - 1] + [parent];
  }

  lemma AscendedToRoot(units: Units, fgrn: Fgrn, current: Fgrn, known: seq<Fgrn>)
    requires current in units && units[current].None? && Ascended(units, fgrn, current, known)
    ensures PathOf(units, fgrn) == known
  {
    RootPathUnique(units, PathOf(units, current), [current], current);
  }

  // ----- Construction -----

  /** What the first pass knows after the first `i` units. */
  ghost predicate Gathered(list: seq<Unit>, i: nat, units: Units, root: Option<Fgrn>) {
    && i <= |list|
    && Distinct(list[..i])
    && units == UnitsOf(list[..i])
    && (forall j :: 0 <= j < i ==> list[j].fgrn.organization == list[0].fgrn.organization)
    && (root.None? ==> forall j :: 0 <= j < i ==> list[j].parent.Some?)
    && (root.Some? ==> exists k: nat :: OnlyRoot(list[..i], k) && list[k].fgrn == root.value)
  }

  lemma DistinctNext(list: seq<Unit>, i: nat)
    requires i < |list| && Distinct(list[..i]) && list[i].fgrn !in UnitsOf(list[..i])
    ensures Distinct(list[..i + 1])
  {
    UnitsOfHolds(list[..i]);
    assert forall j :: 0 <= j < i ==> list[..i][j].fgrn != list[i].fgrn;
  }

  lemma RootNext(list: seq<Unit>, i: nat, root: Option<Fgrn>)
    requires i < |list| && (list[i].parent.None? ==> root.None?)
    requires root.None? ==> forall j :: 0 <= j < i ==> list[j].parent.Some?
    requires root.Some? ==> exists k: nat :: OnlyRoot(list[..i], k) && list[k].fgrn == root.value
    ensures var next := if list[i].parent.None? then Some(list[i].fgrn) else root;
            next.Some? ==> exists k: nat :: OnlyRoot(list[..i + 1], k) && list[k].fgrn == next.value
  {
    if list[i].parent.None? {
      assert OnlyRoot(list[..i + 1], i);
    } else if root.Some? {
      var k: nat :| OnlyRoot(list[..i], k) && list[k].fgrn == root.value;
      assert OnlyRoot(list[..i + 1], k);
    }
  }

  lemma GatherNext(list: seq<Unit>, i: nat, units: Units, root: Option<Fgrn>)
    requires i < |list| && Gathered(list, i, units, root)
    requires list[i].fgrn !in units
    requires list[i].fgrn.organization == list[0].fgrn.organization
    requires list[i].parent.None? ==> root.None?
    ensures Gathered(list, i + 1, units[list[i].fgrn := list[i].parent], if list[i].parent.None? then Some(list[i].fgrn) else root)
  {
    hide Distinct, OnlyRoot;
    DistinctNext(list, i);
    RootNext(list, i, root);
    assert list[..i + 1][..i] == list[..i];
  }

  lemma GatherBlames(list: seq<Unit>, i: nat, units: Units, root: Option<Fgrn>)
    requires i < |list| && Gathered(list, i, units, root)
    ensures list[i].fgrn in units ==> Blames(list, Duplicate(list[i].fgrn))
    ensures list[i].fgrn.organization != list[0].fgrn.organization ==> Blames(list, ForeignOrganization(list[i].fgrn))
    ensures list[i].parent.None? && root.Some? ==> Blames(list, SecondRoot(list[i].fgrn))
  {
    UnitsOfHolds(list[..i]);
    if list[i].fgrn in units {
      var j :| 0 <= j < i && list[..i][j].fgrn == list[i].fgrn;
      assert list[j].fgrn == list[i].fgrn;
    }
    if root.Some? {
      var k: nat :| OnlyRoot(list[..i], k) && list[k].fgrn == root.value;
      assert list[..i][k].parent.None?;
      assert list[k].parent.None?;
    }
  }

  /** The first pass: rejects repeats, foreign units and second roots. */
  method Gather(list: seq<Unit>) returns (r: Result<(Units, Option<Fgrn>), SpineError>)
    ensures r.Err? ==> Blames(list, r.error)
    ensures r.Ok? ==> Gathered(list, |list|, r.value.0, r.value.1)
  {
    hide Blames;
    var units: Units := map[];
    var root: Option<Fgrn> := None;
    for i := 0 to |list|
      invariant Gathered(list, i, units, root)
    {
      var u := list[i];
      GatherBlames(list, i, units, root);
      if u.fgrn in units {
        return Err(Duplicate(u.fgrn));
      }
      if u.fgrn.organization != list[0].fgrn.organization {
        return Err(ForeignOrganization(u.fgrn));
      }
      if u.parent.None? {
        if root.Some? {
          return Err(SecondRoot(u.fgrn));
        }
        GatherNext(list, i, units, root);
        root := Some(u.fgrn);
      } else {
        GatherNext(list, i, units, root);
      }
      units := units[u.fgrn := u.parent];
    }
    r := Ok((units, root));
  }

  /** The cycle test for one unit: climbs towards the root, giving up after more steps than there are units. */
  method Climb(units: Units, node: Fgrn) returns (ok: bool)
    requires ParentsKnown(units) && node in units
    ensures ok <==> Rooted(units, node)
    ensures !ok ==> Cyclic(Hierarchy(units))
  {
    var current := node;
    var steps := 0;
    ghost var trail := [node];
    while units[current].Some?
      invariant current in units && steps <= |units|
      invariant |trail| == steps + 1 && IsDescent(units, trail)
      invariant trail[0] == current && trail[steps] == node
      decreases |units| - steps
    {
      steps := steps + 1;
      if steps > |units| {
        LongDescentIsCyclic(units, trail);
        CycleIsNotRooted(units, trail);
        return false;
      }
      current := units[current].value;
      trail := [current] + trail;
    }
    assert IsRootPath(units, trail, node);
    return true;
  }

  /** A unit with a path from a root is not reached by a descent longer than the number of units. */
  lemma CycleIsNotRooted(units: Units, trail: seq<Fgrn>)
    requires IsDescent(units, trail) && |trail| > |units|
    ensures !Rooted(units, trail[|trail| - 1])
  {
    var node := trail[|trail| - 1];
    if Rooted(units, node) {
      var p := PathOf(units, node);
      RootPathFits(units, node);
      DescentEndsPath(units, p, trail, node, |trail| - 1);
    }
  }

  lemma RootPathFits(units: Units, node: Fgrn)
    requires Rooted(units, node)
    ensures |PathOf(units, node)| <= |units|
  {
    var p := PathOf(units, node);
    forall i, j | 0 <= i < j < |p|
      ensures p[i] != p[j]
    {
      if p[i] == p[j] {
        PathHasNoRepeats(units, node, i, j);
      }
    }
    DistinctSize(p);
    SubsetSize((set x | x in p), units.Keys);
  }

  /** Read from its end, a descent agrees with the path from the root. */
  lemma {:induction false} DescentEndsPath(units: Units, p: seq<Fgrn>, trail: seq<Fgrn>, node: Fgrn, k: nat)
    requires IsRootPath(units, p, node) && IsDescent(units, trail)
    requires trail != [] && trail[|trail| - 1] == node && k < |trail|
    ensures k < |p| && trail[|trail| - 1 - k] == p[|p| - 1 - k]
  {
    if k > 0 {
      DescentEndsPath(units, p, trail, node, k - 1);
      var i, j := |trail| - k, |p| - k;
      assert units[trail[i]] == Some(trail[i - 1]);
      PrefixIsRootPath(units, p, node, j);
      LastHasParent(units, p[..j + 1], p[j]);
    }
  }

  /** Succeeds exactly on the lists that make a spine, and otherwise names a fault of the list. */
  method TryNew(list: seq<Unit>) returns (r: Result<Spine, SpineError>)
    requires forall i :: 0 <= i < |list| ==> ValidUnit(list[i])
    ensures r.Ok? <==> MakesSpine(list)
    ensures r.Ok? ==> fresh(r.value) && r.value.Valid() && r.value.units == UnitsOf(list)
    ensures r.Err? ==> Blames(list, r.error)
  {
    if list == [] {
      return Err(Empty);
    }
    var gathered := Gather(list);
    if gathered.Err? {
      BlamedMakesNoSpine(list, gathered.error);
      return Err(gathered.error);
    }
    var units, root := gathered.value.0, gathered.value.1;
    assert list[..|list|] == list;
    if root.None? {
      BlamedMakesNoSpine(list, NoRoot);
      return Err(NoRoot);
    }
    var known := CheckParents(units);
    if known.Some? {
      BlamedMakesNoSpine(list, UnknownParent(known.value));
      return Err(UnknownParent(known.value));
    }
    var cycle := CheckCycles(units);
    if cycle.Some? {
      return Err(CycleAt(cycle.value));
    }
    RootedIsAcyclic(units);
    GatheredIsTree(list, units, root.value);
    var spine := new Spine(units, root.value, list[0].fgrn.organization);
    r := Ok(spine);
  }

  method CheckParents(units: Units) returns (unknown: Option<Fgrn>)
    ensures unknown.None? <==> ParentsKnown(units)
    ensures unknown.Some? ==> unknown.value !in units && exists n :: n in units && units[n] == unknown
  {
    var rest := units.Keys;
    while rest != {}
      invariant rest <= units.Keys
      invariant forall n :: n in units && n !in rest && units[n].Some? ==> units[n].value in units
      decreases rest
    {
      var n :| n in rest;
      rest := rest - {n};
      if units[n].Some? && units[n].value !in units {
        return units[n];
      }
    }
    return None;
  }

  method CheckCycles(units: Units) returns (cycle: Option<Fgrn>)
    requires ParentsKnown(units)
    ensures cycle.None? <==> forall n :: n in units ==> Rooted(units, n)
    ensures cycle.Some? ==> Cyclic(Hierarchy(units))
  {
    var rest := units.Keys;
    while rest != {}
      invariant rest <= units.Keys
      invariant forall n :: n in units && n !in rest ==> Rooted(units, n)
      decreases rest
    {
      var node :| node in rest;
      rest := rest - {node};
      var ok := Climb(units, node);
      if !ok {
        return Some(node);
      }
    }
    return None;
  }

  lemma GatheredIsTree(list: seq<Unit>, units: Units, root: Fgrn)
    requires Distinct(list) && units == UnitsOf(list) && list != []
    requires forall i :: 0 <= i < |list| ==> ValidUnit(list[i]) && list[i].fgrn.organization == list[0].fgrn.organization
    requires exists k: nat :: OnlyRoot(list, k) && list[k].fgrn == root
    requires forall n :: n in units ==> Rooted(units, n)
    ensures IsTree(units, root, list[0].fgrn.organization)
  {
    UnitsOfHolds(list);
    var k: nat :| OnlyRoot(list, k) && list[k].fgrn == root;
    forall n | n in units
      ensures (units[n].None? <==> n == root) && n.kind.OrgUnit? && n.organization == list[0].fgrn.organization
    {
      var i :| 0 <= i < |list| && list[i].fgrn == n;
      assert ValidUnit(list[i]);
      assert i != k ==> list[i].fgrn != list[k].fgrn;
    }
  }
}
