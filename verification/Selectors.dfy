/** Selectors: position queries over the spine, their printed form and their resolution. */
module Selectors {
  import opened Wrappers
  import opened Text
  import opened Sorting
  import opened Names
  import opened Spines
  import opened OrgSpine

  datatype Selector = Selector(organization: string, path: seq<string>, subtree: bool)

  predicate ValidSelector(s: Selector) {
    IsSegment(s.organization) && forall i :: 0 <= i < |s.path| ==> IsNativeId(s.path[i])
  }

  // ----- The printed form -----

  const SCHEME := "org:"
  const SUBTREE_SUFFIX := "/**"

  function Dotted(path: seq<string>): string {
    if path == [] then "" else ['.'] + path[0] + Dotted(path[1..])
  }

  function Print(s: Selector): string {
    SCHEME + (s.organization + Dotted(s.path) + (if s.subtree then SUBTREE_SUFFIX else ""))
  }

  function StripSuffix(s: string, suffix: string): Option<string> {
    if |suffix| <= |s| && s[|s| - |suffix|..] == suffix then Some(s[..|s| - |suffix|]) else None
  }

  function Parse(s: string): Option<Selector> {
    if !(SCHEME <= s) then None else
    var rest := s[|SCHEME|..];
    var stripped := StripSuffix(rest, SUBTREE_SUFFIX);
    var body := if stripped.Some? then stripped.value else rest;
    if '/' in body then None else
    var parts := Split(body, '.');
    var r := Selector(parts[0], parts[1..], stripped.Some?);
    if ValidSelector(r) then Some(r) else None
  }

  lemma {:induction false} DottedIsJoin(head: string, path: seq<string>)
    ensures head + Dotted(path) == Join([head] + path, '.')
    decreases |path|
  {
    if path == [] {
      assert head + Dotted(path) == head;
    } else {
      DottedIsJoin(path[0], path[1..]);
      assert [path[0]] + path[1..] == path;
      assert ([head] + path)[1..] == path;
    }
  }

  lemma {:induction false} CharsOfJoin(parts: seq<string>, c: char)
    requires c != '.'
    ensures c in Join(parts, '.') <==> exists i :: 0 <= i < |parts| && c in parts[i]
  {
    if |parts| > 1 {
      CharsOfJoin(parts[1..], c);
      if c in Join(parts[1..], '.') {
        var i :| 0 <= i < |parts[1..]| && c in parts[1..][i];
        assert c in parts[i + 1];
      }
      if exists i :: 0 <= i < |parts| && c in parts[i] {
        var i :| 0 <= i < |parts| && c in parts[i];
        assert i > 0 ==> c in parts[1..][i - 1];
      }
    }
  }

  lemma Body(s: Selector)
    requires ValidSelector(s)
    ensures var rest := Print(s)[|SCHEME|..];
            && rest == Join([s.organization] + s.path, '.') + (if s.subtree then SUBTREE_SUFFIX else "")
            && StripSuffix(rest, SUBTREE_SUFFIX) == if s.subtree then Some(Join([s.organization] + s.path, '.')) else None
  {
    var body := Join([s.organization] + s.path, '.');
    DottedIsJoin(s.organization, s.path);
    if !s.subtree {
      assert body + "" == body;
      assert '*' !in body by {
        CharsOfJoin([s.organization] + s.path, '*');
        SegmentHasNo(s.organization, '*');
      }
      assert SUBTREE_SUFFIX[2] == '*';
      assert |body| >= 3 ==> body[|body| - 3..][2] in body;
    }
  }

  lemma ParseOfPrinted(s: Selector)
    requires ValidSelector(s)
    ensures var body := Join([s.organization] + s.path, '.');
            var parts := Split(body, '.');
            var r := Selector(parts[0], parts[1..], s.subtree);
            Parse(Print(s)) == if '/' in body || !ValidSelector(r) then None else Some(r)
  {
    Body(s);
    var body := Join([s.organization] + s.path, '.');
    assert body + "" == body;
    assert SCHEME <= Print(s);
  }

  predicate Plain(s: Selector) {
    forall i :: 0 <= i < |s.path| ==> '.' !in s.path[i] && '/' !in s.path[i]
  }

  lemma PlainBody(s: Selector)
    requires ValidSelector(s)
    ensures var parts := [s.organization] + s.path;
            && ((forall i :: 0 <= i < |s.path| ==> '/' !in s.path[i]) <==> '/' !in Join(parts, '.'))
            && ((forall i :: 0 <= i < |s.path| ==> '.' !in s.path[i]) <==> Split(Join(parts, '.'), '.') == parts)
  {
    var parts := [s.organization] + s.path;
    SegmentHasNo(s.organization, '/');
    SegmentHasNo(s.organization, '.');
    assert forall i :: 0 <= i < |s.path| ==> parts[i + 1] == s.path[i];
    CharsOfJoin(parts, '/');
    SplitPartsAreFree(Join(parts, '.'), '.');
    if forall i :: 0 <= i < |s.path| ==> '.' !in s.path[i] {
      assert forall p :: p in parts ==> '.' !in p;
      SplitOfJoin(parts, '.');
    }
  }

  /** A selector is recovered from its printed form exactly when its ids hold no dot and no slash. */
  lemma ParseOfPrintIff(s: Selector)
    requires ValidSelector(s)
    ensures Parse(Print(s)) == Some(s) <==> Plain(s)
  {
    hide Parse, Print, ValidSelector;
    ParseOfPrinted(s);
    PlainBody(s);
    var parts := Split(Join([s.organization] + s.path, '.'), '.');
    assert parts == [parts[0]] + parts[1..];
  }

  lemma DottedIdIsLost()
    ensures ValidSelector(Selector("acme", ["a.b"], false)) && Parse(Print(Selector("acme", ["a.b"], false))) != Some(Selector("acme", ["a.b"], false))
  {
    var s := Selector("acme", ["a.b"], false);
    assert s.path[0][1] == '.';
    ParseOfPrintIff(s);
  }

  lemma StripRestores(s: string, suffix: string)
    ensures StripSuffix(s, suffix).Some? ==> s == StripSuffix(s, suffix).value + suffix
  {
  }

  /** Whatever parses prints back to itself. */
  lemma PrintOfParse(text: string)
    requires Parse(text).Some?
    ensures ValidSelector(Parse(text).value) && Print(Parse(text).value) == text
  {
    var s := Parse(text).value;
    var rest := text[|SCHEME|..];
    var stripped := StripSuffix(rest, SUBTREE_SUFFIX);
    var body := if stripped.Some? then stripped.value else rest;
    assert ValidSelector(s) && Split(body, '.') == [s.organization] + s.path && text == SCHEME + rest;
    hide StripSuffix, ValidSelector, Split, Join, Parse, Dotted;
    StripRestores(rest, SUBTREE_SUFFIX);
    JoinOfSplit(body, '.');
    DottedIsJoin(s.organization, s.path);
    assert body + (if s.subtree then SUBTREE_SUFFIX else "") == rest;
  }

  // ----- Positions -----

  ghost function Ids(p: seq<Fgrn>): (r: seq<string>)
    ensures |r| == |p| && forall i :: 0 <= i < |p| ==> r[i] == p[i].id
  {
    seq(|p|, i requires 0 <= i < |p| => p[i].id)
  }

  /** The ids on the way from the root, which is left out, to a unit. */
  ghost function Position(units: Units, u: Fgrn): seq<string>
    requires Rooted(units, u)
  {
    Ids(PathOf(units, u)[1..])
  }

  ghost predicate At(units: Units, u: Fgrn, path: seq<string>) {
    u in units && Rooted(units, u) && Position(units, u) == path
  }

  lemma RootPosition(units: Units, root: Fgrn, organization: string, u: Fgrn)
    requires IsTree(units, root, organization) && u in units
    ensures At(units, u, []) <==> u == root
  {
    LastHasParent(units, PathOf(units, u), u);
  }

  lemma ChildPosition(units: Units, parent: Fgrn, child: Fgrn)
    requires Rooted(units, child) && units[child] == Some(parent)
    ensures Rooted(units, parent) && Position(units, child) == Position(units, parent) + [child.id]
  {
    ChildIsDeeper(units, parent, child);
    var p := PathOf(units, parent);
    assert (p + [child])[1..] == p[1..] + [child];
  }

  /** A position is held by at most one unit, since one organization's unit ids are unique. */
  lemma PositionUnique(units: Units, root: Fgrn, organization: string, u: Fgrn, v: Fgrn)
    requires IsTree(units, root, organization) && u in units && v in units
    requires Position(units, u) == Position(units, v)
    ensures u == v
  {
    RootPosition(units, root, organization, u);
    RootPosition(units, root, organization, v);
    if Position(units, u) != [] {
      var p, q := PathOf(units, u), PathOf(units, v);
      assert Position(units, u)[|p| - 2] == p[1..][|p| - 2].id == u.id;
      assert Position(units, v)[|q| - 2] == q[1..][|q| - 2].id == v.id;
    }
  }

  /** Every unit at a longer position is below a child at the next one. */
  lemma NextOnTheWay(units: Units, root: Fgrn, organization: string, u: Fgrn, path: seq<string>, i: nat, current: Fgrn)
    requires IsTree(units, root, organization) && At(units, u, path) && i < |path|
    requires At(units, current, path[..i])
    ensures var c := PathOf(units, u)[i + 1];
            c in units && c.id == path[i] && units[c] == Some(current)
  {
    var p := PathOf(units, u);
    PathPrefix(units, u, i);
    assert Position(units, p[i]) == path[..i] by {
      assert p[..i + 1][1..] == p[1..][..i];
    }
    PositionUnique(units, root, organization, p[i], current);
    assert units[p[i + 1]] == Some(p[i + 1 - 1]);
    assert path[i] == p[1..][i].id;
  }

  // ----- Order of FGRNs -----

  function KindRank(k: Kind): nat {
    match k
    case OrgUnit => 0
    case Principal => 1
    case PrincipalSet => 2
    case Resource => 3
  }

  predicate FgrnLe(a: Fgrn, b: Fgrn) {
    if a.organization != b.organization then Le(a.organization, b.organization)
    else if a.kind != b.kind then KindRank(a.kind) <= KindRank(b.kind)
    else Le(a.id, b.id)
  }

  lemma FgrnLeTransitive(a: Fgrn, b: Fgrn, c: Fgrn)
    requires FgrnLe(a, b) && FgrnLe(b, c)
    ensures FgrnLe(a, c)
  {
    if a.organization == b.organization == c.organization {
      if a.kind == b.kind == c.kind {
        LeTransitive(a.id, b.id, c.id);
      }
    } else if a.organization == c.organization {
      LeAntisymmetric(a.organization, b.organization);
    } else if a.organization != b.organization && b.organization != c.organization {
      LeTransitive(a.organization, b.organization, c.organization);
    }
  }

  lemma FgrnOrder()
    ensures TotalPreorder(FgrnLe)
  {
    forall a, b
      ensures FgrnLe(a, b) || FgrnLe(b, a)
    {
      LeTotal(a.organization, b.organization);
      LeTotal(a.id, b.id);
    }
    forall a, b, c | FgrnLe(a, b) && FgrnLe(b, c)
      ensures FgrnLe(a, c)
    {
      FgrnLeTransitive(a, b, c);
    }
  }

  // ----- Resolution -----

  datatype ResolveError = WrongOrganization | NoSuchUnit

  /** Looks for the child with the given id, taking the units in any order. */
  method FindChild(spine: Spine, current: Fgrn, id: string) returns (child: Option<Fgrn>)
    ensures child.Some? ==> child.value in spine.units && child.value.id == id && spine.units[child.value] == Some(current)
    ensures child.None? ==> forall u :: u in spine.units && u.id == id ==> spine.units[u] != Some(current)
  {
    var rest := spine.units.Keys;
    while rest != {}
      invariant rest <= spine.units.Keys
      invariant forall u :: u in spine.units && u !in rest && u.id == id ==> spine.units[u] != Some(current)
      decreases rest
    {
      var unit :| unit in rest;
      rest := rest - {unit};
      if unit.id == id && spine.units[unit] == Some(current) {
        return Some(unit);
      }
    }
    return None;
  }

  /** Finds the unit at a position; fails exactly when there is none. */
  method Descend(spine: Spine, path: seq<string>) returns (r: Option<Fgrn>)
    requires spine.Valid()
    ensures r.Some? ==> At(spine.units, r.value, path)
    ensures r.None? ==> forall u :: !At(spine.units, u, path)
  {
    var current := spine.root;
    RootPosition(spine.units, spine.root, spine.organization, current);
    for i := 0 to |path|
      invariant At(spine.units, current, path[..i])
    {
      var next := FindChild(spine, current, path[i]);
      if next.None? {
        forall u
          ensures !At(spine.units, u, path)
        {
          if At(spine.units, u, path) {
            NextOnTheWay(spine.units, spine.root, spine.organization, u, path, i, current);
          }
        }
        return None;
      }
      ChildPosition(spine.units, current, next.value);
      assert path[..i + 1] == path[..i] + [path[i]];
      current := next.value;
    }
    assert path[..|path|] == path;
    return Some(current);
  }

  method Collect(spine: Spine, top: Fgrn) returns (resolved: seq<Fgrn>)
    requires spine.Valid() && top in spine.units
    ensures forall u :: u in resolved <==> u in spine.units && Below(spine.units, u, top)
    ensures forall u :: multiset(resolved)[u] <= 1
  {
    resolved := [];
    var rest := spine.units.Keys;
    while rest != {}
      invariant rest <= spine.units.Keys
      invariant forall u :: u in resolved <==> u in spine.units && u !in rest && Below(spine.units, u, top)
      invariant forall u :: multiset(resolved)[u] <= 1
      decreases rest
    {
      var unit :| unit in rest;
      assert unit !in resolved;
      var below := spine.IsAtOrBelow(unit, top);
      rest := rest - {unit};
      if below.value {
        resolved := resolved + [unit];
      }
    }
  }

  /** The sorted list of the units a selector denotes, without repeats. */
  ghost predicate DenotesFrom(units: Units, s: Selector, top: Fgrn, r: seq<Fgrn>) {
    At(units, top, s.path) &&
    if s.subtree then
      && Sorted(FgrnLe, r)
      && (forall u :: multiset(r)[u] <= 1)
      && (forall u :: u in r <==> u in units && Rooted(units, u) && Below(units, u, top))
    else r == [top]
  }

  ghost predicate Denotes(units: Units, s: Selector, r: seq<Fgrn>) {
    exists top :: DenotesFrom(units, s, top, r)
  }

  /** Sorted units of one organization stand in ascending order of their ids. */
  lemma IdsAscend(units: Units, root: Fgrn, organization: string, r: seq<Fgrn>)
    requires IsTree(units, root, organization) && Sorted(FgrnLe, r)
    requires (forall u :: u in r ==> u in units) && (forall u :: multiset(r)[u] <= 1)
    ensures forall i, j :: 0 <= i < j < |r| ==> Lt(r[i].id, r[j].id)
  {
    forall i, j | 0 <= i < j < |r|
      ensures Lt(r[i].id, r[j].id)
    {
      assert r[i] in r && r[j] in r;
      assert FgrnLe(r[i], r[j]);
      OnceIsDistinct(r, i, j);
    }
  }

  lemma OnceIsDistinct(r: seq<Fgrn>, i: nat, j: nat)
    requires i < j < |r| && multiset(r)[r[i]] <= 1
    ensures r[i] != r[j]
  {
    var a, b := r[..i + 1], r[i + 1..];
    assert r == a + b && a[i] == r[i] && b[j - i - 1] == r[j];
    assert r[i] in multiset(a) && r[j] in multiset(b);
    assert multiset(r) == multiset(a) + multiset(b);
  }

  /** A node selector resolves to the unit at its position, a subtree selector to the sorted units at or
      below it, whatever the order in which units are visited; it fails exactly when no unit is there. */
  method Resolve(s: Selector, spine: Spine) returns (r: Result<seq<Fgrn>, ResolveError>)
    requires spine.Valid()
    ensures r == Err(WrongOrganization) <==> spine.organization != s.organization
    ensures r == Err(NoSuchUnit) <==> spine.organization == s.organization && forall u :: !At(spine.units, u, s.path)
    ensures r.Ok? ==> Denotes(spine.units, s, r.value)
    ensures r.Ok? ==> forall i, j :: 0 <= i < j < |r.value| ==> Lt(r.value[i].id, r.value[j].id)
  {
    if spine.organization != s.organization {
      return Err(WrongOrganization);
    }
    var top := Descend(spine, s.path);
    if top.None? {
      return Err(NoSuchUnit);
    }
    if !s.subtree {
      assert DenotesFrom(spine.units, s, top.value, [top.value]);
      return Ok([top.value]);
    }
    var resolved := Collect(spine, top.value);
    var sorted := Sort(FgrnLe, resolved);
    FgrnOrder();
    SortSorts(FgrnLe, resolved);
    SameElements(resolved, sorted);
    assert DenotesFrom(spine.units, s, top.value, sorted);
    IdsAscend(spine.units, spine.root, spine.organization, sorted);
    return Ok(sorted);
  }

  /** What a selector denotes does not depend on how it was found. */
  lemma DenotationUnique(units: Units, root: Fgrn, organization: string, s: Selector, a: seq<Fgrn>, b: seq<Fgrn>)
    requires IsTree(units, root, organization) && Denotes(units, s, a) && Denotes(units, s, b)
    ensures a == b
  {
    var t :| DenotesFrom(units, s, t, a);
    var v :| DenotesFrom(units, s, v, b);
    PositionUnique(units, root, organization, t, v);
    if s.subtree {
      SameOnce(a, b);
      StrictFgrns(a);
      SortedUnique(FgrnLe, a, b);
    }
  }

  lemma SameOnce(a: seq<Fgrn>, b: seq<Fgrn>)
    requires (forall u :: multiset(a)[u] <= 1) && (forall u :: multiset(b)[u] <= 1)
    requires forall u :: u in a <==> u in b
    ensures multiset(a) == multiset(b)
  {
    forall u
      ensures multiset(a)[u] == multiset(b)[u]
    {
      assert u in a <==> u in multiset(a);
      assert u in b <==> u in multiset(b);
    }
  }

  lemma StrictFgrns(s: seq<Fgrn>)
    ensures Strict(FgrnLe, s)
  {
    forall a, b | a in s && b in s && FgrnLe(a, b) && FgrnLe(b, a)
      ensures a == b
    {
      if a.organization != b.organization {
        LeAntisymmetric(a.organization, b.organization);
      } else if a.kind == b.kind {
        LeAntisymmetric(a.id, b.id);
      }
    }
  }
}
