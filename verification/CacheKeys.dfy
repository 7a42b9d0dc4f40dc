/** The string key under which a policy decision is cached. */
module CacheKeys {
  import opened Wrappers
  import opened Text
  import opened Sorting
  import opened Names

  datatype PrincipalKind = User | Machine

  /** An action, or the part of a resource that is displayed: namespace, entity, and action or id. */
  datatype Triple = Triple(namespace: string, entity: string, last: string)

  /** Whose organization owns a resource: the one it names, or the requester's. */
  datatype OrgSource = OwnId | RequestTenant

  datatype Resource = Resource(name: Triple, entityType: Option<string>, orgSource: OrgSource)

  datatype Query = Query(kind: PrincipalKind, userId: string, action: Triple, resource: Option<Resource>,
                         tenant: Option<string>, groups: seq<string>)

  function Displayed(r: Option<Resource>): Option<Triple> {
    if r.Some? then Some(r.value.name) else None
  }

  predicate ValidTriple(t: Triple) {
    IsSegment(t.namespace) && IsSegment(t.entity) && IsSegment(t.last)
  }

  /** Every part of a query is built from validated segments. */
  predicate ValidQuery(q: Query) {
    && IsSegment(q.userId) && ValidTriple(q.action)
    && (q.resource.Some? ==> ValidTriple(q.resource.value.name))
    && (q.tenant.Some? ==> IsSegment(q.tenant.value))
    && (forall i :: 0 <= i < |q.groups| ==> IsSegment(q.groups[i]))
  }

  function KindText(k: PrincipalKind): string {
    if k.User? then "user" else "machine"
  }

  function TripleText(t: Triple): string {
    Join([t.namespace, t.entity, t.last], ':')
  }

  function ResourceText(r: Option<Triple>): string {
    if r.Some? then TripleText(r.value) else "none"
  }

  function TenantText(t: Option<string>): string {
    if t.Some? then t.value else "none"
  }

  function GroupsText(groups: seq<string>): string {
    Join(Sort(Le, groups), ',')
  }

  function Parts(q: Query): seq<string> {
    [KindText(q.kind), q.userId, TripleText(q.action), ResourceText(Displayed(q.resource)), TenantText(q.tenant), GroupsText(q.groups)]
  }

  function BuildCacheKey(q: Query): string {
    Join(Parts(q), '|')
  }

  // ----- The parts do not hold the separators -----

  lemma {:induction false} JoinAvoids(parts: seq<string>, sep: char, c: char)
    requires c != sep && forall i :: 0 <= i < |parts| ==> c !in parts[i]
    ensures c !in Join(parts, sep)
    decreases |parts|
  {
    if |parts| > 1 {
      JoinAvoids(parts[1..], sep, c);
    }
  }

  lemma TripleAvoidsBar(t: Triple)
    requires ValidTriple(t)
    ensures '|' !in TripleText(t)
  {
    SegmentHasNo(t.namespace, '|');
    SegmentHasNo(t.entity, '|');
    SegmentHasNo(t.last, '|');
    JoinAvoids([t.namespace, t.entity, t.last], ':', '|');
  }

  lemma TripleTextInjective(a: Triple, b: Triple)
    requires ValidTriple(a) && ValidTriple(b) && TripleText(a) == TripleText(b)
    ensures a == b
  {
    var x, y := [a.namespace, a.entity, a.last], [b.namespace, b.entity, b.last];
    SegmentHasNo(a.namespace, ':');
    SegmentHasNo(a.entity, ':');
    SegmentHasNo(a.last, ':');
    SegmentHasNo(b.namespace, ':');
    SegmentHasNo(b.entity, ':');
    SegmentHasNo(b.last, ':');
    JoinInjective(x, y, ':');
    assert a.namespace == x[0] == y[0] && a.entity == x[1] == y[1] && a.last == x[2] == y[2];
  }

  lemma TripleIsNotNone(t: Triple)
    ensures TripleText(t) != "none"
  {
    var s := TripleText(t);
    assert [t.namespace, t.entity, t.last][1..] == [t.entity, t.last];
    assert s[|t.namespace|] == ':';
    assert ':' !in "none";
  }

  lemma ResourceTextInjective(a: Option<Triple>, b: Option<Triple>)
    requires a.Some? ==> ValidTriple(a.value)
    requires b.Some? ==> ValidTriple(b.value)
    requires ResourceText(a) == ResourceText(b)
    ensures a == b
  {
    if a.Some? {
      TripleIsNotNone(a.value);
    }
    if b.Some? {
      TripleIsNotNone(b.value);
    }
    if a.Some? && b.Some? {
      TripleTextInjective(a.value, b.value);
    }
  }

  // ----- Groups -----

  lemma StringOrder()
    ensures TotalPreorder(Le)
  {
    forall a, b
      ensures Le(a, b) || Le(b, a)
    {
      LeTotal(a, b);
    }
    forall a, b, c | Le(a, b) && Le(b, c)
      ensures Le(a, c)
    {
      LeTransitive(a, b, c);
    }
  }

  lemma StringsStrict(s: seq<string>)
    ensures Strict(Le, s)
  {
    forall a, b | a in s && b in s && Le(a, b) && Le(b, a)
      ensures a == b
    {
      LeAntisymmetric(a, b);
    }
  }

  lemma SortedGroups(groups: seq<string>)
    requires forall i :: 0 <= i < |groups| ==> IsSegment(groups[i])
    ensures forall p :: p in Sort(Le, groups) ==> IsSegment(p) && ',' !in p && '|' !in p
  {
    SameElements(groups, Sort(Le, groups));
    forall p | p in Sort(Le, groups)
      ensures IsSegment(p) && ',' !in p && '|' !in p
    {
      assert p in groups;
      SegmentHasNo(p, ',');
      SegmentHasNo(p, '|');
    }
  }

  lemma EmptyGroupsText(groups: seq<string>)
    requires forall i :: 0 <= i < |groups| ==> IsSegment(groups[i])
    ensures GroupsText(groups) == "" <==> groups == []
  {
    var s := Sort(Le, groups);
    assert |multiset(s)| == |s| && |multiset(groups)| == |groups|;
    SortedGroups(groups);
    if s != [] {
      assert s[0] in s && IsSegment(s[0]);
    }
  }

  /** The groups part identifies the groups up to order. */
  lemma GroupsTextIff(a: seq<string>, b: seq<string>)
    requires forall i :: 0 <= i < |a| ==> IsSegment(a[i])
    requires forall i :: 0 <= i < |b| ==> IsSegment(b[i])
    ensures GroupsText(a) == GroupsText(b) <==> multiset(a) == multiset(b)
  {
    StringOrder();
    if multiset(a) == multiset(b) {
      StringsStrict(a);
      SortForgetsOrder(Le, a, b);
    }
    if GroupsText(a) == GroupsText(b) {
      EmptyGroupsText(a);
      EmptyGroupsText(b);
      SortedGroups(a);
      SortedGroups(b);
      if a != [] {
        assert |multiset(Sort(Le, a))| == |multiset(a)| && |multiset(Sort(Le, b))| == |multiset(b)|;
        JoinInjective(Sort(Le, a), Sort(Le, b), ',');
      }
    }
  }

  // ----- The whole key -----

  lemma PartsAvoidBar(q: Query)
    requires ValidQuery(q)
    ensures forall p :: p in Parts(q) ==> '|' !in p
  {
    hide IsSegment, Join;
    SegmentHasNo(q.userId, '|');
    TripleAvoidsBar(q.action);
    if q.resource.Some? {
      TripleAvoidsBar(q.resource.value.name);
    }
    if q.tenant.Some? {
      SegmentHasNo(q.tenant.value, '|');
    }
    SortedGroups(q.groups);
    JoinAvoids(Sort(Le, q.groups), ',', '|');
    assert '|' !in "user" && '|' !in "machine" && '|' !in "none";
  }

  /** The same question as far as it is displayed, leaving out the tenant. */
  ghost predicate SameButTenant(a: Query, b: Query) {
    && a.kind == b.kind && a.userId == b.userId && a.action == b.action
    && Displayed(a.resource) == Displayed(b.resource)
    && multiset(a.groups) == multiset(b.groups)
  }

  /** Keys are equal exactly when the queries agree on everything shown, groups up to order. */
  lemma KeysEqualIff(a: Query, b: Query)
    requires ValidQuery(a) && ValidQuery(b)
    ensures BuildCacheKey(a) == BuildCacheKey(b) <==> SameButTenant(a, b) && TenantText(a.tenant) == TenantText(b.tenant)
  {
    GroupsTextIff(a.groups, b.groups);
    hide IsSegment, Join, GroupsText;
    if BuildCacheKey(a) == BuildCacheKey(b) {
      PartsAvoidBar(a);
      PartsAvoidBar(b);
      JoinInjective(Parts(a), Parts(b), '|');
      var x, y := Parts(a), Parts(b);
      assert x[0] == y[0] && x[1] == y[1] && x[2] == y[2] && x[3] == y[3] && x[4] == y[4] && x[5] == y[5];
      assert |"user"| != |"machine"|;
      TripleTextInjective(a.action, b.action);
      ResourceTextInjective(Displayed(a.resource), Displayed(b.resource));
    }
  }

  /** With tenants present, as the engine demands before it builds a key, keys identify what queries display. */
  lemma KeyIdentifiesTenantedQuery(a: Query, b: Query)
    requires ValidQuery(a) && ValidQuery(b) && a.tenant.Some? && b.tenant.Some?
    ensures BuildCacheKey(a) == BuildCacheKey(b) <==> SameButTenant(a, b) && a.tenant == b.tenant
  {
    KeysEqualIff(a, b);
  }

  /** Of queries that agree on everything else, exactly those collide of which one has no tenant and
      the other a tenant named none. */
  lemma KeyCollidesIff(a: Query, b: Query)
    requires ValidQuery(a) && ValidQuery(b) && SameButTenant(a, b) && a.tenant != b.tenant
    ensures BuildCacheKey(a) == BuildCacheKey(b) <==> {a.tenant, b.tenant} == {None, Some("none")}
  {
    KeysEqualIff(a, b);
    if {a.tenant, b.tenant} == {None, Some("none")} {
      assert a.tenant in {None, Some("none")} && b.tenant in {None, Some("none")};
    }
  }

  lemma NoneTenantCollides()
    ensures IsSegment("none")
    ensures forall q :: ValidQuery(q) ==> BuildCacheKey(q.(tenant := None)) == BuildCacheKey(q.(tenant := Some("none")))
  {
    forall q | ValidQuery(q)
      ensures BuildCacheKey(q.(tenant := None)) == BuildCacheKey(q.(tenant := Some("none")))
    {
      assert Parts(q.(tenant := None)) == Parts(q.(tenant := Some("none")));
    }
  }
}
