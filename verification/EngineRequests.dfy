/** What the Verified Permissions engine is asked about a query, and under which key the answer is cached. */
module EngineRequests {
  import opened Wrappers
  import opened Text
  import opened Names
  import opened CacheKeys

  datatype EntityId = EntityId(entityType: string, id: string)

  /**
   The identifiers of a request and what its inline entities say: the principal's organization and
   groups, and the organization that owns the resource. Groups are entities of one type, known by
   name; their order is not kept.
   */
  datatype Request = Request(principal: EntityId, action: EntityId, resource: Option<EntityId>,
                             principalOrg: string, groups: multiset<string>, owner: Option<string>)

  function Qualified(project: string, entityType: string): string {
    ToCedarIdent(project) + "::" + entityType
  }

  function PrincipalId(project: string, tenant: string, q: Query): EntityId {
    EntityId(Qualified(project, if q.kind.User? then "User" else "Machine"),
             Join(["fgrn", project, tenant, "iam", KindText(q.kind), q.userId], ':'))
  }

  /** The type given for the resource, or the one that its namespace and entity make. */
  function EntityTypeOf(r: Resource): string {
    if r.entityType.Some? then r.entityType.value else CedarEntityType(r.name.namespace, r.name.entity)
  }

  function OwnerOf(r: Resource, tenant: string): string {
    if r.orgSource.OwnId? then r.name.last else tenant
  }

  function BuildRequest(project: string, tenant: string, q: Query): Request {
    Request(PrincipalId(project, tenant, q),
            EntityId(Qualified(project, "Action"), VpActionId(q.action.namespace, q.action.entity, q.action.last)),
            if q.resource.Some? then Some(EntityId(Qualified(project, EntityTypeOf(q.resource.value)), q.resource.value.name.last))
            else None,
            tenant,
            if q.kind.User? then multiset(q.groups) else multiset{},
            if q.resource.Some? then Some(OwnerOf(q.resource.value, tenant)) else None)
  }

  datatype Consultation = Consultation(key: string, request: Request)

  /** A query without tenant is denied before a key is built. */
  function Consult(project: string, q: Query): Option<Consultation> {
    if q.tenant.None? then None
    else Some(Consultation(BuildCacheKey(q), BuildRequest(project, q.tenant.value, q)))
  }

  /** Of two consultations, the keys agree exactly when everything displayed does. */
  lemma ConsultedKeysEqualIff(project: string, a: Query, b: Query)
    requires ValidQuery(a) && ValidQuery(b)
    requires Consult(project, a).Some? && Consult(project, b).Some?
    ensures Consult(project, a).value.key == Consult(project, b).value.key <==> SameButTenant(a, b) && a.tenant == b.tenant
  {
    KeyIdentifiesTenantedQuery(a, b);
  }

  lemma QualifiedInjective(project: string, s: string, t: string)
    ensures Qualified(project, s) == Qualified(project, t) <==> s == t
  {
    var n := |ToCedarIdent(project)| + 2;
    assert Qualified(project, s)[n..] == s && Qualified(project, t)[n..] == t;
  }

  /** Two resources that are displayed alike are given the same type. */
  predicate SameType(r: Resource, s: Resource) {
    || r.entityType == s.entityType
    || (r.entityType.None? && s.entityType == Some(CedarEntityType(r.name.namespace, r.name.entity)))
    || (s.entityType.None? && r.entityType == Some(CedarEntityType(s.name.namespace, s.name.entity)))
  }

  /** ... and the same owner, as the resource's own id is the tenant or both name the owner alike. */
  predicate SameOwner(r: Resource, s: Resource, tenant: string) {
    r.orgSource == s.orgSource || r.name.last == tenant
  }

  lemma ResourcesEqualIff(project: string, tenant: string, r: Resource, s: Resource)
    requires r.name == s.name
    ensures Qualified(project, EntityTypeOf(r)) == Qualified(project, EntityTypeOf(s)) <==> SameType(r, s)
    ensures OwnerOf(r, tenant) == OwnerOf(s, tenant) <==> SameOwner(r, s, tenant)
  {
    QualifiedInjective(project, EntityTypeOf(r), EntityTypeOf(s));
    hide Qualified, CedarEntityType;
  }

  lemma SamePrincipal(project: string, tenant: string, a: Query, b: Query)
    requires a.kind == b.kind && a.userId == b.userId
    ensures PrincipalId(project, tenant, a) == PrincipalId(project, tenant, b)
  {
  }

  lemma RequestsEqualIff(project: string, tenant: string, a: Query, b: Query)
    requires SameButTenant(a, b)
    ensures BuildRequest(project, tenant, a) == BuildRequest(project, tenant, b) <==>
      (a.resource.Some? && b.resource.Some? ==>
         SameType(a.resource.value, b.resource.value) && SameOwner(a.resource.value, b.resource.value, tenant))
  {
    hide Qualified, EntityTypeOf, OwnerOf, SameType, SameOwner, VpActionId, PrincipalId;
    SamePrincipal(project, tenant, a, b);
    if a.resource.Some? {
      ResourcesEqualIff(project, tenant, a.resource.value, b.resource.value);
    }
  }

  /**
   Equal keys stand for equal requests exactly when the resources, displayed alike, are also given the
   same type and the same owner. The key shows neither.
   */
  lemma EqualKeysEqualRequestsIff(project: string, a: Query, b: Query)
    requires ValidQuery(a) && ValidQuery(b)
    requires Consult(project, a).Some? && Consult(project, b).Some?
    requires Consult(project, a).value.key == Consult(project, b).value.key
    ensures Consult(project, a).value.request == Consult(project, b).value.request <==>
      (a.resource.Some? && b.resource.Some? ==>
         && SameType(a.resource.value, b.resource.value)
         && SameOwner(a.resource.value, b.resource.value, a.tenant.value))
  {
    ConsultedKeysEqualIff(project, a, b);
    hide BuildCacheKey, ValidQuery, BuildRequest, SameType, SameOwner;
    RequestsEqualIff(project, a.tenant.value, a, b);
  }

  lemma PrincipalsEqualIff(project: string, t: string, a: Query, u: string, b: Query)
    requires IsSegment(project) && IsSegment(t) && IsSegment(u) && IsSegment(a.userId) && IsSegment(b.userId)
    ensures PrincipalId(project, t, a) == PrincipalId(project, u, b) <==> t == u && a.kind == b.kind && a.userId == b.userId
  {
    var x := ["fgrn", project, t, "iam", KindText(a.kind), a.userId];
    var y := ["fgrn", project, u, "iam", KindText(b.kind), b.userId];
    if PrincipalId(project, t, a) == PrincipalId(project, u, b) {
      SegmentHasNo(project, ':');
      SegmentHasNo(t, ':');
      SegmentHasNo(u, ':');
      SegmentHasNo(a.userId, ':');
      SegmentHasNo(b.userId, ':');
      hide IsSegment, Join, Qualified;
      JoinInjective(x, y, ':');
      assert x[2] == y[2] && x[4] == y[4] && x[5] == y[5];
      assert |"user"| != |"machine"|;
    }
  }

  /** Whom a resource belongs to: the organization it is named after, or the requester's. */
  ghost predicate Owns(r: Resource, tenant: string, owner: string) {
    owner == match r.orgSource case OwnId => r.name.last case RequestTenant => tenant
  }

  /**
   A request says all that a decision may depend on, and no more: the principal's kind, id and tenant;
   the groups of a user, and none of a machine; the action's id; and the type, id and owner of the
   resource, if there is one.
   */
  lemma RequestsEqualExactly(project: string, t: string, a: Query, u: string, b: Query, x: string, y: string)
    requires IsSegment(project) && IsSegment(t) && IsSegment(u) && IsSegment(a.userId) && IsSegment(b.userId)
    requires a.resource.Some? ==> Owns(a.resource.value, t, x)
    requires b.resource.Some? ==> Owns(b.resource.value, u, y)
    ensures BuildRequest(project, t, a) == BuildRequest(project, u, b) <==>
      && t == u && a.kind == b.kind && a.userId == b.userId
      && (a.kind.User? ==> multiset(a.groups) == multiset(b.groups))
      && VpActionId(a.action.namespace, a.action.entity, a.action.last) == VpActionId(b.action.namespace, b.action.entity, b.action.last)
      && a.resource.Some? == b.resource.Some?
      && (a.resource.Some? ==>
            && EntityTypeOf(a.resource.value) == EntityTypeOf(b.resource.value)
            && a.resource.value.name.last == b.resource.value.name.last && x == y)
    ensures a.resource.Some? ==> BuildRequest(project, t, a).owner == Some(x)
    ensures BuildRequest(project, t, a).principalOrg == t
  {
    PrincipalsEqualIff(project, t, a, u, b);
    if a.resource.Some? && b.resource.Some? {
      QualifiedInjective(project, EntityTypeOf(a.resource.value), EntityTypeOf(b.resource.value));
    }
    hide PrincipalId, Qualified, EntityTypeOf, VpActionId, IsSegment;
  }

  /** Whatever the query, as long as its resource is not named like its tenant: naming the owner the
      other way keeps the key and changes the request. */
  lemma OwnerIsNotInTheKey(project: string, q: Query)
    requires ValidQuery(q) && q.tenant.Some? && q.resource.Some? && q.resource.value.name.last != q.tenant.value
    ensures var r := q.resource.value;
            var other := q.(resource := Some(r.(orgSource := if r.orgSource.OwnId? then RequestTenant else OwnId)));
            && ValidQuery(other)
            && Consult(project, q).value.key == Consult(project, other).value.key
            && Consult(project, q).value.request != Consult(project, other).value.request
  {
    var r := q.resource.value;
    var other := q.(resource := Some(r.(orgSource := if r.orgSource.OwnId? then RequestTenant else OwnId)));
    ConsultedKeysEqualIff(project, q, other);
    EqualKeysEqualRequestsIff(project, q, other);
  }
}
