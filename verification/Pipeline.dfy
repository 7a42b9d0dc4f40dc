/** The request pipeline: who is asking, for which organization, and may they. */
module Pipeline {
  import opened Wrappers
  import opened Names
  import opened Payloads
  import opened SignedRequests
  import opened CacheKeys
  import EngineRequests

  const HEALTH_PATH := "/.well-known/forgeguard/health"
  const FLAGS_DEBUG_PATH := "/.well-known/forgeguard/flags"

  datatype Identity = Identity(userId: string, tenant: Option<string>, groups: seq<string>, expiry: Option<int>,
                               resolver: string, extra: Option<string>, kind: PrincipalKind)

  datatype Route = Route(action: Triple, resource: Option<Resource>, params: map<string, string>, gate: Option<string>)

  datatype PublicMatch = NotPublic | Anonymous | Opportunistic

  datatype FlagValue = Switch(on: bool) | Variant(text: string) | Number(value: real)

  type Flags = map<string, FlagValue>

  datatype PolicyQuery = PolicyQuery(query: Query, ip: Option<string>, extra: Option<string>)

  datatype Evaluated = Evaluated(denied: bool, record: Option<string>)

  datatype DebugError = BadQuery(message: string) | NotSerialized

  datatype DefaultPolicy = Deny | Passthrough

  /** The configuration and what the components behind it answer. */
  datatype Proxy = Proxy(
    health: string,
    debugMode: bool,
    debug: string -> Result<string, DebugError>,
    publicMatch: (string, string) -> PublicMatch,
    resolve: Credential -> Option<Identity>,
    memberships: Option<(string, string) -> Result<Option<seq<string>>, string>>,
    flags: (Option<string>, string, seq<string>) -> Flags,
    route: (string, string) -> Option<Route>,
    engine: PolicyQuery -> Option<Evaluated>,
    defaultPolicy: DefaultPolicy)

  datatype Request = Request(httpMethod: string, path: string, query: string, headers: seq<Header>, ip: Option<string>)

  datatype Mode = Enforce | Observe

  datatype Effect = NotEvaluated | Allowed | WouldAllow | WouldDeny

  datatype Body = Message(error: string) | ForbiddenAction(action: Triple) | NoMatchingRoute

  datatype Outcome =
    | Health(body: string)
    | Debug(json: string)
    | Reject(status: nat, reason: Body, policyDenied: bool, record: Option<string>)
    | Forward(identity: Option<Identity>, flags: Option<Flags>, route: Option<Route>, record: Option<string>, effect: Effect)

  function RejectWith(status: nat, error: string): Outcome {
    Reject(status, Message(error), false, None)
  }

  function DebugResponse(proxy: Proxy, request: Request): Outcome {
    match proxy.debug(request.query)
    case Ok(json) => Debug(json)
    case Err(BadQuery(message)) => RejectWith(400, message)
    case Err(NotSerialized) => RejectWith(500, "Internal Server Error")
  }

  function BuildQuery(identity: Identity, route: Route, ip: Option<string>): PolicyQuery {
    PolicyQuery(Query(identity.kind, identity.userId, route.action, route.resource, identity.tenant, identity.groups),
                ip, identity.extra)
  }

  predicate Enabled(flags: Flags, name: string) {
    name in flags && flags[name] == Switch(true)
  }

  function FlagsOf(proxy: Proxy, identity: Identity): Flags {
    proxy.flags(identity.tenant, identity.userId, identity.groups)
  }

  predicate IsPublic(proxy: Proxy, request: Request) {
    !proxy.publicMatch(request.httpMethod, request.path).NotPublic?
  }

  // ----- What an outcome must satisfy -----

  /** The identity the credential itself proves; an anonymous route does not look at credentials. */
  function Claimed(proxy: Proxy, request: Request): Option<Identity> {
    var credential := ExtractCredential(request.headers);
    if proxy.publicMatch(request.httpMethod, request.path).Anonymous? || credential.None? then None
    else proxy.resolve(credential.value)
  }

  /** The organization the request names, when it has to be looked up. */
  function Asked(proxy: Proxy, request: Request): Option<string> {
    var claimed := Claimed(proxy, request);
    if proxy.memberships.Some? && claimed.Some? && claimed.value.tenant.None? then FindHeader(request.headers, X_FG_ORG_ID)
    else None
  }

  /** The identity is the claimed one, in the tenant it already had or in the organization that was
      asked for and confirmed its membership, with the groups of that membership. */
  ghost predicate Vouched(proxy: Proxy, request: Request, identity: Option<Identity>) {
    var claimed := Claimed(proxy, request);
    var org := Asked(proxy, request);
    match org
    case None => identity == claimed
    case Some(o) =>
      && IsSegment(o) && claimed.Some? && identity.Some? && proxy.memberships.Some?
      && var member := proxy.memberships.value(claimed.value.userId, o);
      && member.Ok? && member.value.Some?
      && identity.value == claimed.value.(tenant := Some(o), groups := member.value.value)
  }

  /** A request that is not public has an identity and, with a membership resolver, a tenant. */
  ghost predicate Identified(proxy: Proxy, request: Request, identity: Option<Identity>) {
    IsPublic(proxy, request) || (identity.Some? && (proxy.memberships.Some? ==> identity.value.tenant.Some?))
  }

  /** The engine's answer; an engine that fails denies, without a record. */
  function Verdict(proxy: Proxy, request: Request, identity: Identity, route: Route): Evaluated {
    var answer := proxy.engine(BuildQuery(identity, route, request.ip));
    if answer.Some? then answer.value else Evaluated(true, None)
  }

  /** What a forwarded request carries. */
  ghost predicate Justified(proxy: Proxy, request: Request, mode: Mode, o: Outcome)
    requires o.Forward?
  {
    && Vouched(proxy, request, o.identity)
    && Identified(proxy, request, o.identity)
    && o.route == proxy.route(request.httpMethod, request.path)
    && o.flags == (if o.identity.Some? then Some(FlagsOf(proxy, o.identity.value)) else None)
    && (o.route.None? ==> IsPublic(proxy, request) || proxy.defaultPolicy.Passthrough?)
    && (o.route.Some? && o.route.value.gate.Some? ==> o.flags.Some? && Enabled(o.flags.value, o.route.value.gate.value))
    && (if o.route.None? || o.identity.None? then o.effect.NotEvaluated? && o.record.None?
        else
          var verdict := Verdict(proxy, request, o.identity.value, o.route.value);
          && o.record == verdict.record
          && o.effect == (if mode.Enforce? then Allowed else if verdict.denied then WouldDeny else WouldAllow)
          && (mode.Enforce? ==> !verdict.denied))
  }

  /** Why a request is turned down by policy. */
  ghost predicate Denied(proxy: Proxy, request: Request, o: Outcome)
    requires o.Reject?
  {
    exists id: Identity, route: Route :: DeniedFor(proxy, request, o, id, route)
  }

  ghost predicate DeniedFor(proxy: Proxy, request: Request, o: Outcome, id: Identity, route: Route)
    requires o.Reject?
  {
    && Vouched(proxy, request, Some(id)) && Identified(proxy, request, Some(id))
    && proxy.route(request.httpMethod, request.path) == Some(route)
    && Verdict(proxy, request, id, route).denied
    && o == Reject(403, ForbiddenAction(route.action), true, Verdict(proxy, request, id, route).record)
  }

  // ----- The outcome as a function -----

  /** Why a request is turned away before it is routed, if it is. */
  function Refusal(proxy: Proxy, request: Request): Option<Outcome> {
    var claimed := Claimed(proxy, request);
    if claimed.None? then
      if IsPublic(proxy, request) then None else Some(RejectWith(401, "Unauthorized"))
    else if proxy.memberships.None? || claimed.value.tenant.Some? then None
    else
      match FindHeader(request.headers, X_FG_ORG_ID)
      case None => if IsPublic(proxy, request) then None else Some(RejectWith(400, "Missing X-Fg-Org-Id header"))
      case Some(org) =>
        if !IsSegment(org) then Some(RejectWith(400, "Invalid X-Fg-Org-Id header"))
        else
          match proxy.memberships.value(claimed.value.userId, org)
          case Err(_) => Some(RejectWith(500, "Internal Server Error"))
          case Ok(None) => Some(RejectWith(403, "Not a member of this organization"))
          case Ok(Some(_)) => None
  }

  lemma RefusalIsPlain(proxy: Proxy, request: Request)
    ensures var r := Refusal(proxy, request); r.Some? ==> r.value.Reject? && !r.value.policyDenied
  {
    hide Claimed, IsPublic, FindHeader, IsSegment;
  }

  /** The identity of a request that is not turned away. */
  function Admitted(proxy: Proxy, request: Request): (identity: Option<Identity>)
    requires Refusal(proxy, request).None?
    ensures Vouched(proxy, request, identity) && Identified(proxy, request, identity)
  {
    var claimed := Claimed(proxy, request);
    match Asked(proxy, request)
    case None => claimed
    case Some(org) =>
      Some(claimed.value.(tenant := Some(org), groups := proxy.memberships.value(claimed.value.userId, org).value.value))
  }

  predicate GateOpen(proxy: Proxy, identity: Option<Identity>, route: Route) {
    route.gate.Some? ==> identity.Some? && Enabled(FlagsOf(proxy, identity.value), route.gate.value)
  }

  /** The decision on an admitted request. */
  function Decide(proxy: Proxy, request: Request, identity: Option<Identity>, mode: Mode): Outcome {
    var flags := if identity.Some? then Some(FlagsOf(proxy, identity.value)) else None;
    match proxy.route(request.httpMethod, request.path)
    case None =>
      if IsPublic(proxy, request) || proxy.defaultPolicy.Passthrough? then Forward(identity, flags, None, None, NotEvaluated)
      else Reject(403, NoMatchingRoute, false, None)
    case Some(route) =>
      if !GateOpen(proxy, identity, route) then RejectWith(404, "Not Found")
      else if identity.None? then Forward(None, None, Some(route), None, NotEvaluated)
      else
        var verdict := Verdict(proxy, request, identity.value, route);
        match mode
        case Enforce =>
          if verdict.denied then Reject(403, ForbiddenAction(route.action), true, verdict.record)
          else Forward(identity, flags, Some(route), verdict.record, Allowed)
        case Observe =>
          Forward(identity, flags, Some(route), verdict.record, if verdict.denied then WouldDeny else WouldAllow)
  }

  function Evaluate(proxy: Proxy, request: Request, mode: Mode): Outcome {
    if request.path == HEALTH_PATH then Health(proxy.health)
    else if proxy.debugMode && request.path == FLAGS_DEBUG_PATH then DebugResponse(proxy, request)
    else if Refusal(proxy, request).Some? then Refusal(proxy, request).value
    else Decide(proxy, request, Admitted(proxy, request), mode)
  }

  lemma DecideIsJustified(proxy: Proxy, request: Request, identity: Option<Identity>, mode: Mode)
    requires Vouched(proxy, request, identity) && Identified(proxy, request, identity)
    ensures var o := Decide(proxy, request, identity, mode);
            && (o.Forward? || o.Reject?)
            && (o.Forward? ==> Justified(proxy, request, mode, o))
            && (o.Reject? && o.policyDenied ==> mode.Enforce? && Denied(proxy, request, o))
  {
    hide Vouched, Identified, IsPublic, Verdict, FlagsOf, Enabled;
    var o := Decide(proxy, request, identity, mode);
    if o.Reject? && o.policyDenied {
      assert DeniedFor(proxy, request, o, identity.value, proxy.route(request.httpMethod, request.path).value);
    }
  }

  /** A forwarded request carries a vouched identity and everything that identity entails; one that is
      denied by policy was identified, routed and denied by the engine. */
  lemma EvaluateIsJustified(proxy: Proxy, request: Request, mode: Mode)
    ensures var o := Evaluate(proxy, request, mode);
            && (o.Health? <==> request.path == HEALTH_PATH)
            && (o.Debug? ==> proxy.debugMode && request.path == FLAGS_DEBUG_PATH)
            && (o.Forward? ==> Justified(proxy, request, mode, o))
            && (o.Reject? && o.policyDenied ==> mode.Enforce? && Denied(proxy, request, o))
  {
    RefusalIsPlain(proxy, request);
    hide Decide, Justified, Denied, Claimed, Asked, IsPublic;
    if Refusal(proxy, request).None? {
      var identity := Admitted(proxy, request);
      DecideIsJustified(proxy, request, identity, mode);
    }
    hide Refusal, Admitted, Vouched, Identified;
  }

  // ----- The two modes -----

  /** What enforcement makes of an observed outcome. */
  function Enforced(o: Outcome): Outcome {
    if o.Forward? && o.effect.WouldAllow? then o.(effect := Allowed)
    else if o.Forward? && o.effect.WouldDeny? && o.route.Some? then
      Reject(403, ForbiddenAction(o.route.value.action), true, o.record)
    else o
  }

  lemma DecideInModes(proxy: Proxy, request: Request, identity: Option<Identity>)
    ensures var observed := Decide(proxy, request, identity, Observe);
            var enforced := Decide(proxy, request, identity, Enforce);
            && enforced == Enforced(observed)
            && ((enforced.Reject? && enforced.policyDenied) <==> (observed.Forward? && observed.effect.WouldDeny?))
            && !(observed.Reject? && observed.policyDenied)
  {
    hide IsPublic, FlagsOf, GateOpen, Verdict;
  }

  /** Enforcing is observing with the recorded verdict carried out. The two outcomes differ in nothing
      else, and enforcement denies by policy exactly where observation reports that it would. */
  lemma EnforceIsObserveCarriedOut(proxy: Proxy, request: Request)
    ensures Evaluate(proxy, request, Enforce) == Enforced(Evaluate(proxy, request, Observe))
    ensures var observed := Evaluate(proxy, request, Observe);
            var enforced := Evaluate(proxy, request, Enforce);
            (enforced.Reject? && enforced.policyDenied) <==> (observed.Forward? && observed.effect.WouldDeny?)
    ensures var observed := Evaluate(proxy, request, Observe); !(observed.Reject? && observed.policyDenied)
  {
    RefusalIsPlain(proxy, request);
    hide Decide, Admitted, Claimed, IsPublic, Vouched, Identified, Asked;
    if Refusal(proxy, request).None? {
      DecideInModes(proxy, request, Admitted(proxy, request));
    }
    hide Refusal;
  }

  // ----- Every outcome, in terms of what the components answer -----

  /** What the engine answers about an identified request on a route. */
  ghost predicate Answers(proxy: Proxy, request: Request, id: Identity, route: Route, answer: Option<Evaluated>) {
    answer == proxy.engine(PolicyQuery(Query(id.kind, id.userId, route.action, route.resource, id.tenant, id.groups),
                                       request.ip, id.extra))
  }

  /**
   The engine decides. A request that is forwarded with an identity on a route was put to it: under
   enforcement it was allowed, under observation the outcome says whether it was. An engine that fails
   counts as denying and leaves no record.
   */
  lemma EngineDecides(proxy: Proxy, request: Request, mode: Mode, answer: Option<Evaluated>)
    requires var o := Evaluate(proxy, request, mode);
             && o.Forward? && o.identity.Some? && o.route.Some?
             && Answers(proxy, request, o.identity.value, o.route.value, answer)
    ensures var o := Evaluate(proxy, request, mode);
            && (mode.Enforce? ==> o.effect == Allowed && answer.Some? && !answer.value.denied && o.record == answer.value.record)
            && (mode.Observe? && answer.None? ==> o.effect == WouldDeny && o.record == None)
            && (mode.Observe? && answer.Some? ==>
                  o.effect == (if answer.value.denied then WouldDeny else WouldAllow) && o.record == answer.value.record)
  {
    EvaluateIsJustified(proxy, request, mode);
    hide Evaluate, Vouched, Identified, FlagsOf, Enabled;
  }

  /** Under enforcement a request is denied by policy exactly when it would be forwarded under observation
      with an identity on a route, and the engine denies or fails. */
  lemma EngineDenies(proxy: Proxy, request: Request)
    ensures var o, seen := Evaluate(proxy, request, Enforce), Evaluate(proxy, request, Observe);
            (o.Reject? && o.policyDenied) <==>
              && seen.Forward? && seen.identity.Some? && seen.route.Some?
              && exists answer :: Answers(proxy, request, seen.identity.value, seen.route.value, answer) &&
                                  (answer.None? || answer.value.denied)
    ensures var o, seen := Evaluate(proxy, request, Enforce), Evaluate(proxy, request, Observe);
            o.Reject? && o.policyDenied ==>
              o.status == 403 && seen.Forward? && seen.route.Some? && o.reason == ForbiddenAction(seen.route.value.action)
  {
    EnforceIsObserveCarriedOut(proxy, request);
    EvaluateIsJustified(proxy, request, Observe);
    var seen := Evaluate(proxy, request, Observe);
    hide Evaluate, Vouched, Identified, FlagsOf, Enabled;
    if seen.Forward? && seen.identity.Some? && seen.route.Some? {
      var id, route := seen.identity.value, seen.route.value;
      var answer := proxy.engine(BuildQuery(id, route, request.ip));
      assert Answers(proxy, request, id, route, answer);
    }
  }

  /** Neither the health path nor, in debug mode, the debug path. */
  predicate Ordinary(proxy: Proxy, request: Request) {
    request.path != "/.well-known/forgeguard/health" &&
    !(proxy.debugMode && request.path == "/.well-known/forgeguard/flags")
  }

  /** The two paths of the proxy's own. */
  lemma OwnPaths(proxy: Proxy, request: Request, mode: Mode)
    requires !Ordinary(proxy, request)
    ensures var o := Evaluate(proxy, request, mode);
            if request.path == "/.well-known/forgeguard/health" then o == Health(proxy.health)
            else
              match proxy.debug(request.query)
              case Ok(json) => o == Debug(json)
              case Err(BadQuery(message)) => o == Reject(400, Message(message), false, None)
              case Err(NotSerialized) => o == Reject(500, Message("Internal Server Error"), false, None)
  {
  }

  /** The identity the credential proves, if the route looks at credentials and it proves one. */
  ghost predicate Proves(proxy: Proxy, request: Request, id: Option<Identity>) {
    var credential := ExtractCredential(request.headers);
    if proxy.publicMatch(request.httpMethod, request.path) == Anonymous || credential.None? then id.None?
    else id == proxy.resolve(credential.value)
  }

  /** The identity has no tenant yet and has to find one. */
  predicate NeedsOrg(proxy: Proxy, id: Option<Identity>) {
    proxy.memberships.Some? && id.Some? && id.value.tenant.None?
  }

  /**
   Which requests are turned away before routing, and with what answer: those that prove no identity
   where one is required; and, of identities that still need an organization, those that name none
   where a credential is required, name an invalid one, name one that cannot be looked up, or name one
   they are not a member of. A member is never turned away.
   */
  lemma RefusedIff(proxy: Proxy, request: Request, id: Option<Identity>)
    requires Proves(proxy, request, id)
    ensures var r := Refusal(proxy, request);
            var required := proxy.publicMatch(request.httpMethod, request.path) == NotPublic;
            var header := FindHeader(request.headers, "x-fg-org-id");
            && (r == Some(Reject(401, Message("Unauthorized"), false, None)) <==> required && id.None?)
            && (r == Some(Reject(400, Message("Missing X-Fg-Org-Id header"), false, None)) <==>
                  NeedsOrg(proxy, id) && required && header.None?)
            && (r == Some(Reject(400, Message("Invalid X-Fg-Org-Id header"), false, None)) <==>
                  NeedsOrg(proxy, id) && header.Some? && !IsSegment(header.value))
            && (NeedsOrg(proxy, id) && header.Some? && IsSegment(header.value) ==>
                  match proxy.memberships.value(id.value.userId, header.value)
                  case Err(_) => r == Some(Reject(500, Message("Internal Server Error"), false, None))
                  case Ok(None) => r == Some(Reject(403, Message("Not a member of this organization"), false, None))
                  case Ok(Some(_)) => r.None?)
            && (!NeedsOrg(proxy, id) && (id.Some? || !required) ==> r.None?)
            && (NeedsOrg(proxy, id) && header.None? && !required ==> r.None?)
  {
    hide ExtractCredential, FindHeader, IsSegment;
    assert id == Claimed(proxy, request);
    MessagesApart();
  }

  lemma MessagesApart()
    ensures "Missing X-Fg-Org-Id header" != "Invalid X-Fg-Org-Id header"
  {
    assert "Missing X-Fg-Org-Id header"[0] == 'M' && "Invalid X-Fg-Org-Id header"[0] == 'I';
  }

  /** What happens to a request that is not turned away, by its route and its flags. */
  lemma RoutedIff(proxy: Proxy, request: Request, mode: Mode)
    requires Ordinary(proxy, request) && Refusal(proxy, request).None?
    ensures var o, id, route := Evaluate(proxy, request, mode), Admitted(proxy, request), proxy.route(request.httpMethod, request.path);
            var flags := if id.Some? then Some(proxy.flags(id.value.tenant, id.value.userId, id.value.groups)) else None;
            if route.None? then
              if proxy.publicMatch(request.httpMethod, request.path) == NotPublic && proxy.defaultPolicy == Deny
              then o == Reject(403, NoMatchingRoute, false, None)
              else o == Forward(id, flags, None, None, NotEvaluated)
            else if route.value.gate.Some? &&
                    !(flags.Some? && route.value.gate.value in flags.value && flags.value[route.value.gate.value] == Switch(true))
            then o == Reject(404, Message("Not Found"), false, None)
            else if id.None? then o == Forward(None, None, route, None, NotEvaluated)
            else (o.Forward? && o.identity == id && o.flags == flags && o.route == route) || (o.Reject? && o.policyDenied)
  {
    hide Refusal, Admitted, Verdict, Vouched, Identified;
  }

  // ----- The queries that reach the engine -----

  ghost predicate ValidIdentity(id: Identity) {
    && IsSegment(id.userId) && (id.tenant.Some? ==> IsSegment(id.tenant.value))
    && forall i :: 0 <= i < |id.groups| ==> IsSegment(id.groups[i])
  }

  /** Resolvers build identities, memberships and routes from validated names only. */
  ghost predicate ValidProxy(proxy: Proxy) {
    && (forall c :: proxy.resolve(c).Some? ==> ValidIdentity(proxy.resolve(c).value))
    && (proxy.memberships.Some? ==> forall u, o :: ValidMembership(proxy.memberships.value(u, o)))
    && (forall m, p :: proxy.route(m, p).Some? ==> ValidRoute(proxy.route(m, p).value))
  }

  ghost predicate ValidMembership(m: Result<Option<seq<string>>, string>) {
    m.Ok? && m.value.Some? ==> forall i :: 0 <= i < |m.value.value| ==> IsSegment(m.value.value[i])
  }

  ghost predicate ValidRoute(route: Route) {
    ValidTriple(route.action) && (route.resource.Some? ==> ValidTriple(route.resource.value.name))
  }

  /** The question put to the engine about a request, if one is. */
  function Question(proxy: Proxy, request: Request): Option<PolicyQuery> {
    var o := Evaluate(proxy, request, Observe);
    if o.Forward? && !o.effect.NotEvaluated? && o.identity.Some? && o.route.Some?
    then Some(BuildQuery(o.identity.value, o.route.value, request.ip))
    else None
  }

  lemma QuestionIsTenanted(proxy: Proxy, request: Request)
    requires ValidProxy(proxy) && Question(proxy, request).Some?
    ensures ValidQuery(Question(proxy, request).value.query)
    ensures !IsPublic(proxy, request) && proxy.memberships.Some? ==> Question(proxy, request).value.query.tenant.Some?
  {
    var identity := Admitted(proxy, request);
    var claimed := Claimed(proxy, request);
    hide ExtractCredential, FindHeader, IsSegment, Verdict, FlagsOf, Enabled;
    assert Vouched(proxy, request, identity);
    assert claimed.Some? && ValidIdentity(claimed.value);
    var org := Asked(proxy, request);
    if org.Some? {
      assert ValidMembership(proxy.memberships.value(claimed.value.userId, org.value));
    }
    assert ValidIdentity(identity.value);
  }

  /**
   An engine refuses a question exactly when it has no tenant. Of any two others, through any proxies,
   the cache keys agree exactly when principal, action, displayed resource, tenant and groups do; if the
   routes then give the resource in full alike, the engine is asked for the same.
   */
  lemma QuestionsShareKeyIff(project: string, p: Proxy, a: Request, q: Proxy, b: Request)
    requires ValidProxy(p) && ValidProxy(q) && Question(p, a).Some? && Question(q, b).Some?
    ensures var x, y := Question(p, a).value.query, Question(q, b).value.query;
            var s, t := EngineRequests.Consult(project, x), EngineRequests.Consult(project, y);
            && (s.None? <==> x.tenant.None?)
            && (s.Some? && t.Some? ==>
                  && (s.value.key == t.value.key <==> SameButTenant(x, y) && x.tenant == y.tenant)
                  && (s.value.key == t.value.key && x.resource == y.resource ==> s.value.request == t.value.request))
  {
    QuestionIsTenanted(p, a);
    QuestionIsTenanted(q, b);
    hide Question, ValidQuery, BuildCacheKey, EngineRequests.BuildRequest;
    var x, y := Question(p, a).value.query, Question(q, b).value.query;
    if EngineRequests.Consult(project, x).Some? && EngineRequests.Consult(project, y).Some? {
      EngineRequests.ConsultedKeysEqualIff(project, x, y);
      if EngineRequests.Consult(project, x).value.key == EngineRequests.Consult(project, y).value.key {
        EngineRequests.EqualKeysEqualRequestsIff(project, x, y);
      }
    }
  }

  // ----- The pipeline -----

  method EvaluatePipeline(proxy: Proxy, request: Request, mode: Mode) returns (o: Outcome)
    ensures o.Health? <==> request.path == HEALTH_PATH
    ensures o.Debug? ==> proxy.debugMode && request.path == FLAGS_DEBUG_PATH
    ensures o.Forward? ==> Justified(proxy, request, mode, o)
    ensures o.Reject? && o.policyDenied ==> mode.Enforce? && Denied(proxy, request, o)
    ensures o == Evaluate(proxy, request, mode)
  {
    EvaluateIsJustified(proxy, request, mode);
    hide Justified, Denied, Vouched, Identified, FindHeader, ExtractCredential, IsSegment, Enabled, FlagsOf;
    if request.path == HEALTH_PATH {
      return Health(proxy.health);
    }
    if proxy.debugMode && request.path == FLAGS_DEBUG_PATH {
      return DebugResponse(proxy, request);
    }

    var publicMatch := proxy.publicMatch(request.httpMethod, request.path);
    var requireCredential := publicMatch.NotPublic?;
    var tryCredential := publicMatch.NotPublic? || publicMatch.Opportunistic?;

    var identity: Option<Identity> := None;
    if tryCredential {
      var credential := ExtractCredential(request.headers);
      if credential.Some? {
        var resolved := proxy.resolve(credential.value);
        if resolved.Some? {
          identity := resolved;
        } else if requireCredential {
          return RejectWith(401, "Unauthorized");
        }
      } else if requireCredential {
        return RejectWith(401, "Unauthorized");
      }
    }
    assert identity == Claimed(proxy, request);

    if proxy.memberships.Some? && identity.Some? && identity.value.tenant.None? {
      var orgHeader := FindHeader(request.headers, X_FG_ORG_ID);
      if orgHeader.None? {
        if requireCredential {
          return RejectWith(400, "Missing X-Fg-Org-Id header");
        }
      } else {
        if !IsSegment(orgHeader.value) {
          return RejectWith(400, "Invalid X-Fg-Org-Id header");
        }
        var member := proxy.memberships.value(identity.value.userId, orgHeader.value);
        if member.Err? {
          return RejectWith(500, "Internal Server Error");
        }
        if member.value.None? {
          return RejectWith(403, "Not a member of this organization");
        }
        identity := Some(identity.value.(tenant := orgHeader, groups := member.value.value));
      }
    }
    assert Refusal(proxy, request).None? && identity == Admitted(proxy, request);
    hide Refusal, Admitted, Claimed, Asked;

    var flags := if identity.Some? then Some(FlagsOf(proxy, identity.value)) else None;
    var matched := proxy.route(request.httpMethod, request.path);
    if matched.Some? {
      var gate := matched.value.gate;
      if gate.Some? {
        var gateEnabled := flags.Some? && Enabled(flags.value, gate.value);
        if !gateEnabled {
          return RejectWith(404, "Not Found");
        }
      }
      var record: Option<string> := None;
      var effect := NotEvaluated;
      if identity.Some? {
        var allowed := false;
        var answer := proxy.engine(BuildQuery(identity.value, matched.value, request.ip));
        if answer.Some? {
          allowed := !answer.value.denied;
          record := answer.value.record;
        }
        match mode {
          case Enforce =>
            if !allowed {
              return Reject(403, ForbiddenAction(matched.value.action), true, record);
            }
            effect := Allowed;
          case Observe =>
            effect := if allowed then WouldAllow else WouldDeny;
        }
      }
      return Forward(identity, flags, matched, record, effect);
    } else if publicMatch != NotPublic {
      return Forward(identity, flags, None, None, NotEvaluated);
    } else {
      match proxy.defaultPolicy {
        case Deny => return Reject(403, NoMatchingRoute, false, None);
        case Passthrough => return Forward(identity, flags, None, None, NotEvaluated);
      }
    }
  }
}
