/** Injecting signed identity headers on one side and extracting the credential on the other. */
module SignedRequests {
  import opened Wrappers
  import opened Text
  import opened Payloads

  const X_FG_PREFIX := "x-fg-"
  const X_FG_USER_ID := "x-fg-user-id"
  const X_FG_TENANT_ID := "x-fg-tenant-id"
  const X_FG_GROUPS := "x-fg-groups"
  const X_FG_AUTH_PROVIDER := "x-fg-auth-provider"
  const X_FG_PRINCIPAL := "x-fg-principal"
  const X_FG_FEATURES := "x-fg-features"
  const X_FG_CLIENT_IP := "x-fg-client-ip"
  const X_FG_ORG_ID := "x-fg-org-id"
  const X_FG_TRACE_ID := "x-fg-trace-id"
  const X_FG_TIMESTAMP := "x-fg-timestamp"
  const X_FG_KEY_ID := "x-fg-key-id"
  const X_FG_SIGNATURE := "x-fg-signature"

  // ----- Case-insensitive names -----

  function LowerChar(c: char): char {
    if 'A' <= c <= 'Z' then c + 32 as char else c
  }

  function Lower(s: string): (r: string)
    ensures |r| == |s| && forall i :: 0 <= i < |s| ==> r[i] == LowerChar(s[i])
  {
    seq(|s|, i requires 0 <= i < |s| => LowerChar(s[i]))
  }

  predicate SameName(a: string, b: string) {
    Lower(a) == Lower(b)
  }

  function FindHeader(headers: seq<Header>, name: string): Option<string> {
    if headers == [] then None
    else if SameName(headers[0].name, name) then Some(headers[0].value)
    else FindHeader(headers[1..], name)
  }

  predicate IsProtocolHeader(name: string) {
    || SameName(X_FG_SIGNATURE, name) || SameName(X_FG_TIMESTAMP, name)
    || SameName(X_FG_KEY_ID, name) || SameName(X_FG_TRACE_ID, name)
  }

  predicate IsFg(h: Header) {
    X_FG_PREFIX <= Lower(h.name)
  }

  predicate IsIdentityHeader(h: Header) {
    IsFg(h) && !IsProtocolHeader(h.name)
  }

  function Filter(p: Header -> bool, hs: seq<Header>): seq<Header> {
    if hs == [] then []
    else (if p(hs[0]) then [hs[0]] else []) + Filter(p, hs[1..])
  }

  lemma {:induction false} FilterCount(p: Header -> bool, hs: seq<Header>, x: Header)
    ensures multiset(Filter(p, hs))[x] == if p(x) then multiset(hs)[x] else 0
  {
    if hs != [] {
      FilterCount(p, hs[1..], x);
      assert hs == [hs[0]] + hs[1..];
      assert multiset(hs) == multiset{hs[0]} + multiset(hs[1..]);
    }
  }

  // ----- Extraction -----

  datatype Credential =
    | Bearer(token: string)
    | ApiKey(key: string)
    | SignedRequest(keyId: string, timestamp: nat, signature: string, traceId: string, identityHeaders: seq<Header>)

  /** Unicode white space. */
  predicate IsSpace(c: char) {
    || c == ' ' || '\t' <= c <= '\r' || c == '\U{85}' || c == '\U{A0}' || c == '\U{1680}' || '\U{2000}' <= c <= '\U{200A}'
    || c == '\U{2028}' || c == '\U{2029}' || c == '\U{202F}' || c == '\U{205F}' || c == '\U{3000}'
  }

  function TrimStart(s: string): string {
    if s != [] && IsSpace(s[0]) then TrimStart(s[1..]) else s
  }

  function TrimEnd(s: string): string {
    if s != [] && IsSpace(s[|s| - 1]) then TrimEnd(s[..|s| - 1]) else s
  }

  function Trim(s: string): string {
    TrimEnd(TrimStart(s))
  }

  function BearerToken(headers: seq<Header>): Option<string> {
    var auth := FindHeader(headers, "authorization");
    if auth.None? then None else
    var trimmed := Trim(auth.value);
    if |trimmed| > 7 && SameName(trimmed[..7], "bearer ") && Trim(trimmed[7..]) != "" then Some(Trim(trimmed[7..]))
    else None
  }

  function ApiKeyValue(headers: seq<Header>): Option<string> {
    var key := FindHeader(headers, "x-api-key");
    if key.Some? && Trim(key.value) != "" then Some(Trim(key.value)) else None
  }

  function ExtractCredential(headers: seq<Header>): Option<Credential> {
    var bearer := BearerToken(headers);
    if bearer.Some? then Some(Bearer(bearer.value)) else
    var apiKey := ApiKeyValue(headers);
    if apiKey.Some? then Some(ApiKey(apiKey.value)) else
    var sig := FindHeader(headers, X_FG_SIGNATURE);
    var ts := FindHeader(headers, X_FG_TIMESTAMP);
    var keyId := FindHeader(headers, X_FG_KEY_ID);
    var traceId := FindHeader(headers, X_FG_TRACE_ID);
    if sig.None? || ts.None? || keyId.None? || traceId.None? then None else
    var timestamp := ParseU64(ts.value);
    if timestamp.None? then None else
    Some(SignedRequest(keyId.value, timestamp.value, sig.value, traceId.value, Filter(IsIdentityHeader, headers)))
  }

  // ----- Which credential a request carries -----

  /** A header of the name that no other of the name precedes. */
  ghost predicate IsFirst(headers: seq<Header>, name: string, i: nat) {
    i < |headers| && SameName(headers[i].name, name) && forall j :: 0 <= j < i ==> !SameName(headers[j].name, name)
  }

  /** A lookup gives the first header of the name, in any letter case. */
  lemma {:induction false} FindHeaderIff(headers: seq<Header>, name: string)
    ensures FindHeader(headers, name).None? <==> forall i :: 0 <= i < |headers| ==> !SameName(headers[i].name, name)
    ensures forall i: nat :: IsFirst(headers, name, i) ==> FindHeader(headers, name) == Some(headers[i].value)
  {
    hide SameName;
    if headers != [] {
      var rest := headers[1..];
      FindHeaderIff(rest, name);
      assert forall i :: 0 < i < |headers| ==> headers[i] == rest[i - 1];
      forall i: nat | IsFirst(headers, name, i)
        ensures FindHeader(headers, name) == Some(headers[i].value)
      {
        if i > 0 {
          assert IsFirst(rest, name, i - 1);
        }
      }
    }
  }

  ghost predicate Blank(s: string) {
    forall i :: 0 <= i < |s| ==> IsSpace(s[i])
  }

  /** Not empty, and no white space at its ends. */
  ghost predicate Tight(s: string) {
    s != [] && !IsSpace(s[0]) && !IsSpace(s[|s| - 1])
  }

  /** The text with white space around it. */
  ghost predicate Pads(lead: string, x: string, trail: string, s: string) {
    s == lead + x + trail && Blank(lead) && Blank(trail)
  }

  lemma {:induction false} TrimStartOf(lead: string, x: string)
    requires Blank(lead) && (x == [] || !IsSpace(x[0]))
    ensures TrimStart(lead + x) == x
  {
    if lead == [] {
      assert lead + x == x;
    } else {
      assert (lead + x)[1..] == lead[1..] + x;
      TrimStartOf(lead[1..], x);
    }
  }

  lemma {:induction false} TrimEndOf(x: string, trail: string)
    requires Blank(trail) && (x == [] || !IsSpace(x[|x| - 1]))
    ensures TrimEnd(x + trail) == x
    decreases |trail|
  {
    if trail == [] {
      assert x + trail == x;
    } else {
      var n := |trail| - 1;
      assert (x + trail)[..|x| + n] == x + trail[..n];
      TrimEndOf(x, trail[..n]);
    }
  }

  lemma TrimOf(lead: string, x: string, trail: string, s: string)
    requires Pads(lead, x, trail, s) && Tight(x)
    ensures Trim(s) == x
  {
    assert s == lead + (x + trail);
    TrimStartOf(lead, x + trail);
    TrimEndOf(x, trail);
  }

  lemma {:induction false} TrimStartPads(s: string) returns (lead: string)
    ensures s == lead + TrimStart(s) && Blank(lead)
    ensures TrimStart(s) != [] ==> !IsSpace(TrimStart(s)[0])
  {
    lead := [];
    if s != [] && IsSpace(s[0]) {
      var l := TrimStartPads(s[1..]);
      lead := [s[0]] + l;
    }
  }

  lemma {:induction false} TrimEndPads(s: string) returns (trail: string)
    ensures s == TrimEnd(s) + trail && Blank(trail)
    ensures TrimEnd(s) != [] ==> !IsSpace(TrimEnd(s)[|TrimEnd(s)| - 1])
    decreases |s|
  {
    trail := [];
    if s != [] && IsSpace(s[|s| - 1]) {
      var t := TrimEndPads(s[..|s| - 1]);
      trail := t + [s[|s| - 1]];
    }
  }

  lemma TrimPads(s: string) returns (lead: string, trail: string)
    ensures Pads(lead, Trim(s), trail, s)
    ensures Trim(s) != [] ==> Tight(Trim(s))
  {
    lead := TrimStartPads(s);
    trail := TrimEndPads(TrimStart(s));
    assert Trim(s) != [] ==> Trim(s)[0] == TrimStart(s)[0];
  }

  /** The scheme, in any letter case, and a token, with white space around and between. */
  ghost predicate IsBearer(lead: string, scheme: string, gap: string, token: string, trail: string, value: string) {
    Pads(lead, scheme + (gap + token), trail, value) && SameName(scheme, "bearer ") && Blank(gap) && Tight(token)
  }

  ghost predicate CarriesBearer(headers: seq<Header>, token: string) {
    var value := FindHeader(headers, "authorization");
    value.Some? && exists lead, scheme, gap, trail :: IsBearer(lead, scheme, gap, token, trail, value.value)
  }

  ghost predicate CarriesApiKey(headers: seq<Header>, key: string) {
    var value := FindHeader(headers, "x-api-key");
    value.Some? && Tight(key) && exists lead, trail :: Pads(lead, key, trail, value.value)
  }

  lemma SchemeStarts(scheme: string)
    requires SameName(scheme, "bearer ")
    ensures |scheme| == 7 && !IsSpace(scheme[0])
  {
    assert |"bearer "| == 7 && Lower("bearer ")[0] == 'b';
    assert Lower(scheme)[0] == LowerChar(scheme[0]);
  }

  lemma BearerIsFound(headers: seq<Header>, lead: string, scheme: string, gap: string, token: string, trail: string)
    requires var value := FindHeader(headers, "authorization");
             value.Some? && IsBearer(lead, scheme, gap, token, trail, value.value)
    ensures BearerToken(headers) == Some(token)
  {
    hide FindHeader, IsSpace;
    var value := FindHeader(headers, "authorization").value;
    var x := scheme + (gap + token);
    SchemeStarts(scheme);
    assert x[|x| - 1] == token[|token| - 1] && x[0] == scheme[0];
    TrimOf(lead, x, trail, value);
    assert x[..7] == scheme && x[7..] == gap + token;
    TrimOf(gap, token, [], gap + token);
  }

  lemma BearerIff(headers: seq<Header>, token: string)
    ensures BearerToken(headers) == Some(token) <==> CarriesBearer(headers, token)
  {
    if BearerToken(headers) == Some(token) {
      var value := FindHeader(headers, "authorization").value;
      hide FindHeader, IsSpace, TrimStart, TrimEnd;
      var lead, trail := TrimPads(value);
      var x := Trim(value);
      var gap, rest := TrimPads(x[7..]);
      LastIsTight(gap, token, rest, x);
      assert x == x[..7] + x[7..];
      assert IsBearer(lead, x[..7], gap, token, trail, value);
    }
    forall lead, scheme, gap, trail |
      FindHeader(headers, "authorization").Some? &&
      IsBearer(lead, scheme, gap, token, trail, FindHeader(headers, "authorization").value)
      ensures BearerToken(headers) == Some(token)
    {
      BearerIsFound(headers, lead, scheme, gap, token, trail);
    }
  }

  /** Nothing is trimmed from the end of a text that is already tight there. */
  lemma LastIsTight(gap: string, token: string, rest: string, x: string)
    requires Tight(x) && |x| > 7 && Pads(gap, token, rest, x[7..])
    ensures rest == [] && x[7..] == gap + token
  {
    hide IsSpace;
    assert x[|x| - 1] == x[7..][|x| - 8];
  }

  lemma ApiKeyIff(headers: seq<Header>, key: string)
    ensures ApiKeyValue(headers) == Some(key) <==> CarriesApiKey(headers, key)
  {
    hide FindHeader, IsSpace, TrimStart, TrimEnd;
    var value := FindHeader(headers, "x-api-key");
    if ApiKeyValue(headers) == Some(key) {
      var lead, trail := TrimPads(value.value);
      assert Pads(lead, key, trail, value.value);
    }
    if CarriesApiKey(headers, key) {
      var lead, trail :| Pads(lead, key, trail, value.value);
      TrimOf(lead, key, trail, value.value);
    }
  }

  /**
   A bearer token goes before an API key and both before a signature, of which all four headers and a
   64-bit timestamp are needed. Token and key are what stands between the white space.
   */
  lemma CredentialIff(headers: seq<Header>)
    ensures forall token :: ExtractCredential(headers) == Some(Bearer(token)) <==> CarriesBearer(headers, token)
    ensures forall key :: ExtractCredential(headers) == Some(ApiKey(key)) <==>
      CarriesApiKey(headers, key) && forall token :: !CarriesBearer(headers, token)
    ensures forall keyId, timestamp: nat, signature, traceId, identity ::
      ExtractCredential(headers) == Some(SignedRequest(keyId, timestamp, signature, traceId, identity)) <==>
        && (forall token :: !CarriesBearer(headers, token)) && (forall key :: !CarriesApiKey(headers, key))
        && FindHeader(headers, "x-fg-signature") == Some(signature) && FindHeader(headers, "x-fg-key-id") == Some(keyId)
        && FindHeader(headers, "x-fg-trace-id") == Some(traceId) && FindHeader(headers, "x-fg-timestamp").Some?
        && ParseU64(FindHeader(headers, "x-fg-timestamp").value) == Some(timestamp)
        && identity == Filter(IsIdentityHeader, headers)
  {
    hide FindHeader, BearerToken, ApiKeyValue, CarriesBearer, CarriesApiKey, Filter, ParseU64;
    forall token
      ensures BearerToken(headers) == Some(token) <==> CarriesBearer(headers, token)
    {
      BearerIff(headers, token);
    }
    forall key
      ensures ApiKeyValue(headers) == Some(key) <==> CarriesApiKey(headers, key)
    {
      ApiKeyIff(headers, key);
    }
    assert BearerToken(headers).Some? ==> CarriesBearer(headers, BearerToken(headers).value);
    assert ApiKeyValue(headers).Some? ==> CarriesApiKey(headers, ApiKeyValue(headers).value);
  }

  // ----- Injection -----

  datatype Projection = Projection(userId: string, tenant: Option<string>, groups: seq<string>, authProvider: string,
                                   principal: Option<string>, features: Option<string>, clientIp: Option<string>)

  /** The identity headers of a projection: two always, the others when their field is there. */
  ghost predicate Carries(p: Projection, h: Header) {
    || h == Header(X_FG_USER_ID, p.userId)
    || (p.tenant.Some? && h == Header(X_FG_TENANT_ID, p.tenant.value))
    || (p.groups != [] && h == Header(X_FG_GROUPS, Join(p.groups, ',')))
    || h == Header(X_FG_AUTH_PROVIDER, p.authProvider)
    || (p.principal.Some? && h == Header(X_FG_PRINCIPAL, p.principal.value))
    || (p.features.Some? && h == Header(X_FG_FEATURES, p.features.value))
    || (p.clientIp.Some? && h == Header(X_FG_CLIENT_IP, p.clientIp.value))
  }

  /** The headers of the list, each under its own lowercase name, none of them a protocol header. */
  ghost predicate IsIdentity(p: Projection, hs: seq<Header>) {
    && (forall h :: h in hs <==> Carries(p, h))
    && (forall i, j :: 0 <= i < j < |hs| ==> hs[i].name != hs[j].name)
  }

  /** Two letters after the prefix tell the names apart. */
  lemma NamesApart()
    ensures X_FG_USER_ID[5..7] == "us" && X_FG_TENANT_ID[5..7] == "te" && X_FG_GROUPS[5..7] == "gr"
    ensures X_FG_AUTH_PROVIDER[5..7] == "au" && X_FG_PRINCIPAL[5..7] == "pr" && X_FG_FEATURES[5..7] == "fe"
    ensures X_FG_CLIENT_IP[5..7] == "cl" && X_FG_TRACE_ID[5..7] == "tr" && X_FG_TIMESTAMP[5..7] == "ti"
    ensures X_FG_KEY_ID[5..7] == "ke" && X_FG_SIGNATURE[5..7] == "si"
  {
  }

  /** The fields of a projection in the order in which they are pushed. */
  function Slots(p: Projection): seq<(string, Option<string>)> {
    [(X_FG_USER_ID, Some(p.userId)),
     (X_FG_TENANT_ID, p.tenant),
     (X_FG_GROUPS, if p.groups == [] then None else Some(Join(p.groups, ','))),
     (X_FG_AUTH_PROVIDER, Some(p.authProvider)),
     (X_FG_PRINCIPAL, p.principal),
     (X_FG_FEATURES, p.features),
     (X_FG_CLIENT_IP, p.clientIp)]
  }

  function Filled(slots: seq<(string, Option<string>)>): seq<Header> {
    if slots == [] then []
    else
      var (name, value) := slots[|slots| - 1];
      Filled(slots[..|slots| - 1]) + if value.Some? then [Header(name, value.value)] else []
  }

  ghost predicate Fills(slot: (string, Option<string>), h: Header) {
    slot.1.Some? && h == Header(slot.0, slot.1.value)
  }

  lemma {:induction false} FilledHolds(slots: seq<(string, Option<string>)>)
    requires forall i, j :: 0 <= i < j < |slots| ==> slots[i].0 != slots[j].0
    ensures forall h :: h in Filled(slots) <==> exists i :: 0 <= i < |slots| && Fills(slots[i], h)
    ensures forall i, j :: 0 <= i < j < |Filled(slots)| ==> Filled(slots)[i].name != Filled(slots)[j].name
    decreases |slots|
  {
    if slots != [] {
      var n := |slots| - 1;
      var before := slots[..n];
      FilledHolds(before);
      forall h
        ensures h in Filled(slots) <==> exists i :: 0 <= i < |slots| && Fills(slots[i], h)
      {
        if h in Filled(before) {
          var i :| 0 <= i < n && Fills(before[i], h);
          assert Fills(slots[i], h);
        } else if h in Filled(slots) {
          assert Fills(slots[n], h);
        }
        if i :| 0 <= i < |slots| && Fills(slots[i], h) {
          assert i < n ==> Fills(before[i], h);
        }
      }
      forall i | 0 <= i < |Filled(before)|
        ensures Filled(before)[i].name != slots[n].0
      {
        var h := Filled(before)[i];
        assert h in Filled(before);
        var k :| 0 <= k < n && Fills(before[k], h);
        assert before[k] == slots[k];
      }
    }
  }

  function IdentityHeaders(p: Projection): seq<Header> {
    Filled(Slots(p))
  }

  lemma SlotsAreIdentity(p: Projection)
    ensures IsIdentity(p, IdentityHeaders(p))
  {
    var slots := Slots(p);
    NamesApart();
    FilledHolds(slots);
    forall h
      ensures Carries(p, h) <==> exists i :: 0 <= i < |slots| && Fills(slots[i], h)
    {
      if Carries(p, h) {
        assert Fills(slots[0], h) || Fills(slots[1], h) || Fills(slots[2], h) || Fills(slots[3], h) ||
          Fills(slots[4], h) || Fills(slots[5], h) || Fills(slots[6], h);
      }
    }
  }

  lemma FilledNext(slots: seq<(string, Option<string>)>, k: nat)
    requires k < |slots|
    ensures Filled(slots[..k + 1]) ==
            Filled(slots[..k]) + if slots[k].1.Some? then [Header(slots[k].0, slots[k].1.value)] else []
  {
    assert slots[..k + 1][..k] == slots[..k];
  }

  /** Pushes a header for every field that is there. */
  method InjectHeaders(p: Projection) returns (headers: seq<Header>)
    ensures IsIdentity(p, headers)
    ensures headers == IdentityHeaders(p)
  {
    hide IsIdentity, Filled;
    ghost var slots := Slots(p);
    FilledNothing(slots);
    headers := [];
    headers := headers + [Header(X_FG_USER_ID, p.userId)];
    FilledNext(slots, 0);
    assert headers == Filled(slots[..1]);
    if p.tenant.Some? {
      headers := headers + [Header(X_FG_TENANT_ID, p.tenant.value)];
    }
    FilledNext(slots, 1);
    assert headers == Filled(slots[..2]);
    if p.groups != [] {
      headers := headers + [Header(X_FG_GROUPS, Join(p.groups, ','))];
    }
    FilledNext(slots, 2);
    assert headers == Filled(slots[..3]);
    headers := headers + [Header(X_FG_AUTH_PROVIDER, p.authProvider)];
    FilledNext(slots, 3);
    assert headers == Filled(slots[..4]);
    if p.principal.Some? {
      headers := headers + [Header(X_FG_PRINCIPAL, p.principal.value)];
    }
    FilledNext(slots, 4);
    assert headers == Filled(slots[..5]);
    if p.features.Some? {
      headers := headers + [Header(X_FG_FEATURES, p.features.value)];
    }
    FilledNext(slots, 5);
    assert headers == Filled(slots[..6]);
    if p.clientIp.Some? {
      headers := headers + [Header(X_FG_CLIENT_IP, p.clientIp.value)];
    }
    FilledNext(slots, 6);
    assert headers == Filled(slots[..7]);
    assert slots[..7] == slots;
    SlotsAreIdentity(p);
  }

  lemma FilledNothing(slots: seq<(string, Option<string>)>)
    ensures Filled(slots[..0]) == []
  {
  }

  // ----- Signing -----

  /** Signatures and their text form, known only by their laws. */
  datatype Crypto = Crypto(sign: (string, string) -> string, publicOf: string -> string,
                           verify: (string, string, string) -> bool,
                           encode: string -> string, decode: string -> Option<string>)

  ghost predicate Correct(c: Crypto) {
    && (forall key, m :: c.verify(c.publicOf(key), m, c.sign(key, m)))
    && (forall sig :: c.decode(c.encode(sig)) == Some(sig))
  }

  const SIGNATURE_PREFIX := "v1:"

  function SignatureText(c: Crypto, sig: string): string {
    SIGNATURE_PREFIX + c.encode(sig)
  }

  function ParseSignature(c: Crypto, text: string): Option<string> {
    if SIGNATURE_PREFIX <= text then c.decode(text[|SIGNATURE_PREFIX|..]) else None
  }

  datatype Signing = Signing(key: string, keyId: string)

  function ProtocolHeaders(c: Crypto, signing: Signing, traceId: string, now: nat, payload: string): seq<Header> {
    [Header(X_FG_TRACE_ID, traceId),
     Header(X_FG_TIMESTAMP, Decimal(now)),
     Header(X_FG_KEY_ID, signing.keyId),
     Header(X_FG_SIGNATURE, SignatureText(c, c.sign(signing.key, payload)))]
  }

  function SignedHeaders(c: Crypto, p: Projection, signing: Signing, traceId: string, now: nat): seq<Header> {
    var identity := IdentityHeaders(p);
    identity + ProtocolHeaders(c, signing, traceId, now, Payload(traceId, now, identity))
  }

  /** The receiver rebuilds the payload from the credential and checks the signature over it. */
  predicate Verifies(c: Crypto, verifyingKey: string, cred: Credential) {
    cred.SignedRequest? &&
    var sig := ParseSignature(c, cred.signature);
    sig.Some? && c.verify(verifyingKey, Payload(cred.traceId, cred.timestamp, cred.identityHeaders), sig.value)
  }

  // ----- The round trip -----

  /** A lowercase name, written out. */
  ghost predicate IsLowercase(s: string) {
    forall i :: 0 <= i < |s| ==> !('A' <= s[i] <= 'Z')
  }

  lemma LowercaseStays(s: string)
    requires IsLowercase(s)
    ensures Lower(s) == s
  {
  }

  ghost const IDENTITY_NAMES: set<string> :=
    {X_FG_USER_ID, X_FG_TENANT_ID, X_FG_GROUPS, X_FG_AUTH_PROVIDER, X_FG_PRINCIPAL, X_FG_FEATURES, X_FG_CLIENT_IP}

  ghost const PROTOCOL_NAMES: set<string> := {X_FG_TRACE_ID, X_FG_TIMESTAMP, X_FG_KEY_ID, X_FG_SIGNATURE}

  lemma IdentityNamesAreLowercase(name: string)
    requires name in IDENTITY_NAMES
    ensures IsLowercase(name) && X_FG_PREFIX <= name
  {
  }

  lemma ProtocolNamesAreLowercase(name: string)
    requires name in PROTOCOL_NAMES
    ensures IsLowercase(name) && X_FG_PREFIX <= name
  {
  }

  lemma IdentityNamesAreNoProtocol(name: string)
    requires name in IDENTITY_NAMES
    ensures name !in PROTOCOL_NAMES
  {
    NamesApart();
  }

  lemma NameClasses(h: Header)
    ensures Lower(h.name) in IDENTITY_NAMES ==> IsFg(h) && IsIdentityHeader(h)
    ensures Lower(h.name) in PROTOCOL_NAMES ==> IsFg(h) && !IsIdentityHeader(h)
  {
    LowerProtocolNames();
    var name := Lower(h.name);
    hide Lower;
    if name in IDENTITY_NAMES {
      IdentityNamesAreLowercase(name);
      IdentityNamesAreNoProtocol(name);
    }
    if name in PROTOCOL_NAMES {
      ProtocolNamesAreLowercase(name);
    }
  }

  lemma LowerProtocolNames()
    ensures Lower(X_FG_TRACE_ID) == X_FG_TRACE_ID && Lower(X_FG_TIMESTAMP) == X_FG_TIMESTAMP
    ensures Lower(X_FG_KEY_ID) == X_FG_KEY_ID && Lower(X_FG_SIGNATURE) == X_FG_SIGNATURE
  {
    ProtocolNamesAreLowercase(X_FG_TRACE_ID);
    ProtocolNamesAreLowercase(X_FG_TIMESTAMP);
    ProtocolNamesAreLowercase(X_FG_KEY_ID);
    ProtocolNamesAreLowercase(X_FG_SIGNATURE);
    LowercaseStays(X_FG_TRACE_ID);
    LowercaseStays(X_FG_TIMESTAMP);
    LowercaseStays(X_FG_KEY_ID);
    LowercaseStays(X_FG_SIGNATURE);
  }

  /** The first match is the only match. */
  lemma {:induction false} FindOnly(headers: seq<Header>, h: Header)
    requires h in headers && forall x :: x in headers && SameName(x.name, h.name) ==> x == h
    ensures FindHeader(headers, h.name) == Some(h.value)
  {
    if SameName(headers[0].name, h.name) {
      assert headers[0] in headers;
    } else {
      assert headers[0] != h;
      FindOnly(headers[1..], h);
    }
  }

  /** The request as it arrives: its ForgeGuard headers are those that were sent, in any order and among
      any others, and it carries no credential of higher priority. */
  ghost predicate Arrives(sent: seq<Header>, request: seq<Header>) {
    && multiset(Filter(IsFg, request)) == multiset(sent)
    && BearerToken(request).None? && ApiKeyValue(request).None?
  }

  lemma ArrivedHeaders(sent: seq<Header>, request: seq<Header>, h: Header)
    requires Arrives(sent, request) && IsFg(h)
    ensures multiset(request)[h] == multiset(sent)[h]
    ensures h in request <==> h in sent
  {
    FilterCount(IsFg, request, h);
    assert h in request <==> h in multiset(request);
    assert h in sent <==> h in multiset(sent);
  }

  /** The headers of a signed message, in any letter case, are identity headers and protocol headers, and
      the latter differ. */
  ghost predicate Wellnamed(identity: seq<Header>, protocol: seq<Header>) {
    && (forall h :: h in identity ==> IsIdentityHeader(h))
    && (forall h :: h in protocol ==> Lower(h.name) in PROTOCOL_NAMES)
    && (forall i, j :: 0 <= i < j < |protocol| ==> Lower(protocol[i].name) != Lower(protocol[j].name))
  }

  lemma FindProtocol(identity: seq<Header>, protocol: seq<Header>, request: seq<Header>, k: nat)
    requires Wellnamed(identity, protocol) && Arrives(identity + protocol, request) && k < |protocol|
    ensures FindHeader(request, protocol[k].name) == Some(protocol[k].value)
  {
    hide Arrives, BearerToken, ApiKeyValue;
    var h, sent := protocol[k], identity + protocol;
    assert h in protocol && h in sent;
    NameClasses(h);
    ArrivedHeaders(sent, request, h);
    forall x | x in request && SameName(x.name, h.name)
      ensures x == h
    {
      NameClasses(x);
      ArrivedHeaders(sent, request, x);
      assert x in protocol;
      var j :| 0 <= j < |protocol| && protocol[j] == x;
    }
    FindOnly(request, h);
  }

  /** Extraction keeps exactly the identity headers that were sent. */
  lemma ExtractedIdentity(identity: seq<Header>, protocol: seq<Header>, request: seq<Header>)
    requires Wellnamed(identity, protocol) && Arrives(identity + protocol, request)
    ensures multiset(Filter(IsIdentityHeader, request)) == multiset(identity)
  {
    hide Arrives;
    var sent := identity + protocol;
    forall x
      ensures multiset(Filter(IsIdentityHeader, request))[x] == multiset(identity)[x]
    {
      FilterCount(IsIdentityHeader, request, x);
      NameClasses(x);
      assert x in identity <==> x in multiset(identity);
      assert x in protocol <==> x in multiset(protocol);
      if IsIdentityHeader(x) {
        ArrivedHeaders(sent, request, x);
        assert multiset(sent) == multiset(identity) + multiset(protocol);
      }
    }
  }

  /** The same headers in the same order, except for the letter case of their names. */
  ghost predicate Recased(sent: seq<Header>, carried: seq<Header>) {
    |sent| == |carried| &&
    forall i :: 0 <= i < |sent| ==> SameName(sent[i].name, carried[i].name) && sent[i].value == carried[i].value
  }

  lemma RecasedHeader(sent: seq<Header>, carried: seq<Header>, h: Header)
    requires Recased(sent, carried) && h in carried
    ensures exists i :: 0 <= i < |sent| && carried[i] == h && SameName(sent[i].name, h.name)
  {
  }

  lemma IdentityIsNamed(p: Projection, h: Header)
    requires Carries(p, h)
    ensures h.name in IDENTITY_NAMES && Lower(h.name) == h.name
  {
    IdentityNamesAreLowercase(h.name);
    LowercaseStays(h.name);
  }

  lemma RecasedIsWellnamed(c: Crypto, p: Projection, signing: Signing, traceId: string, now: nat, payload: string,
                           identity: seq<Header>, protocol: seq<Header>)
    requires Recased(IdentityHeaders(p), identity) && Recased(ProtocolHeaders(c, signing, traceId, now, payload), protocol)
    ensures Wellnamed(identity, protocol)
  {
    NamesApart();
    LowerProtocolNames();
    SlotsAreIdentity(p);
    hide IdentityHeaders, SignatureText, Decimal, Lower, Carries;
    forall h | h in identity
      ensures IsIdentityHeader(h)
    {
      NameClasses(h);
      RecasedHeader(IdentityHeaders(p), identity, h);
      var i :| 0 <= i < |identity| && identity[i] == h && SameName(IdentityHeaders(p)[i].name, h.name);
      assert IdentityHeaders(p)[i] in IdentityHeaders(p);
      IdentityIsNamed(p, IdentityHeaders(p)[i]);
    }
  }

  lemma FoundCredential(request: seq<Header>, traceId: string, now: nat, keyId: string, signature: string)
    requires BearerToken(request).None? && ApiKeyValue(request).None? && now <= U64_MAX
    requires FindHeader(request, X_FG_TRACE_ID) == Some(traceId)
    requires FindHeader(request, X_FG_TIMESTAMP) == Some(Decimal(now))
    requires FindHeader(request, X_FG_KEY_ID) == Some(keyId)
    requires FindHeader(request, X_FG_SIGNATURE) == Some(signature)
    ensures ExtractCredential(request) ==
      Some(SignedRequest(keyId, now, signature, traceId, Filter(IsIdentityHeader, request)))
  {
    hide FindHeader, BearerToken, ApiKeyValue, Filter, ParseU64, Decimal;
    ParseOfDecimal(now);
  }

  lemma SignatureIsAccepted(c: Crypto, key: string, cred: Credential)
    requires Correct(c) && cred.SignedRequest?
    requires cred.signature ==
      SignatureText(c, c.sign(key, Payload(cred.traceId, cred.timestamp, cred.identityHeaders)))
    ensures Verifies(c, c.publicOf(key), cred)
  {
    hide Payload;
    var sig := c.sign(key, Payload(cred.traceId, cred.timestamp, cred.identityHeaders));
    assert SignatureText(c, sig)[|SIGNATURE_PREFIX|..] == c.encode(sig);
  }

  lemma {:induction false} FindIgnoresCase(headers: seq<Header>, a: string, b: string)
    requires SameName(a, b)
    ensures FindHeader(headers, a) == FindHeader(headers, b)
  {
    if headers != [] {
      FindIgnoresCase(headers[1..], a, b);
    }
  }

  lemma FoundProtocol(c: Crypto, signing: Signing, traceId: string, now: nat, payload: string,
                      identity: seq<Header>, protocol: seq<Header>, request: seq<Header>)
    requires Recased(ProtocolHeaders(c, signing, traceId, now, payload), protocol)
    requires Wellnamed(identity, protocol) && Arrives(identity + protocol, request)
    ensures FindHeader(request, X_FG_TRACE_ID) == Some(traceId)
    ensures FindHeader(request, X_FG_TIMESTAMP) == Some(Decimal(now))
    ensures FindHeader(request, X_FG_KEY_ID) == Some(signing.keyId)
    ensures FindHeader(request, X_FG_SIGNATURE) == Some(SignatureText(c, c.sign(signing.key, payload)))
  {
    hide Wellnamed, Arrives, FindHeader, Decimal, SignatureText, SameName;
    var sent := ProtocolHeaders(c, signing, traceId, now, payload);
    forall k | 0 <= k < 4
      ensures FindHeader(request, sent[k].name) == Some(sent[k].value)
    {
      FindProtocol(identity, protocol, request, k);
      FindIgnoresCase(request, sent[k].name, protocol[k].name);
    }
    assert sent[0].name == X_FG_TRACE_ID && sent[1].name == X_FG_TIMESTAMP;
    assert sent[2].name == X_FG_KEY_ID && sent[3].name == X_FG_SIGNATURE;
  }

  /** Whatever identity headers were sent and whatever was signed, the receiver finds both. */
  lemma Delivered(c: Crypto, signing: Signing, traceId: string, now: nat, payload: string,
                  identity: seq<Header>, protocol: seq<Header>, request: seq<Header>)
    requires Recased(ProtocolHeaders(c, signing, traceId, now, payload), protocol) && now <= U64_MAX
    requires Wellnamed(identity, protocol) && Arrives(identity + protocol, request)
    ensures ExtractCredential(request) ==
      Some(SignedRequest(signing.keyId, now, SignatureText(c, c.sign(signing.key, payload)), traceId,
                         Filter(IsIdentityHeader, request)))
    ensures multiset(Filter(IsIdentityHeader, request)) == multiset(identity)
  {
    FoundProtocol(c, signing, traceId, now, payload, identity, protocol, request);
    ExtractedIdentity(identity, protocol, request);
    hide Recased, Wellnamed, Filter, BearerToken, ApiKeyValue, FindHeader, ExtractCredential, SignatureText, Decimal;
    FoundCredential(request, traceId, now, signing.keyId, SignatureText(c, c.sign(signing.key, payload)));
  }

  /** No identity header's name changed. */
  ghost predicate SameNames(sent: seq<Header>, carried: seq<Header>) {
    |sent| == |carried| && forall i :: 0 <= i < |sent| ==> sent[i].name == carried[i].name
  }

  ghost predicate OneLiners(traceId: string, hs: seq<Header>) {
    '\n' !in traceId && forall h :: h in hs ==> '\n' !in h.value
  }

  lemma RecasedNameIsPrintable(name: string, c: char)
    requires Lower(name) in IDENTITY_NAMES && (c == ':' || c == '\n')
    ensures c !in name
  {
    if c in name {
      var i :| 0 <= i < |name| && name[i] == c;
      assert Lower(name)[i] == c;
      NamesHoldNo(Lower(name), c);
      assert false;
    }
  }

  lemma NamesHoldNo(name: string, c: char)
    requires name in IDENTITY_NAMES && (c == ':' || c == '\n')
    ensures c !in name
  {
  }

  lemma RecasedIsPrintable(p: Projection, identity: seq<Header>, traceId: string)
    requires Recased(IdentityHeaders(p), identity) && OneLiners(traceId, IdentityHeaders(p))
    ensures forall h :: h in identity ==> Printable(h)
  {
    SlotsAreIdentity(p);
    hide IdentityHeaders, Lower, Carries;
    forall h | h in identity
      ensures Printable(h)
    {
      var i :| 0 <= i < |identity| && identity[i] == h;
      var s := IdentityHeaders(p)[i];
      assert s in IdentityHeaders(p);
      IdentityIsNamed(p, s);
      RecasedNameIsPrintable(h.name, ':');
      RecasedNameIsPrintable(h.name, '\n');
    }
  }

  lemma RecasedItself(sent: seq<Header>)
    ensures Recased(sent, sent)
  {
  }

  /** A header list that holds the same headers again, with names recased, holds them unchanged. */
  lemma SameHeadersSameNames(p: Projection, carried: seq<Header>)
    requires Recased(IdentityHeaders(p), carried) && multiset(IdentityHeaders(p)) == multiset(carried)
    ensures SameNames(IdentityHeaders(p), carried)
  {
    SlotsAreIdentity(p);
    var sent := IdentityHeaders(p);
    hide IdentityHeaders, Lower, Carries;
    forall i | 0 <= i < |sent|
      ensures sent[i].name == carried[i].name
    {
      assert carried[i] in multiset(carried);
      assert carried[i] in sent && sent[i] in sent;
      IdentityIsNamed(p, sent[i]);
      IdentityIsNamed(p, carried[i]);
    }
  }

  /** The payload that was signed is rebuilt, from any headers, exactly when they are those that were sent. */
  lemma PayloadRebuiltIff(p: Projection, traceId: string, now: nat, extracted: seq<Header>)
    requires OneLiners(traceId, IdentityHeaders(p)) && forall h :: h in extracted ==> Printable(h)
    ensures Payload(traceId, now, extracted) == Payload(traceId, now, IdentityHeaders(p)) <==>
      multiset(extracted) == multiset(IdentityHeaders(p))
  {
    IdentityIsDistinct(p);
    hide IdentityHeaders, Payload;
    RecasedItself(IdentityHeaders(p));
    RecasedIsPrintable(p, IdentityHeaders(p), traceId);
    PayloadsEqualIff(traceId, now, extracted, traceId, now, IdentityHeaders(p));
  }

  lemma PayloadSurvivesIff(p: Projection, traceId: string, now: nat, carried: seq<Header>, extracted: seq<Header>)
    requires Recased(IdentityHeaders(p), carried) && multiset(extracted) == multiset(carried)
    ensures SameNames(IdentityHeaders(p), carried) ==>
      Payload(traceId, now, extracted) == Payload(traceId, now, IdentityHeaders(p))
    ensures OneLiners(traceId, IdentityHeaders(p)) && !SameNames(IdentityHeaders(p), carried) ==>
      Payload(traceId, now, extracted) != Payload(traceId, now, IdentityHeaders(p))
  {
    var sent := IdentityHeaders(p);
    IdentityIsDistinct(p);
    hide IdentityHeaders, Payload, Lower;
    if SameNames(sent, carried) {
      assert carried == sent;
      PayloadForgetsOrder(traceId, now, sent, extracted);
    } else if OneLiners(traceId, sent) {
      RecasedIsPrintable(p, carried, traceId);
      assert forall h :: h in extracted ==> h in multiset(extracted);
      assert forall h :: h in multiset(carried) ==> h in carried;
      PayloadRebuiltIff(p, traceId, now, extracted);
      if multiset(sent) == multiset(carried) {
        SameHeadersSameNames(p, carried);
      }
    }
  }

  lemma IdentityIsDistinct(p: Projection)
    ensures DistinctNames(IdentityHeaders(p))
  {
    SlotsAreIdentity(p);
  }

  /**
   However the sent headers are reordered, mixed with others and changed in the letter case of their
   names, the receiver finds the key id, the timestamp and the trace id. It rebuilds the payload that
   was signed, and then accepts the signature, exactly when no identity header's name changed; values
   are taken to be single lines, as section 5.5 of RFC 9110 has them.
   */
  lemma RecasedRoundTrip(c: Crypto, p: Projection, signing: Signing, traceId: string, now: nat,
                         identity: seq<Header>, protocol: seq<Header>, request: seq<Header>)
    requires Correct(c) && now <= U64_MAX && Arrives(identity + protocol, request)
    requires Recased(IdentityHeaders(p), identity)
    requires Recased(ProtocolHeaders(c, signing, traceId, now, Payload(traceId, now, IdentityHeaders(p))), protocol)
    ensures Finds(signing, traceId, now, request)
    ensures multiset(ExtractCredential(request).value.identityHeaders) == multiset(identity)
    ensures SameNames(IdentityHeaders(p), identity) ==> Recovers(c, p, signing, traceId, now, request)
    ensures OneLiners(traceId, IdentityHeaders(p)) ==>
      (SameNames(IdentityHeaders(p), identity) <==>
         Payload(traceId, now, ExtractCredential(request).value.identityHeaders) == Payload(traceId, now, IdentityHeaders(p)))
  {
    hide Payload, Filter, BearerToken, ApiKeyValue, FindHeader, ExtractCredential, Verifies, ProtocolHeaders, Correct,
      SignatureText, Decimal, IdentityHeaders, Recased, Wellnamed, SameNames, OneLiners;
    var payload := Payload(traceId, now, IdentityHeaders(p));
    RecasedIsWellnamed(c, p, signing, traceId, now, payload, identity, protocol);
    Delivered(c, signing, traceId, now, payload, identity, protocol, request);
    PayloadSurvivesIff(p, traceId, now, identity, Filter(IsIdentityHeader, request));
    if SameNames(IdentityHeaders(p), identity) {
      SameNamesSameHeaders(p, identity);
      SignatureIsAccepted(c, signing.key, ExtractCredential(request).value);
    }
  }

  // ----- Letter case is lost on a real request -----

  lemma {:induction false} NotAmong(headers: seq<Header>, name: string)
    requires forall h :: h in headers ==> !SameName(h.name, name)
    ensures FindHeader(headers, name).None?
  {
    if headers != [] {
      assert headers[0] in headers;
      NotAmong(headers[1..], name);
    }
  }

  lemma {:induction false} FilterAll(p: Header -> bool, hs: seq<Header>)
    requires forall h :: h in hs ==> p(h)
    ensures Filter(p, hs) == hs
  {
    if hs != [] {
      assert hs[0] in hs;
      FilterAll(p, hs[1..]);
    }
  }

  lemma NotForgeGuard(h: Header)
    requires IsFg(h)
    ensures !SameName(h.name, "authorization") && !SameName(h.name, "x-api-key")
  {
    assert Lower(h.name)[2] == X_FG_PREFIX[2] == 'f';
    assert Lower("authorization")[2] == 't' && Lower("x-api-key")[2] == 'a';
  }

  /** A request of nothing but a signed message's headers arrives. */
  lemma WellnamedArrives(identity: seq<Header>, protocol: seq<Header>)
    requires Wellnamed(identity, protocol)
    ensures Arrives(identity + protocol, identity + protocol)
  {
    var request := identity + protocol;
    hide Lower;
    forall h | h in request
      ensures IsFg(h) && !SameName(h.name, "authorization") && !SameName(h.name, "x-api-key")
    {
      NameClasses(h);
      NotForgeGuard(h);
    }
    FilterAll(IsFg, request);
    NotAmong(request, "authorization");
    NotAmong(request, "x-api-key");
  }

  const RECASED_USER_ID := "X-fg-user-id"

  /** The identity headers with one letter changed. */
  function RecasedIdentity(p: Projection): seq<Header> {
    var hs := IdentityHeaders(p);
    if hs == [] then [] else [Header(RECASED_USER_ID, p.userId)] + hs[1..]
  }

  lemma UserIdComesFirst(p: Projection)
    ensures IdentityHeaders(p) != [] && IdentityHeaders(p)[0] == Header(X_FG_USER_ID, p.userId)
  {
    var slots := Slots(p);
    FilledNothing(slots);
    FilledNext(slots, 0);
    assert Filled(slots[..1]) == [Header(X_FG_USER_ID, p.userId)];
    FilledGrows(slots, 1, |slots|);
    assert slots[..|slots|] == slots;
  }

  lemma {:induction false} FilledGrows(slots: seq<(string, Option<string>)>, m: nat, n: nat)
    requires m <= n <= |slots|
    ensures Filled(slots[..m]) <= Filled(slots[..n])
  {
    if m < n {
      FilledGrows(slots, m, n - 1);
      FilledNext(slots, n - 1);
    }
  }

  lemma RecasedUserId(p: Projection)
    ensures Recased(IdentityHeaders(p), RecasedIdentity(p)) && !SameNames(IdentityHeaders(p), RecasedIdentity(p))
  {
    UserIdComesFirst(p);
    var identity := RecasedIdentity(p);
    hide IdentityHeaders;
    forall i | 0 <= i < |X_FG_USER_ID|
      ensures Lower(X_FG_USER_ID)[i] == Lower(RECASED_USER_ID)[i]
    {
    }
    assert X_FG_USER_ID[0] == 'x' && RECASED_USER_ID[0] == 'X';
    assert IdentityHeaders(p)[0].name != identity[0].name;
  }

  /** Whoever is projected: a request with nothing changed but the first letter of one name is found to be
      signed, yet does not rebuild the payload that was signed. */
  lemma CaseMatters(c: Crypto, p: Projection, signing: Signing, traceId: string, now: nat)
    requires Correct(c) && now <= U64_MAX && OneLiners(traceId, IdentityHeaders(p))
    ensures var protocol := ProtocolHeaders(c, signing, traceId, now, Payload(traceId, now, IdentityHeaders(p)));
            var request := RecasedIdentity(p) + protocol;
            && Recased(SignedHeaders(c, p, signing, traceId, now), request) && Arrives(request, request)
            && Finds(signing, traceId, now, request)
            && Payload(traceId, now, ExtractCredential(request).value.identityHeaders) != Payload(traceId, now, IdentityHeaders(p))
  {
    var payload := Payload(traceId, now, IdentityHeaders(p));
    var identity := RecasedIdentity(p);
    var protocol := ProtocolHeaders(c, signing, traceId, now, payload);
    RecasedUserId(p);
    RecasedItself(protocol);
    RecasedJoins(IdentityHeaders(p), identity, protocol);
    hide IdentityHeaders, RecasedIdentity, Payload, ProtocolHeaders, Recased, SameNames, Arrives, ExtractCredential, OneLiners,
      Correct;
    RecasedIsWellnamed(c, p, signing, traceId, now, payload, identity, protocol);
    WellnamedArrives(identity, protocol);
    RecasedRoundTrip(c, p, signing, traceId, now, identity, protocol, identity + protocol);
  }

  lemma RecasedJoins(a: seq<Header>, b: seq<Header>, rest: seq<Header>)
    requires Recased(a, b)
    ensures Recased(a + rest, b + rest)
  {
  }

  lemma SameNamesSameHeaders(p: Projection, identity: seq<Header>)
    requires Recased(IdentityHeaders(p), identity) && SameNames(IdentityHeaders(p), identity)
    ensures identity == IdentityHeaders(p)
  {
  }

  /** The receiver takes the request for a signed one and finds who signed what and when. */
  ghost predicate Finds(signing: Signing, traceId: string, now: nat, request: seq<Header>) {
    var r := ExtractCredential(request);
    && r.Some? && r.value.SignedRequest?
    && r.value.keyId == signing.keyId && r.value.timestamp == now && r.value.traceId == traceId
  }

  /** The receiver also rebuilds the payload that was signed byte for byte, and accepts the signature. */
  ghost predicate Recovers(c: Crypto, p: Projection, signing: Signing, traceId: string, now: nat, request: seq<Header>) {
    var r := ExtractCredential(request);
    && Finds(signing, traceId, now, request)
    && multiset(r.value.identityHeaders) == multiset(IdentityHeaders(p))
    && Payload(traceId, now, r.value.identityHeaders) == Payload(traceId, now, IdentityHeaders(p))
    && Verifies(c, c.publicOf(signing.key), r.value)
  }

  /** However the sent headers are reordered and mixed with others, the receiver recovers the request. */
  lemma SignedRoundTrip(c: Crypto, p: Projection, signing: Signing, traceId: string, now: nat, request: seq<Header>)
    requires Correct(c) && now <= U64_MAX && Arrives(SignedHeaders(c, p, signing, traceId, now), request)
    ensures Recovers(c, p, signing, traceId, now, request)
  {
    hide Arrives, Recovers, Payload, IdentityHeaders, ProtocolHeaders, Recased;
    var identity := IdentityHeaders(p);
    var protocol := ProtocolHeaders(c, signing, traceId, now, Payload(traceId, now, identity));
    RecasedItself(identity);
    RecasedItself(protocol);
    RecasedRoundTrip(c, p, signing, traceId, now, identity, protocol, request);
  }

  /** The identity headers, followed by four protocol headers that sign them when there is a key: then
      every request in which they arrive is recovered. */
  method InjectSignedHeaders(c: Crypto, p: Projection, signing: Option<Signing>, traceId: string, now: nat)
    returns (headers: seq<Header>)
    ensures signing.None? ==> headers == IdentityHeaders(p)
    ensures signing.Some? ==> headers == SignedHeaders(c, p, signing.value, traceId, now)
    ensures signing.Some? && Correct(c) && now <= U64_MAX ==>
      forall request :: Arrives(headers, request) ==> Recovers(c, p, signing.value, traceId, now, request)
  {
    hide Arrives, Recovers, Correct, Payload, IdentityHeaders, SignatureText, Decimal;
    headers := InjectHeaders(p);
    if signing.Some? {
      var payload := BuildPayload(traceId, now, headers);
      var signature := c.sign(signing.value.key, payload);
      headers := headers + [Header(X_FG_TRACE_ID, traceId)];
      headers := headers + [Header(X_FG_TIMESTAMP, Decimal(now))];
      headers := headers + [Header(X_FG_KEY_ID, signing.value.keyId)];
      headers := headers + [Header(X_FG_SIGNATURE, SignatureText(c, signature))];
      assert headers == SignedHeaders(c, p, signing.value, traceId, now);
      hide SignedHeaders;
      forall request | Correct(c) && now <= U64_MAX && Arrives(headers, request)
        ensures Recovers(c, p, signing.value, traceId, now, request)
      {
        SignedRoundTrip(c, p, signing.value, traceId, now, request);
      }
    }
  }
}
