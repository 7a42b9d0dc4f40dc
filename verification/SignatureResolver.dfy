/** The receiver of signed requests: from a credential to a machine identity. */
module SignatureResolver {
  import opened Wrappers
  import opened Text
  import opened Names
  import opened Payloads
  import opened SignedRequests

  /** The public key stored for an organization and a key id, and how far clocks may differ. */
  datatype Receiver = Receiver(keyOf: (string, string) -> Option<string>, maxDrift: nat)

  datatype Machine = Machine(userId: string, tenantId: string)

  datatype ResolveError = MissingOrgId | NoSuchKey | InvalidCredential | SignatureInvalid | TimestampDrift(diff: nat)

  function Difference(a: nat, b: nat): nat {
    if a <= b then b - a else a - b
  }

  /** The organization is found first, then its key; signature, clock and names are checked in this order. */
  function VerifySignedRequest(c: Crypto, receiver: Receiver, clock: nat, cred: Credential): Result<Machine, ResolveError>
    requires cred.SignedRequest?
  {
    var org := FindHeader(cred.identityHeaders, X_FG_ORG_ID);
    if org.None? then Err(MissingOrgId) else
    var key := receiver.keyOf(org.value, cred.keyId);
    if key.None? then Err(NoSuchKey) else
    var sig := ParseSignature(c, cred.signature);
    if sig.None? then Err(InvalidCredential) else
    if !c.verify(key.value, Payload(cred.traceId, cred.timestamp, cred.identityHeaders), sig.value) then Err(SignatureInvalid) else
    var diff := Difference(cred.timestamp, clock);
    if diff > receiver.maxDrift then Err(TimestampDrift(diff)) else
    if !IsSegment(cred.keyId) || !IsSegment(org.value) then Err(InvalidCredential) else
    Ok(Machine(cred.keyId, org.value))
  }

  // ----- Every answer -----

  /** A request is resolved exactly when it names an organization with the key on file, the key verifies the
      signature over what arrived, the timestamp is close to the clock, and both names are valid. */
  lemma ResolvedIff(c: Crypto, receiver: Receiver, clock: nat, cred: Credential, m: Machine)
    requires cred.SignedRequest?
    ensures VerifySignedRequest(c, receiver, clock, cred) == Ok(m) <==>
      && FindHeader(cred.identityHeaders, "x-fg-org-id") == Some(m.tenantId) && cred.keyId == m.userId
      && receiver.keyOf(m.tenantId, m.userId).Some?
      && Verifies(c, receiver.keyOf(m.tenantId, m.userId).value, cred)
      && cred.timestamp <= clock + receiver.maxDrift && clock <= cred.timestamp + receiver.maxDrift
      && IsSegment(m.userId) && IsSegment(m.tenantId)
  {
    hide FindHeader, IsSegment, Payload, ParseSignature;
  }

  /** Which check refuses a request. */
  lemma RefusedIff(c: Crypto, receiver: Receiver, clock: nat, cred: Credential)
    requires cred.SignedRequest?
    ensures var r := VerifySignedRequest(c, receiver, clock, cred);
            var org := FindHeader(cred.identityHeaders, "x-fg-org-id");
            && (r == Err(MissingOrgId) <==> org.None?)
            && (org.Some? ==>
                  var key := receiver.keyOf(org.value, cred.keyId);
                  && (r == Err(NoSuchKey) <==> key.None?)
                  && (key.Some? ==>
                        && (r == Err(SignatureInvalid) <==>
                              ParseSignature(c, cred.signature).Some? && !Verifies(c, key.value, cred))
                        && (r.Err? && r.error.TimestampDrift? <==>
                              Verifies(c, key.value, cred) && !(clock - receiver.maxDrift <= cred.timestamp <= clock + receiver.maxDrift))
                        && (r == Err(InvalidCredential) <==>
                              || ParseSignature(c, cred.signature).None?
                              || (Verifies(c, key.value, cred) && !(r.Err? && r.error.TimestampDrift?) &&
                                  !(IsSegment(cred.keyId) && IsSegment(org.value))))))
  {
    hide FindHeader, IsSegment, Payload, ParseSignature;
  }

  /** A signature over one text verifies no other. */
  ghost predicate Binding(c: Crypto) {
    forall key, m, n :: c.verify(c.publicOf(key), m, c.sign(key, n)) ==> m == n
  }

  /** With such signatures, a request that is resolved under the signer's key carries exactly the headers,
      trace id and timestamp that were signed: nothing was changed, added or dropped on the way. */
  lemma ResolvedIsUntampered(c: Crypto, receiver: Receiver, clock: nat, cred: Credential, m: Machine, signing: Signing,
                             hs: seq<Header>, traceId: string, now: nat)
    requires Correct(c) && Binding(c) && cred.SignedRequest?
    requires cred.signature == SignatureText(c, c.sign(signing.key, Payload(traceId, now, hs)))
    requires VerifySignedRequest(c, receiver, clock, cred) == Ok(m)
    requires receiver.keyOf(m.tenantId, m.userId) == Some(c.publicOf(signing.key))
    requires '\n' !in traceId && '\n' !in cred.traceId
    requires (forall h :: h in hs ==> Printable(h)) && forall h :: h in cred.identityHeaders ==> Printable(h)
    ensures cred.traceId == traceId && cred.timestamp == now && multiset(cred.identityHeaders) == multiset(hs)
  {
    ResolvedIff(c, receiver, clock, cred, m);
    var sig := c.sign(signing.key, Payload(traceId, now, hs));
    assert SignatureText(c, sig)[|SIGNATURE_PREFIX|..] == c.encode(sig);
    hide Payload, VerifySignedRequest, FindHeader, IsSegment;
    assert ParseSignature(c, cred.signature) == Some(sig);
    PayloadDetermines(cred.traceId, cred.timestamp, cred.identityHeaders, traceId, now, hs);
  }

  // ----- Any signer -----

  /** Identity headers that differ in their names, in any letter case. */
  ghost predicate AreIdentity(hs: seq<Header>) {
    && (forall h :: h in hs ==> IsIdentityHeader(h))
    && (forall a, b :: a in hs && b in hs && SameName(a.name, b.name) ==> a == b)
  }

  /** The headers of a signer, and four that sign them. */
  function Signed(c: Crypto, hs: seq<Header>, signing: Signing, traceId: string, now: nat): seq<Header> {
    hs + ProtocolHeaders(c, signing, traceId, now, Payload(traceId, now, hs))
  }

  lemma ProtocolIsNamed(c: Crypto, signing: Signing, traceId: string, now: nat, payload: string, hs: seq<Header>)
    requires AreIdentity(hs)
    ensures Wellnamed(hs, ProtocolHeaders(c, signing, traceId, now, payload))
  {
    NamesApart();
    LowerProtocolNames();
    hide Lower, SignatureText, Decimal;
  }

  /** A lookup does not depend on the order of headers that differ in their names. */
  lemma FindInAnyOrder(sent: seq<Header>, arrived: seq<Header>, name: string)
    requires multiset(sent) == multiset(arrived)
    requires forall a, b :: a in sent && b in sent && SameName(a.name, b.name) ==> a == b
    ensures FindHeader(arrived, name) == FindHeader(sent, name)
  {
    assert forall h :: h in sent <==> h in multiset(sent);
    assert forall h :: h in arrived <==> h in multiset(arrived);
    if h :| h in sent && SameName(h.name, name) {
      FindOnly(sent, h);
      FindOnly(arrived, h);
      FindIgnoresCase(sent, h.name, name);
      FindIgnoresCase(arrived, h.name, name);
    } else {
      NotAmong(sent, name);
      NotAmong(arrived, name);
    }
  }

  /** What the receiver makes of a request whose signature is in order. */
  function Expected(receiver: Receiver, clock: nat, hs: seq<Header>, keyId: string, now: nat): Result<Machine, ResolveError> {
    var org := FindHeader(hs, X_FG_ORG_ID);
    if org.None? then Err(MissingOrgId)
    else if Difference(now, clock) > receiver.maxDrift then Err(TimestampDrift(Difference(now, clock)))
    else if !IsSegment(keyId) || !IsSegment(org.value) then Err(InvalidCredential)
    else Ok(Machine(keyId, org.value))
  }

  /** The receiver has the signer's key on file for the organization that is named, if one is. */
  ghost predicate Knows(c: Crypto, receiver: Receiver, hs: seq<Header>, signing: Signing) {
    var org := FindHeader(hs, X_FG_ORG_ID);
    org.Some? ==> receiver.keyOf(org.value, signing.keyId) == Some(c.publicOf(signing.key))
  }

  lemma SameOrgId(hs: seq<Header>, arrived: seq<Header>)
    requires AreIdentity(hs) && multiset(arrived) == multiset(hs)
    ensures FindHeader(arrived, X_FG_ORG_ID) == FindHeader(hs, X_FG_ORG_ID) && DistinctNames(hs)
  {
    FindInAnyOrder(hs, arrived, X_FG_ORG_ID);
  }

  lemma CredentialIsResolved(c: Crypto, receiver: Receiver, clock: nat, hs: seq<Header>, signing: Signing, cred: Credential)
    requires Correct(c) && AreIdentity(hs) && Knows(c, receiver, hs, signing)
    requires cred.SignedRequest? && cred.keyId == signing.keyId && multiset(cred.identityHeaders) == multiset(hs)
    requires cred.signature == SignatureText(c, c.sign(signing.key, Payload(cred.traceId, cred.timestamp, hs)))
    ensures VerifySignedRequest(c, receiver, clock, cred) == Expected(receiver, clock, hs, signing.keyId, cred.timestamp)
  {
    SameOrgId(hs, cred.identityHeaders);
    PayloadForgetsOrder(cred.traceId, cred.timestamp, hs, cred.identityHeaders);
    hide Payload, AreIdentity, Correct, IsSegment, FindHeader, DistinctNames;
    SignatureIsAccepted(c, signing.key, cred);
  }

  /**
   Whatever identity headers a signer signs, and however the request is reordered and mixed with other
   headers: a receiver that knows the key resolves it to the key id and the signed organization exactly
   when an organization is named, the clocks are close enough and both names are valid; otherwise it
   reports the first of these that fails.
   */
  lemma SignedIsResolved(c: Crypto, receiver: Receiver, clock: nat, hs: seq<Header>, signing: Signing, traceId: string,
                         now: nat, request: seq<Header>)
    requires Correct(c) && now <= U64_MAX && AreIdentity(hs) && Knows(c, receiver, hs, signing)
    requires Arrives(Signed(c, hs, signing, traceId, now), request)
    ensures var r := ExtractCredential(request);
            && r.Some? && r.value.SignedRequest?
            && VerifySignedRequest(c, receiver, clock, r.value) == Expected(receiver, clock, hs, signing.keyId, now)
  {
    hide AreIdentity, Knows, Correct, Arrives, Payload, ProtocolHeaders, ExtractCredential, Filter, SignatureText,
      VerifySignedRequest, Expected;
    var payload := Payload(traceId, now, hs);
    var protocol := ProtocolHeaders(c, signing, traceId, now, payload);
    ProtocolIsNamed(c, signing, traceId, now, payload, hs);
    RecasedItself(protocol);
    Delivered(c, signing, traceId, now, payload, hs, protocol, request);
    CredentialIsResolved(c, receiver, clock, hs, signing, ExtractCredential(request).value);
  }

  // ----- The projection's signer -----

  lemma OrgIdIsNotProjected(p: Projection, arrived: seq<Header>)
    requires multiset(arrived) == multiset(IdentityHeaders(p))
    ensures FindHeader(arrived, X_FG_ORG_ID).None?
  {
    SlotsAreIdentity(p);
    NamesApart();
    assert X_FG_ORG_ID[5..7] == "or" && IsLowercase(X_FG_ORG_ID);
    LowercaseStays(X_FG_ORG_ID);
    hide IdentityHeaders, Lower, FindHeader;
    forall h | h in arrived
      ensures !SameName(h.name, X_FG_ORG_ID)
    {
      assert h in multiset(arrived);
      assert h in IdentityHeaders(p);
      IdentityIsNamed(p, h);
    }
    NotAmong(arrived, X_FG_ORG_ID);
  }

  /** What the proxy injects is signed in order and yet refused, by every receiver: no organization is named. */
  lemma InjectedIsRefused(c: Crypto, receiver: Receiver, clock: nat, p: Projection, signing: Signing, traceId: string,
                          now: nat, request: seq<Header>)
    requires Correct(c) && now <= U64_MAX && Arrives(SignedHeaders(c, p, signing, traceId, now), request)
    ensures Recovers(c, p, signing, traceId, now, request)
    ensures VerifySignedRequest(c, receiver, clock, ExtractCredential(request).value) == Err(MissingOrgId)
  {
    hide Arrives, Payload, IdentityHeaders, ExtractCredential, Verifies, Correct;
    SignedRoundTrip(c, p, signing, traceId, now, request);
    OrgIdIsNotProjected(p, ExtractCredential(request).value.identityHeaders);
  }

  /** Conversely, a credential that any receiver resolves never has the payload of an injected projection,
      whatever was changed or added on the way. */
  lemma ResolvedWasNotInjected(c: Crypto, receiver: Receiver, clock: nat, cred: Credential, p: Projection, traceId: string, now: nat)
    requires cred.SignedRequest? && VerifySignedRequest(c, receiver, clock, cred).Ok?
    requires '\n' !in cred.traceId && forall h :: h in cred.identityHeaders ==> Printable(h)
    requires OneLiners(traceId, IdentityHeaders(p))
    ensures Payload(cred.traceId, cred.timestamp, cred.identityHeaders) != Payload(traceId, now, IdentityHeaders(p))
  {
    IdentityIsDistinct(p);
    hide Payload, IdentityHeaders, FindHeader, IsSegment;
    RecasedItself(IdentityHeaders(p));
    RecasedIsPrintable(p, IdentityHeaders(p), traceId);
    PayloadsEqualIff(cred.traceId, cred.timestamp, cred.identityHeaders, traceId, now, IdentityHeaders(p));
    if multiset(cred.identityHeaders) == multiset(IdentityHeaders(p)) {
      OrgIdIsNotProjected(p, cred.identityHeaders);
      assert false;
    }
  }

  /** A request can be resolved: for any organization and key with valid names, signing the organization
      alone is enough. */
  lemma OrgIdAloneResolves(c: Crypto, receiver: Receiver, org: string, signing: Signing, traceId: string, now: nat)
    requires Correct(c) && now <= U64_MAX && IsSegment(org) && IsSegment(signing.keyId)
    requires receiver.keyOf(org, signing.keyId) == Some(c.publicOf(signing.key))
    ensures var request := Signed(c, [Header(X_FG_ORG_ID, org)], signing, traceId, now);
            var r := ExtractCredential(request);
            && r.Some? && r.value.SignedRequest?
            && VerifySignedRequest(c, receiver, now, r.value) == Ok(Machine(signing.keyId, org))
  {
    hide Correct, Payload, ProtocolHeaders, ExtractCredential, VerifySignedRequest, IsSegment, FindHeader, Arrives,
      AreIdentity, Wellnamed;
    var hs := [Header(X_FG_ORG_ID, org)];
    OrgIdIsIdentity(org);
    ProtocolIsNamed(c, signing, traceId, now, Payload(traceId, now, hs), hs);
    WellnamedArrives(hs, ProtocolHeaders(c, signing, traceId, now, Payload(traceId, now, hs)));
    SignedIsResolved(c, receiver, now, hs, signing, traceId, now, Signed(c, hs, signing, traceId, now));
  }

  lemma OrgIdIsIdentity(org: string)
    ensures AreIdentity([Header(X_FG_ORG_ID, org)])
    ensures FindHeader([Header(X_FG_ORG_ID, org)], X_FG_ORG_ID) == Some(org)
  {
    NamesApart();
    LowerProtocolNames();
    assert X_FG_ORG_ID[5..7] == "or" && IsLowercase(X_FG_ORG_ID) && X_FG_PREFIX <= X_FG_ORG_ID;
    LowercaseStays(X_FG_ORG_ID);
    hide Lower;
  }
}
