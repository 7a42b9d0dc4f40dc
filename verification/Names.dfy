/** Names: segments, native ids, FGRNs and the Cedar identifiers derived from them. */
module Names {
  import opened Wrappers
  import opened Text

  // ----- Segments and native ids -----

  predicate IsLower(c: char) {
    'a' <= c <= 'z'
  }

  predicate IsSegmentChar(c: char) {
    IsLower(c) || IsDigit(c) || c == '-'
  }

  /** Lowercase letters, digits and hyphens; no hyphen first or last and no two in a row. */
  predicate IsSegment(s: string) {
    && s != []
    && (IsLower(s[0]) || IsDigit(s[0]))
    && s[|s| - 1] != '-'
    && (forall i :: 0 <= i < |s| - 1 ==> !(s[i] == '-' && s[i + 1] == '-'))
    && (forall i :: 0 <= i < |s| ==> IsSegmentChar(s[i]))
  }

  predicate IsNativeIdChar(c: char) {
    '!' <= c <= '~' && c != ':' && c != '*'
  }

  predicate IsNativeId(s: string) {
    s != [] && forall i :: 0 <= i < |s| ==> IsNativeIdChar(s[i])
  }

  // ----- FGRNs -----

  datatype Kind = OrgUnit | Principal | PrincipalSet | Resource

  function KindName(k: Kind): string {
    match k
    case OrgUnit => "orgunit"
    case Principal => "principal"
    case PrincipalSet => "principal-set"
    case Resource => "resource"
  }

  function ParseKind(s: string): Option<Kind> {
    if s == "orgunit" then Some(OrgUnit)
    else if s == "principal" then Some(Principal)
    else if s == "principal-set" then Some(PrincipalSet)
    else if s == "resource" then Some(Resource)
    else None
  }

  /** A resource's id is its type, a slash and the application's own id, which may hold further slashes. */
  datatype Fgrn = Fgrn(organization: string, kind: Kind, id: string)

  predicate ValidFgrn(f: Fgrn) {
    && IsSegment(f.organization)
    && IsNativeId(f.id)
    && (f.kind.Resource? ==>
          var (before, after) := CutAt(f.id, '/');
          after.Some? && IsSegment(before) && IsNativeId(after.value))
  }

  /** What precedes the first separator, and what follows it if there is one. */
  function CutAt(s: string, sep: char): (string, Option<string>) {
    if s == [] then ("", None)
    else if s[0] == sep then ("", Some(s[1..]))
    else
      var (before, after) := CutAt(s[1..], sep);
      ([s[0]] + before, after)
  }

  function PrintFgrn(f: Fgrn): string {
    "fgrn" + [':'] + (f.organization + [':'] + (KindName(f.kind) + [':'] + f.id))
  }

  /** Splits at the first three colons, as `splitn(4, ':')` does, and validates each part. */
  function ParseFgrn(s: string): Option<Fgrn> {
    var (scheme, r1) := CutAt(s, ':');
    if r1.None? then None else
    var (organization, r2) := CutAt(r1.value, ':');
    if r2.None? then None else
    var (kindName, r3) := CutAt(r2.value, ':');
    if r3.None? || scheme != "fgrn" then None else
    var kind := ParseKind(kindName);
    if !IsSegment(organization) || kind.None? then None else
    var f := Fgrn(organization, kind.value, r3.value);
    if ValidFgrn(f) then Some(f) else None
  }

  lemma {:induction false} CutOfJoin(a: string, sep: char, b: string)
    requires sep !in a
    ensures CutAt(a + [sep] + b, sep) == (a, Some(b))
  {
    var s := a + [sep] + b;
    if a == [] {
      assert s[1..] == b;
    } else {
      assert s[1..] == a[1..] + [sep] + b;
      CutOfJoin(a[1..], sep, b);
      assert a == [a[0]] + a[1..];
    }
  }

  lemma {:induction false} JoinOfCut(s: string, sep: char)
    ensures var (before, after) := CutAt(s, sep);
            && sep !in before
            && s == (if after.Some? then before + [sep] + after.value else before)
  {
    if s != [] && s[0] != sep {
      JoinOfCut(s[1..], sep);
      assert s == [s[0]] + s[1..];
    }
  }

  lemma SegmentHasNo(s: string, c: char)
    requires IsSegment(s) && !IsSegmentChar(c)
    ensures c !in s
  {
  }

  lemma KindRoundTrip(k: Kind, s: string)
    ensures ParseKind(KindName(k)) == Some(k) && ':' !in KindName(k)
    ensures ParseKind(s).Some? ==> KindName(ParseKind(s).value) == s
  {
    assert "orgunit" != "principal" && "orgunit"[0] != "principal"[0];
    assert |"principal"| != |"principal-set"|;
    assert "resource"[0] == 'r';
  }

  /** Every FGRN is recovered from its printed form. */
  lemma ParseOfPrint(f: Fgrn)
    requires ValidFgrn(f)
    ensures ParseFgrn(PrintFgrn(f)) == Some(f)
  {
    var tail := KindName(f.kind) + [':'] + f.id;
    KindRoundTrip(f.kind, "");
    SegmentHasNo(f.organization, ':');
    CutOfJoin("fgrn", ':', f.organization + [':'] + tail);
    CutOfJoin(f.organization, ':', tail);
    CutOfJoin(KindName(f.kind), ':', f.id);
  }

  /** Only the canonical form of a valid FGRN parses, so printed forms identify FGRNs. */
  lemma PrintOfParse(s: string)
    requires ParseFgrn(s).Some?
    ensures ValidFgrn(ParseFgrn(s).value) && PrintFgrn(ParseFgrn(s).value) == s
  {
    var (scheme, r1) := CutAt(s, ':');
    var (organization, r2) := CutAt(r1.value, ':');
    var (kindName, r3) := CutAt(r2.value, ':');
    JoinOfCut(s, ':');
    JoinOfCut(r1.value, ':');
    JoinOfCut(r2.value, ':');
    KindRoundTrip(OrgUnit, kindName);
  }

  function ResourceFgrn(organization: string, resourceType: string, nativeId: string): Fgrn {
    Fgrn(organization, Resource, resourceType + ['/'] + nativeId)
  }

  function ResourceParts(f: Fgrn): Option<(string, string)> {
    if f.kind.Resource? then
      var (before, after) := CutAt(f.id, '/');
      if after.Some? then Some((before, after.value)) else None
    else None
  }

  /** The resource builder never leaves the valid FGRNs, and its parts come back even when the
      native id holds slashes of its own. */
  lemma ResourceRoundTrip(organization: string, resourceType: string, nativeId: string)
    requires IsSegment(organization) && IsSegment(resourceType) && IsNativeId(nativeId)
    ensures ValidFgrn(ResourceFgrn(organization, resourceType, nativeId))
    ensures ResourceParts(ResourceFgrn(organization, resourceType, nativeId)) == Some((resourceType, nativeId))
  {
    SegmentHasNo(resourceType, '/');
    CutOfJoin(resourceType, '/', nativeId);
    assert forall i :: 0 <= i < |resourceType| ==> IsSegmentChar(resourceType[i]) ==> IsNativeIdChar(resourceType[i]);
  }

  // ----- Cedar identifiers -----

  predicate IsIdentStart(c: char) {
    c == '_' || IsLower(c) || 'A' <= c <= 'Z'
  }

  predicate IsCedarIdent(s: string) {
    && s != []
    && IsIdentStart(s[0])
    && forall i :: 0 <= i < |s| ==> IsIdentStart(s[i]) || IsDigit(s[i])
  }

  function ToCedarIdent(s: string): (r: string)
    ensures |r| == |s| && forall i :: 0 <= i < |s| ==> r[i] == if s[i] == '-' then '_' else s[i]
  {
    if s == [] then [] else [if s[0] == '-' then '_' else s[0]] + ToCedarIdent(s[1..])
  }

  /** A segment becomes a Cedar identifier exactly when it does not start with a digit. */
  lemma CedarIdentIff(s: string)
    requires IsSegment(s)
    ensures IsCedarIdent(ToCedarIdent(s)) <==> !IsDigit(s[0])
  {
    var r := ToCedarIdent(s);
    assert r[0] == s[0];
    forall i | 0 <= i < |r|
      ensures IsIdentStart(r[i]) || IsDigit(r[i])
    {
      assert IsSegmentChar(s[i]);
    }
  }

  lemma DigitFirstSegmentIsNoIdent()
    ensures IsSegment("9lives") && !IsCedarIdent(ToCedarIdent("9lives"))
  {
    var s := "9lives";
    assert ToCedarIdent(s)[0] == '9';
  }

  function CedarEntityType(namespace: string, entity: string): string {
    ToCedarIdent(namespace) + "__" + ToCedarIdent(entity)
  }

  lemma ToCedarIdentInjective(a: string, b: string)
    requires IsSegment(a) && IsSegment(b) && ToCedarIdent(a) == ToCedarIdent(b)
    ensures a == b
  {
    hide ToCedarIdent;
    assert forall i :: 0 <= i < |a| ==> IsSegmentChar(a[i]);
    assert forall i :: 0 <= i < |b| ==> IsSegmentChar(b[i]);
    hide IsSegment;
    forall i | 0 <= i < |a|
      ensures a[i] == b[i]
    {
      assert ToCedarIdent(a)[i] == ToCedarIdent(b)[i];
    }
  }

  /** The separator is the first double underscore, because hyphens do not repeat and do not end a segment. */
  lemma NoDoubleBefore(namespace: string, entity: string, i: nat)
    requires IsSegment(namespace) && IsSegment(entity)
    requires i < |namespace|
    ensures var t := CedarEntityType(namespace, entity); !(t[i] == '_' && t[i + 1] == '_')
  {
    var t := CedarEntityType(namespace, entity);
    assert t[i] == ToCedarIdent(namespace)[i] && IsSegmentChar(namespace[i]);
    if i + 1 < |namespace| {
      assert t[i + 1] == ToCedarIdent(namespace)[i + 1] && IsSegmentChar(namespace[i + 1]);
    }
  }

  lemma SeparatorPosition(n1: string, e1: string, n2: string, e2: string)
    requires IsSegment(n1) && IsSegment(e1) && IsSegment(n2) && IsSegment(e2)
    requires CedarEntityType(n1, e1) == CedarEntityType(n2, e2)
    ensures |n1| >= |n2|
  {
    if |n1| < |n2| {
      var t := CedarEntityType(n1, e1);
      assert t[|n1|] == '_' && t[|n1| + 1] == '_';
      NoDoubleBefore(n2, e2, |n1|);
    }
  }

  /** An entity type names one namespace and one entity. */
  lemma CedarEntityTypeInjective(n1: string, e1: string, n2: string, e2: string)
    requires IsSegment(n1) && IsSegment(e1) && IsSegment(n2) && IsSegment(e2)
    requires CedarEntityType(n1, e1) == CedarEntityType(n2, e2)
    ensures n1 == n2 && e1 == e2
  {
    hide IsSegment;
    SeparatorPosition(n1, e1, n2, e2);
    SeparatorPosition(n2, e2, n1, e1);
    var t := CedarEntityType(n1, e1);
    assert ToCedarIdent(n1) == t[..|n1|] && ToCedarIdent(n2) == t[..|n2|];
    assert ToCedarIdent(e1) == t[|n1| + 2..] && ToCedarIdent(e2) == t[|n2| + 2..];
    ToCedarIdentInjective(n1, n2);
    ToCedarIdentInjective(e1, e2);
  }

  // ----- Action ids -----

  function VpActionId(namespace: string, entity: string, action: string): string {
    namespace + ['-'] + (entity + ['-'] + action)
  }

  /** Hyphens inside segments make two different actions share one id. */
  lemma VpActionIdCollides()
    ensures IsSegment("a-b") && IsSegment("a") && IsSegment("b-c") && IsSegment("c") && IsSegment("d")
    ensures VpActionId("a-b", "c", "d") == VpActionId("a", "b-c", "d")
  {
    assert VpActionId("a-b", "c", "d") == "a-b-c-d";
    assert VpActionId("a", "b-c", "d") == "a-b-c-d";
  }

  function Words(s: string): seq<string> {
    Split(s, '-')
  }

  lemma {:induction false} SplitOfConcat(a: string, b: string, sep: char)
    ensures Split(a + [sep] + b, sep) == Split(a, sep) + Split(b, sep)
  {
    var s := a + [sep] + b;
    if a == [] {
      assert s[1..] == b;
    } else {
      assert s[1..] == a[1..] + [sep] + b;
      SplitOfConcat(a[1..], b, sep);
    }
  }

  lemma WordsOfActionId(namespace: string, entity: string, action: string)
    ensures Words(VpActionId(namespace, entity, action)) == Words(namespace) + Words(entity) + Words(action)
  {
    SplitOfConcat(namespace, entity + ['-'] + action, '-');
    SplitOfConcat(entity, action, '-');
    assert Words(namespace) + (Words(entity) + Words(action)) == Words(namespace) + Words(entity) + Words(action);
  }

  lemma WordsDetermine(a: string, b: string)
    requires Words(a) == Words(b)
    ensures a == b
  {
    JoinOfSplit(a, '-');
    JoinOfSplit(b, '-');
  }

  /** Two actions with one id are the same action exactly when their namespaces have equally many
      hyphens and so have their entities. */
  lemma VpActionIdIdentifiesIff(n1: string, e1: string, a1: string, n2: string, e2: string, a2: string)
    requires VpActionId(n1, e1, a1) == VpActionId(n2, e2, a2)
    ensures (n1 == n2 && e1 == e2 && a1 == a2) <==> (|Words(n1)| == |Words(n2)| && |Words(e1)| == |Words(e2)|)
  {
    WordsOfActionId(n1, e1, a1);
    WordsOfActionId(n2, e2, a2);
    if |Words(n1)| == |Words(n2)| && |Words(e1)| == |Words(e2)| {
      var ws := Words(VpActionId(n1, e1, a1));
      var i, j := |Words(n1)|, |Words(n1)| + |Words(e1)|;
      assert Words(n1) == ws[..i] == Words(n2);
      assert Words(e1) == ws[i..j] == Words(e2);
      assert Words(a1) == ws[j..] == Words(a2);
      WordsDetermine(n1, n2);
      WordsDetermine(e1, e2);
      WordsDetermine(a1, a2);
    }
  }
}
