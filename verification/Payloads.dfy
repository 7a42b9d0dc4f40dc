/** The canonical byte payload that request signatures cover. */
module Payloads {
  import opened Text
  import opened Sorting

  datatype Header = Header(name: string, value: string)

  predicate NameLe(a: Header, b: Header) {
    Le(a.name, b.name)
  }

  function Line(h: Header): string {
    h.name + [':'] + h.value
  }

  function Lines(hs: seq<Header>): (r: seq<string>)
    ensures |r| == |hs| && forall i :: 0 <= i < |hs| ==> r[i] == Line(hs[i])
  {
    seq(|hs|, i requires 0 <= i < |hs| => Line(hs[i]))
  }

  const VERSION_LINE := "forgeguard-sig-v1"

  function Preamble(traceId: string, timestamp: nat): seq<string> {
    [VERSION_LINE, "trace-id:" + traceId, "timestamp:" + Decimal(timestamp)]
  }

  /** Every line followed by a newline. */
  function Terminated(lines: seq<string>): string {
    if lines == [] then "" else lines[0] + ['\n'] + Terminated(lines[1..])
  }

  /** The lines of a payload: version, trace id, timestamp, then the headers in order of their names. */
  function Payload(traceId: string, timestamp: nat, headers: seq<Header>): string {
    Terminated(Preamble(traceId, timestamp) + Lines(Sort(NameLe, headers)))
  }

  lemma {:induction false} TerminatedSnoc(lines: seq<string>, l: string)
    ensures Terminated(lines + [l]) == Terminated(lines) + l + ['\n']
  {
    if lines == [] {
      assert [l][1..] == [] && lines + [l] == [l];
    } else {
      assert (lines + [l])[1..] == lines[1..] + [l];
      TerminatedSnoc(lines[1..], l);
    }
  }

  lemma PreambleText(traceId: string, timestamp: nat)
    ensures Terminated(Preamble(traceId, timestamp)) ==
            VERSION_LINE + "\n" + ("trace-id:" + traceId + "\n") + ("timestamp:" + Decimal(timestamp) + "\n")
  {
    var p := Preamble(traceId, timestamp);
    TerminatedSnoc([], p[0]);
    TerminatedSnoc([p[0]], p[1]);
    TerminatedSnoc([p[0], p[1]], p[2]);
    assert [p[0]] + [p[1]] == [p[0], p[1]] && [p[0], p[1]] + [p[2]] == p && [] + [p[0]] == [p[0]];
  }

  /** Appends to one buffer, line by line. */
  method BuildPayload(traceId: string, timestamp: nat, headers: seq<Header>) returns (buf: string)
    ensures buf == Payload(traceId, timestamp, headers)
  {
    hide Terminated, Preamble, Sort;
    var sorted := Sort(NameLe, headers);
    buf := VERSION_LINE + "\n";
    buf := buf + ("trace-id:" + traceId + "\n");
    buf := buf + ("timestamp:" + Decimal(timestamp) + "\n");
    PreambleText(traceId, timestamp);
    ghost var preamble := Preamble(traceId, timestamp);
    assert preamble + Lines(sorted[..0]) == preamble;
    for i := 0 to |sorted|
      invariant buf == Terminated(preamble + Lines(sorted[..i]))
    {
      buf := buf + (sorted[i].name + ":" + sorted[i].value + "\n");
      TerminatedSnoc(preamble + Lines(sorted[..i]), Line(sorted[i]));
      assert preamble + Lines(sorted[..i + 1]) == preamble + Lines(sorted[..i]) + [Line(sorted[i])];
    }
    assert sorted[..|sorted|] == sorted;
  }

  // ----- Order does not matter -----

  /** The header lines stand in ascending order of their names, each header once. */
  lemma LinesAscend(headers: seq<Header>, i: nat, j: nat)
    requires i < j < |Sort(NameLe, headers)|
    ensures Le(Sort(NameLe, headers)[i].name, Sort(NameLe, headers)[j].name)
    ensures multiset(Sort(NameLe, headers)) == multiset(headers)
  {
    NameOrder();
    SortSorts(NameLe, headers);
  }

  lemma NameOrder()
    ensures TotalPreorder(NameLe)
  {
    forall a, b
      ensures NameLe(a, b) || NameLe(b, a)
    {
      LeTotal(a.name, b.name);
    }
    forall a, b, c | NameLe(a, b) && NameLe(b, c)
      ensures NameLe(a, c)
    {
      LeTransitive(a.name, b.name, c.name);
    }
  }

  ghost predicate DistinctNames(hs: seq<Header>) {
    forall a, b :: a in hs && b in hs && a.name == b.name ==> a == b
  }

  /** The payload forgets the order of headers with distinct names. */
  lemma PayloadForgetsOrder(traceId: string, timestamp: nat, a: seq<Header>, b: seq<Header>)
    requires multiset(a) == multiset(b) && DistinctNames(a)
    ensures Payload(traceId, timestamp, a) == Payload(traceId, timestamp, b)
  {
    NameOrder();
    forall x, y | x in a && y in a && NameLe(x, y) && NameLe(y, x)
      ensures x == y
    {
      LeAntisymmetric(x.name, y.name);
    }
    SortForgetsOrder(NameLe, a, b);
  }

  // ----- The payload determines what was signed -----

  lemma {:induction false} TerminatedIsJoin(lines: seq<string>)
    ensures Terminated(lines) == Join(lines + [""], '\n')
  {
    if lines == [] {
      assert [""] == lines + [""];
    } else {
      TerminatedIsJoin(lines[1..]);
      assert (lines + [""])[1..] == lines[1..] + [""];
    }
  }

  lemma TerminatedInjective(a: seq<string>, b: seq<string>)
    requires forall l :: l in a ==> '\n' !in l
    requires forall l :: l in b ==> '\n' !in l
    requires Terminated(a) == Terminated(b)
    ensures a == b
  {
    TerminatedIsJoin(a);
    TerminatedIsJoin(b);
    JoinInjective(a + [""], b + [""], '\n');
    assert a == (a + [""])[..|a|] && b == (b + [""])[..|b|];
  }

  /** A field name or value as sections 5.1 and 5.5 of RFC 9110 allow them. */
  ghost predicate Printable(h: Header) {
    ':' !in h.name && '\n' !in h.name && '\n' !in h.value
  }

  lemma LineInjective(a: Header, b: Header)
    requires Printable(a) && Printable(b) && Line(a) == Line(b)
    ensures a == b
  {
    FirstCutUnique(a.name, a.value, b.name, b.value, ':');
  }

  lemma PreambleHasNoNewline(traceId: string, timestamp: nat)
    requires '\n' !in traceId
    ensures forall l :: l in Preamble(traceId, timestamp) ==> '\n' !in l
  {
    assert '\n' !in Decimal(timestamp);
  }

  lemma PayloadLines(traceId: string, timestamp: nat, headers: seq<Header>)
    requires '\n' !in traceId && forall h :: h in headers ==> Printable(h)
    ensures forall l :: l in Preamble(traceId, timestamp) + Lines(Sort(NameLe, headers)) ==> '\n' !in l
  {
    var sorted := Sort(NameLe, headers);
    SameElements(headers, sorted);
    forall i | 0 <= i < |sorted|
      ensures '\n' !in Line(sorted[i])
    {
      assert sorted[i] in sorted;
    }
    PreambleHasNoNewline(traceId, timestamp);
  }

  /** Equal payloads were built from the same trace id, the same timestamp and the same headers. */
  lemma PayloadDetermines(t1: string, ts1: nat, h1: seq<Header>, t2: string, ts2: nat, h2: seq<Header>)
    requires '\n' !in t1 && '\n' !in t2
    requires (forall h :: h in h1 ==> Printable(h)) && (forall h :: h in h2 ==> Printable(h))
    requires Payload(t1, ts1, h1) == Payload(t2, ts2, h2)
    ensures t1 == t2 && ts1 == ts2
    ensures Sort(NameLe, h1) == Sort(NameLe, h2) && multiset(h1) == multiset(h2)
  {
    var a, b := Sort(NameLe, h1), Sort(NameLe, h2);
    var x, y := Preamble(t1, ts1) + Lines(a), Preamble(t2, ts2) + Lines(b);
    PayloadLines(t1, ts1, h1);
    PayloadLines(t2, ts2, h2);
    TerminatedInjective(x, y);
    PreambleDetermines(t1, ts1, t2, ts2, x, y);
    SameElements(h1, a);
    SameElements(h2, b);
    assert Lines(a) == x[3..] == y[3..] == Lines(b);
    forall i | 0 <= i < |a|
      ensures a[i] == b[i]
    {
      assert Lines(a)[i] == Lines(b)[i];
      assert a[i] in a && b[i] in b;
      LineInjective(a[i], b[i]);
    }
  }

  lemma PreambleDetermines(t1: string, ts1: nat, t2: string, ts2: nat, x: seq<string>, y: seq<string>)
    requires Preamble(t1, ts1) <= x && Preamble(t2, ts2) <= y && x == y
    ensures t1 == t2 && ts1 == ts2
  {
    assert x[1] == "trace-id:" + t1 && y[1] == "trace-id:" + t2;
    assert x[2] == "timestamp:" + Decimal(ts1) && y[2] == "timestamp:" + Decimal(ts2);
    assert t1 == x[1][|"trace-id:"|..] && t2 == y[1][|"trace-id:"|..];
    assert Decimal(ts1) == x[2][|"timestamp:"|..] && Decimal(ts2) == y[2][|"timestamp:"|..];
    DecimalDenotes(ts1);
    DecimalDenotes(ts2);
  }

  /** Payloads of printable headers, one side under distinct names, agree exactly when trace id, timestamp
      and headers do, in any order. */
  lemma PayloadsEqualIff(t1: string, ts1: nat, h1: seq<Header>, t2: string, ts2: nat, h2: seq<Header>)
    requires '\n' !in t1 && '\n' !in t2
    requires (forall h :: h in h1 ==> Printable(h)) && (forall h :: h in h2 ==> Printable(h)) && DistinctNames(h2)
    ensures Payload(t1, ts1, h1) == Payload(t2, ts2, h2) <==> t1 == t2 && ts1 == ts2 && multiset(h1) == multiset(h2)
  {
    hide Payload, Sort;
    if Payload(t1, ts1, h1) == Payload(t2, ts2, h2) {
      PayloadDetermines(t1, ts1, h1, t2, ts2, h2);
    } else if multiset(h1) == multiset(h2) {
      PayloadForgetsOrder(t2, ts2, h2, h1);
    }
  }
}
