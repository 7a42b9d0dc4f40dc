/** The sort keys of the event log and the range query behind `events_after`. */
module EventKeys {
  import opened Text
  import opened EventLog

  const SK_SEQ := "SEQ"
  const EVT_PREFIX := "EVT#"
  const LARGEST_SUFFIX := "99999999999999999999"
  const EVT_SK_MAX := EVT_PREFIX + LARGEST_SUFFIX
  const SEQ_WIDTH: nat := 20

  function ZeroPad(s: string, width: nat): (r: string)
    ensures |r| == if |s| < width then width else |s|
    decreases width - |s|
  {
    if |s| >= width then s else ZeroPad(['0'] + s, width)
  }

  function EventSk(revision: nat): string {
    EVT_PREFIX + ZeroPad(Decimal(revision), SEQ_WIDTH)
  }

  function SaturatingSucc(n: nat): nat {
    if n >= U64_MAX then U64_MAX else n + 1
  }

  // ----- Numerals of one length are ordered like their values -----

  function Pow10(n: nat): (r: nat)
    ensures r > 0
  {
    if n == 0 then 1 else 10 * Pow10(n - 1)
  }

  predicate IsNumeral(s: string) {
    forall c :: c in s ==> IsDigit(c)
  }

  lemma Shift(d: nat, p: nat, m: nat, last: nat)
    ensures (d * p + m) * 10 + last == d * (10 * p) + (m * 10 + last)
  {
    assert (d * p) * 10 == d * (10 * p);
  }

  lemma {:induction false} LeadingDigit(s: string)
    requires s != [] && IsNumeral(s)
    ensures NumeralValue(s) == DigitValue(s[0]) * Pow10(|s| - 1) + NumeralValue(s[1..])
  {
    if |s| == 1 {
      assert s[..0] == [] && s[1..] == [];
    } else {
      var init, last := s[..|s| - 1], DigitValue(s[|s| - 1]);
      assert s[1..][..|s| - 2] == init[1..] && s[1..][|s| - 2] == s[|s| - 1];
      assert NumeralValue(s) == NumeralValue(init) * 10 + last;
      assert NumeralValue(s[1..]) == NumeralValue(init[1..]) * 10 + last;
      assert Pow10(|s| - 1) == 10 * Pow10(|s| - 2);
      hide NumeralValue, Pow10, DigitValue;
      LeadingDigit(init);
      Shift(DigitValue(s[0]), Pow10(|s| - 2), NumeralValue(init[1..]), last);
    }
  }

  lemma {:induction false} NumeralBound(s: string)
    requires IsNumeral(s)
    ensures NumeralValue(s) < Pow10(|s|)
  {
    if s != [] {
      NumeralBound(s[..|s| - 1]);
    }
  }

  lemma DigitDecides(x: nat, u: nat, y: nat, v: nat, p: nat)
    requires u < p && v < p
    ensures x * p + u <= y * p + v <==> x < y || (x == y && u <= v)
  {
    if x < y {
      assert (x + 1) * p <= y * p;
    } else if y < x {
      assert (y + 1) * p <= x * p;
    }
  }

  lemma {:induction false} NumeralOrder(a: string, b: string)
    requires IsNumeral(a) && IsNumeral(b) && |a| == |b|
    ensures Le(a, b) <==> NumeralValue(a) <= NumeralValue(b)
  {
    if a != [] {
      LeadingDigit(a);
      LeadingDigit(b);
      NumeralBound(a[1..]);
      NumeralBound(b[1..]);
      NumeralOrder(a[1..], b[1..]);
      DigitDecides(DigitValue(a[0]), NumeralValue(a[1..]), DigitValue(b[0]), NumeralValue(b[1..]), Pow10(|a| - 1));
    }
  }

  lemma {:induction false} PaddingKeepsValue(s: string, width: nat)
    requires IsNumeral(s)
    ensures IsNumeral(ZeroPad(s, width)) && NumeralValue(ZeroPad(s, width)) == NumeralValue(s)
    decreases width - |s|
  {
    if |s| < width {
      LeadingDigit(['0'] + s);
      assert (['0'] + s)[1..] == s;
      PaddingKeepsValue(['0'] + s, width);
    }
  }

  lemma {:induction false} DecimalLength(n: nat, k: nat)
    requires 1 <= k && n < Pow10(k)
    ensures |Decimal(n)| <= k
  {
    if n >= 10 {
      DecimalLength(n / 10, k - 1);
    }
  }

  lemma SeqFitsWidth(n: nat)
    requires n <= U64_MAX
    ensures |Decimal(n)| <= SEQ_WIDTH
  {
    assert Pow10(5) == 100000;
    assert Pow10(10) == 10000000000;
    assert Pow10(15) == 1000000000000000;
    DecimalLength(n, SEQ_WIDTH);
  }

  /** On all unsigned 64-bit integers, the order of the sort keys is the order of the numbers. */
  lemma EventSkOrder(m: nat, n: nat)
    requires m <= U64_MAX && n <= U64_MAX
    ensures Le(EventSk(m), EventSk(n)) <==> m <= n
    ensures EventSk(m) == EventSk(n) <==> m == n
  {
    SeqFitsWidth(m);
    SeqFitsWidth(n);
    PaddingKeepsValue(Decimal(m), SEQ_WIDTH);
    PaddingKeepsValue(Decimal(n), SEQ_WIDTH);
    DecimalDenotes(m);
    DecimalDenotes(n);
    var a, b := ZeroPad(Decimal(m), SEQ_WIDTH), ZeroPad(Decimal(n), SEQ_WIDTH);
    NumeralOrder(a, b);
    LeAfterPrefix(EVT_PREFIX, a, b);
    if EventSk(m) == EventSk(n) {
      assert a == EventSk(m)[|EVT_PREFIX|..] == EventSk(n)[|EVT_PREFIX|..] == b;
    }
  }

  lemma {:induction false} NinesAreLast(s: string, nines: string)
    requires IsNumeral(s) && |s| == |nines| && forall i :: 0 <= i < |nines| ==> nines[i] == '9'
    ensures Le(s, nines)
  {
    if s != [] {
      assert s[0] in s;
      NinesAreLast(s[1..], nines[1..]);
    }
  }

  lemma EventSkBelowMax(n: nat)
    requires n <= U64_MAX
    ensures Le(EventSk(n), EVT_SK_MAX)
  {
    SeqFitsWidth(n);
    PaddingKeepsValue(Decimal(n), SEQ_WIDTH);
    assert |LARGEST_SUFFIX| == SEQ_WIDTH;
    NinesAreLast(ZeroPad(Decimal(n), SEQ_WIDTH), LARGEST_SUFFIX);
    LeAfterPrefix(EVT_PREFIX, ZeroPad(Decimal(n), SEQ_WIDTH), LARGEST_SUFFIX);
  }

  /** Whatever lies between two strings with a common prefix has that prefix too. */
  lemma {:induction false} BetweenSharesPrefix(p: string, a: string, b: string, x: string)
    requires Le(p + a, x) && Le(x, p + b)
    ensures p <= x
  {
    if p != [] {
      assert (p + a)[0] == p[0] == (p + b)[0];
      assert (p + a)[1..] == p[1..] + a && (p + b)[1..] == p[1..] + b;
      BetweenSharesPrefix(p[1..], a, b, x[1..]);
      assert x == [x[0]] + x[1..] && p == [p[0]] + p[1..];
    }
  }

  lemma RangeIsEventKeys(lo: nat, k: string)
    requires Le(EventSk(lo), k) && Le(k, EVT_SK_MAX)
    ensures EVT_PREFIX <= k && k != SK_SEQ
  {
    BetweenSharesPrefix(EVT_PREFIX, ZeroPad(Decimal(lo), SEQ_WIDTH), LARGEST_SUFFIX, k);
    assert k[0] == 'E' && SK_SEQ[0] == 'S';
  }

  /** A sort key is the prefix followed by twenty digits that denote the number. */
  lemma EventSkText(n: nat)
    requires n <= U64_MAX
    ensures |EventSk(n)| == 24 && EventSk(n)[..4] == "EVT#"
    ensures IsNumeral(EventSk(n)[4..]) && NumeralValue(EventSk(n)[4..]) == n
  {
    SeqFitsWidth(n);
    DecimalDenotes(n);
    PaddingKeepsValue(Decimal(n), SEQ_WIDTH);
    PaddedLength(Decimal(n), SEQ_WIDTH);
    assert EventSk(n)[4..] == ZeroPad(Decimal(n), SEQ_WIDTH);
  }

  lemma {:induction false} PaddedLength(s: string, width: nat)
    requires |s| <= width
    ensures |ZeroPad(s, width)| == width
    decreases width - |s|
  {
    if |s| < width {
      PaddedLength(['0'] + s, width);
    }
  }

  // ----- The organization's partition and the range query -----

  /** State items of the organization's partition keep out of the event key space. */
  ghost predicate StateKeysApart(items: map<Key, string>, orgPk: string) {
    forall key :: key in items && key.pk == orgPk ==> !(EVT_PREFIX <= key.sk)
  }

  ghost function SortKeys(t: Table, orgPk: string): set<string> {
    (if t.counter.Some? then {SK_SEQ} else {})
    + (set k | k in t.events :: EventSk(k))
    + (set key | key in t.items && key.pk == orgPk :: key.sk)
  }

  ghost predicate InRange(keys: set<string>, lo: string, hi: string, k: string) {
    k in keys && Le(lo, k) && Le(k, hi)
  }

  /** A page of a range query: the first matching keys in ascending order, at most `limit` of them and
      at least one if there is any. */
  ghost predicate IsPage(keys: set<string>, lo: string, hi: string, limit: nat, page: seq<string>) {
    && |page| <= limit
    && (forall i :: 0 <= i < |page| ==> InRange(keys, lo, hi, page[i]))
    && (forall i, j :: 0 <= i < j < |page| ==> Lt(page[i], page[j]))
    && (forall k :: InRange(keys, lo, hi, k) && k !in page ==> page != [] && forall i :: 0 <= i < |page| ==> Lt(page[i], k))
  }

  ghost predicate EventAt(t: Table, k: string, e: Envelope) {
    exists n :: n in t.events && EventSk(n) == k && t.events[n] == e
  }

  ghost predicate Decodes(t: Table, page: seq<string>, r: seq<Envelope>) {
    |r| == |page| && forall i :: 0 <= i < |r| ==> EventAt(t, page[i], r[i])
  }

  /** The reply of `events_after`: a page of the range from the saturated successor, decoded item by item. */
  ghost predicate IsEventsAfter(t: Table, orgPk: string, after: nat, limit: nat, r: seq<Envelope>) {
    exists page ::
      && IsPage(SortKeys(t, orgPk), EventSk(SaturatingSucc(after)), EVT_SK_MAX, limit, page)
      && Decodes(t, page, r)
  }
}
