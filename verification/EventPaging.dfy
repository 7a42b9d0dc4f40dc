/** Reading the log page by page while it grows. */
module EventPaging {
  import opened Text
  import opened EventLog
  import opened EventLogProofs
  import opened EventLogTheorems
  import opened EventKeys

  /** A partition whose events have 64-bit sequence numbers and whose state items keep out of the event key space. */
  ghost predicate WellStored(t: Table, orgPk: string) {
    && (forall k :: k in t.events ==> k <= U64_MAX)
    && StateKeysApart(t.items, orgPk)
  }

  /** From 1 on, the stored sequence numbers are those up to `last`. */
  ghost predicate StoredUpTo(t: Table, last: nat) {
    forall k: nat :: 1 <= k ==> (k in t.events <==> k <= last)
  }

  /** The query range from `lo` holds exactly the event keys from `lo` on; the counter's key is outside. */
  lemma RangeHoldsEvents(t: Table, orgPk: string, lo: nat, k: string)
    requires WellStored(t, orgPk) && lo <= U64_MAX
    ensures InRange(SortKeys(t, orgPk), EventSk(lo), EVT_SK_MAX, k)
            <==> exists n :: n in t.events && lo <= n && k == EventSk(n)
  {
    if InRange(SortKeys(t, orgPk), EventSk(lo), EVT_SK_MAX, k) {
      RangeIsEventKeys(lo, k);
      assert k in set n | n in t.events :: EventSk(n);
      var n :| n in t.events && k == EventSk(n);
      EventSkOrder(lo, n);
    }
    if exists n :: n in t.events && lo <= n && k == EventSk(n) {
      var n :| n in t.events && lo <= n && k == EventSk(n);
      EventSkOrder(lo, n);
      EventSkBelowMax(n);
    }
  }

  /** A page of revisions instead of keys. */
  ghost predicate IsRevisionPage(last: nat, lo: nat, limit: nat, ns: seq<nat>) {
    && |ns| <= limit
    && (forall i :: 0 <= i < |ns| ==> lo <= ns[i] <= last)
    && (forall i, j :: 0 <= i < j < |ns| ==> ns[i] < ns[j])
    && (forall n: nat :: lo <= n <= last && n !in ns ==> ns != [] && forall i :: 0 <= i < |ns| ==> ns[i] < n)
  }

  ghost function RevisionOf(t: Table, k: string): (n: nat)
    requires exists n :: n in t.events && k == EventSk(n)
    ensures n in t.events && k == EventSk(n)
  {
    var n :| n in t.events && k == EventSk(n);
    n
  }

  /** A page of the partition's sort keys is a page of revisions. */
  lemma PageOfRevisions(t: Table, orgPk: string, last: nat, lo: nat, limit: nat, page: seq<string>) returns (ns: seq<nat>)
    requires WellStored(t, orgPk) && StoredUpTo(t, last) && 1 <= lo <= U64_MAX
    requires IsPage(SortKeys(t, orgPk), EventSk(lo), EVT_SK_MAX, limit, page)
    ensures IsRevisionPage(last, lo, limit, ns)
    ensures |ns| == |page| && forall i :: 0 <= i < |ns| ==> ns[i] in t.events && page[i] == EventSk(ns[i])
  {
    forall i | 0 <= i < |page|
      ensures exists n :: n in t.events && lo <= n && page[i] == EventSk(n)
    {
      RangeHoldsEvents(t, orgPk, lo, page[i]);
    }
    ns := seq(|page|, i requires 0 <= i < |page| => RevisionOf(t, page[i]));
    forall i | 0 <= i < |ns|
      ensures lo <= ns[i]
    {
      RangeHoldsEvents(t, orgPk, lo, page[i]);
      var n :| n in t.events && lo <= n && page[i] == EventSk(n);
      EventSkOrder(n, ns[i]);
    }
    forall i, j | 0 <= i < j < |ns|
      ensures ns[i] < ns[j]
    {
      assert Lt(page[i], page[j]);
      EventSkOrder(ns[i], ns[j]);
    }
    forall n: nat | lo <= n <= last && n !in ns
      ensures ns != [] && forall i :: 0 <= i < |ns| ==> ns[i] < n
    {
      MissedRevision(t, orgPk, lo, limit, page, ns, n);
    }
  }

  lemma MissedRevision(t: Table, orgPk: string, lo: nat, limit: nat, page: seq<string>, ns: seq<nat>, n: nat)
    requires WellStored(t, orgPk) && 1 <= lo <= U64_MAX
    requires IsPage(SortKeys(t, orgPk), EventSk(lo), EVT_SK_MAX, limit, page)
    requires |ns| == |page| && forall i :: 0 <= i < |ns| ==> ns[i] in t.events && page[i] == EventSk(ns[i])
    requires lo <= n && n in t.events && n !in ns
    ensures ns != [] && forall i :: 0 <= i < |ns| ==> ns[i] < n
  {
    var k := EventSk(n);
    RangeHoldsEvents(t, orgPk, lo, k);
    if k in page {
      var i :| 0 <= i < |page| && page[i] == k;
      EventSkOrder(ns[i], n);
    }
    forall i | 0 <= i < |ns|
      ensures ns[i] < n
    {
      EventSkOrder(ns[i], n);
    }
  }

  /** A page of revisions has no gaps. */
  lemma {:induction false} PageIsGapless(last: nat, lo: nat, limit: nat, ns: seq<nat>, i: nat)
    requires IsRevisionPage(last, lo, limit, ns)
    requires i < |ns|
    ensures ns[i] == lo + i
  {
    if i > 0 {
      PageIsGapless(last, lo, limit, ns, i - 1);
    }
    assert lo + i < ns[i] ==> lo + i !in ns by {
      forall j | 0 <= j < |ns| && lo + i < ns[i]
        ensures ns[j] != lo + i
      {
        if j < i {
          assert ns[j] <= ns[i - 1];
        }
      }
    }
  }

  ghost predicate StoredRun(t: Table, lo: nat, r: seq<Envelope>) {
    forall i :: 0 <= i < |r| ==> StoredAt(t, lo + i, r[i])
  }

  ghost predicate StoredAt(t: Table, k: nat, e: Envelope) {
    k in t.events && t.events[k] == e
  }

  lemma DecodedPageIsRun(t: Table, last: nat, lo: nat, limit: nat, page: seq<string>, ns: seq<nat>, r: seq<Envelope>)
    requires forall k :: k in t.events ==> k <= U64_MAX
    requires IsRevisionPage(last, lo, limit, ns)
    requires |ns| == |page| && forall i :: 0 <= i < |ns| ==> ns[i] in t.events && page[i] == EventSk(ns[i])
    requires Decodes(t, page, r)
    ensures StoredRun(t, lo, r)
  {
    forall i | 0 <= i < |r|
      ensures StoredAt(t, lo + i, r[i])
    {
      PageIsGapless(last, lo, limit, ns, i);
      assert EventAt(t, page[i], r[i]);
      var n :| n in t.events && EventSk(n) == page[i] && t.events[n] == r[i];
      EventSkOrder(n, ns[i]);
    }
  }

  /** The reply is the run of stored events from the saturated successor of the cursor on. */
  lemma ReplyIsRun(t: Table, orgPk: string, last: nat, after: nat, limit: nat, r: seq<Envelope>)
    requires WellStored(t, orgPk) && StoredUpTo(t, last) && after <= U64_MAX
    requires IsEventsAfter(t, orgPk, after, limit, r)
    ensures |r| <= limit
    ensures StoredRun(t, SaturatingSucc(after), r)
    ensures SaturatingSucc(after) <= last <==> r != []
    ensures r != [] ==> SaturatingSucc(after) + |r| - 1 <= last
  {
    var lo := SaturatingSucc(after);
    var page :| IsPage(SortKeys(t, orgPk), EventSk(lo), EVT_SK_MAX, limit, page) && Decodes(t, page, r);
    var ns := PageOfRevisions(t, orgPk, last, lo, limit, page);
    DecodedPageIsRun(t, last, lo, limit, page, ns, r);
    assert ns == [] ==> lo !in ns;
    assert r != [] ==> StoredAt(t, lo + |r| - 1, r[|r| - 1]);
  }

  /** Below the largest cursor, `events_after` returns the events that follow the cursor, in order and
      without gaps, and at least one if there is any. */
  lemma EventsAfterIsExact(t: Table, orgPk: string, last: nat, after: nat, limit: nat, r: seq<Envelope>)
    requires WellStored(t, orgPk) && StoredUpTo(t, last) && after < U64_MAX
    requires IsEventsAfter(t, orgPk, after, limit, r)
    ensures |r| <= limit
    ensures after < last <==> r != []
    ensures StoredRun(t, after + 1, r)
    ensures r != [] ==> after + |r| <= last
  {
    ReplyIsRun(t, orgPk, last, after, limit, r);
  }

  /** An event of the reply has a sequence number of the range. */
  lemma ReplyIsInRange(t: Table, orgPk: string, lo: nat, limit: nat, page: seq<string>, r: seq<Envelope>, i: nat)
    requires WellStored(t, orgPk) && lo <= U64_MAX && i < |r|
    requires IsPage(SortKeys(t, orgPk), EventSk(lo), EVT_SK_MAX, limit, page) && Decodes(t, page, r)
    ensures exists n :: n in t.events && lo <= n && t.events[n] == r[i] && EventSk(n) == page[i]
  {
    RangeHoldsEvents(t, orgPk, lo, page[i]);
    var m :| m in t.events && lo <= m && page[i] == EventSk(m);
    assert EventAt(t, page[i], r[i]);
    var n :| n in t.events && EventSk(n) == page[i] && t.events[n] == r[i];
    EventSkOrder(m, n);
  }

  lemma OnlyOneKey(page: seq<string>, k: string)
    requires forall i, j :: 0 <= i < j < |page| ==> Lt(page[i], page[j])
    requires forall i :: 0 <= i < |page| ==> page[i] == k
    ensures |page| <= 1
  {
    assert |page| >= 2 ==> Lt(page[0], page[1]);
  }

  /** At the largest cursor the successor saturates, so the cursor's own event is returned again if it is stored. */
  lemma SaturatedCursorRepeats(t: Table, orgPk: string, limit: nat, r: seq<Envelope>)
    requires WellStored(t, orgPk) && IsEventsAfter(t, orgPk, U64_MAX, limit, r)
    ensures r == if U64_MAX in t.events then [t.events[U64_MAX]] else []
  {
    hide EventSk, WellStored, SortKeys, EventAt;
    var top := EventSk(U64_MAX);
    var page :| IsPage(SortKeys(t, orgPk), top, EVT_SK_MAX, limit, page) && Decodes(t, page, r);
    forall i | 0 <= i < |r|
      ensures U64_MAX in t.events && r[i] == t.events[U64_MAX] && page[i] == top
    {
      ReplyIsInRange(t, orgPk, U64_MAX, limit, page, r, i);
      var n :| n in t.events && U64_MAX <= n && t.events[n] == r[i] && EventSk(n) == page[i];
      StoredIsSmall(t, orgPk, n);
    }
    assert r != [] ==> page[0] == top && r[0] == r[|r| - 1];
    OnlyOneKey(page, top);
    if U64_MAX in t.events {
      RangeHoldsEvents(t, orgPk, U64_MAX, top);
      assert InRange(SortKeys(t, orgPk), top, EVT_SK_MAX, top);
      assert page == [] ==> top !in page;
    }
  }

  lemma StoredIsSmall(t: Table, orgPk: string, n: nat)
    requires WellStored(t, orgPk) && n in t.events
    ensures n <= U64_MAX
  {
  }

  /** `events_after` returns only events strictly after the cursor, unless the cursor is the largest
      integer and its own event is stored. */
  lemma StrictlyAfterIff(t: Table, orgPk: string, after: nat, limit: nat, r: seq<Envelope>)
    requires WellStored(t, orgPk) && after <= U64_MAX && IsEventsAfter(t, orgPk, after, limit, r)
    requires forall k :: k in t.events ==> t.events[k].revision == k
    ensures (forall i :: 0 <= i < |r| ==> r[i].revision > after) <==> !(after == U64_MAX && U64_MAX in t.events)
  {
    if after == U64_MAX {
      SaturatedCursorRepeats(t, orgPk, limit, r);
      assert U64_MAX in t.events ==> r[0].revision == U64_MAX;
    } else {
      var page :| IsPage(SortKeys(t, orgPk), EventSk(after + 1), EVT_SK_MAX, limit, page) && Decodes(t, page, r);
      forall i | 0 <= i < |r|
        ensures r[i].revision > after
      {
        ReplyIsInRange(t, orgPk, after + 1, limit, page, r, i);
      }
    }
  }

  // ----- Following a growing log -----

  /** A poll reads one page of the table of some state of a run. */
  datatype Poll = Poll(state: State, limit: nat, page: seq<Envelope>)

  /** What the first `n` polls have brought. */
  function Collected(polls: seq<Poll>, n: nat): seq<Envelope>
    requires n <= |polls|
  {
    if n == 0 then [] else Collected(polls, n - 1) + polls[n - 1].page
  }

  /** The reader's cursor after `n` polls: the revision of the last event it has seen. */
  function Cursor(polls: seq<Poll>, n: nat): nat
    requires n <= |polls|
  {
    var seen := Collected(polls, n);
    if seen == [] then 0 else seen[|seen| - 1].revision
  }

  /** Every poll asks for what follows the last event seen in the polls before it, and the log never shrinks in between. */
  ghost predicate Follows(orgPk: string, polls: seq<Poll>) {
    && (forall n :: 0 <= n < |polls| ==> Asks(orgPk, polls, n))
    && (forall m, n :: 0 <= m <= n < |polls| ==> polls[m].state.log <= polls[n].state.log)
  }

  ghost predicate Asks(orgPk: string, polls: seq<Poll>, n: nat)
    requires n < |polls|
  {
    polls[n].limit >= 1 &&
    IsEventsAfter(polls[n].state.table, orgPk, Cursor(polls, n), polls[n].limit, polls[n].page)
  }

  /** What the states of a run provide to a reader. */
  ghost predicate Readable(s: State, orgPk: string) {
    Shape(s.table, s.log) && StateKeysApart(s.table.items, orgPk)
  }

  function Least(a: nat, b: nat): nat {
    if a <= b then a else b
  }

  lemma ReadableIsStored(s: State, orgPk: string)
    requires Readable(s, orgPk)
    ensures WellStored(s.table, orgPk) && StoredUpTo(s.table, Least(|s.log|, U64_MAX))
  {
    forall k: nat | 1 <= k
      ensures k in s.table.events <==> k <= Least(|s.log|, U64_MAX)
    {
      assert Occupied(k, |s.log|) <==> k <= Least(|s.log|, U64_MAX);
    }
  }

  ghost predicate SeenPrefix(log: seq<Record>, seen: seq<Envelope>) {
    |seen| <= |log| && forall i :: 0 <= i < |seen| ==> seen[i] == log[i].envelope
  }

  /** After `n` polls the reader has seen a prefix of the log, knows how much, and has seen all of it after an empty page. */
  ghost predicate Tracks(log: seq<Record>, polls: seq<Poll>, n: nat)
    requires n <= |polls|
  {
    && SeenPrefix(log, Collected(polls, n))
    && Cursor(polls, n) == |Collected(polls, n)|
    && (n > 0 && polls[n - 1].page == [] ==> |Collected(polls, n)| == |log|)
  }

  lemma PageExtends(s: State, orgPk: string, seen: seq<Envelope>, limit: nat, page: seq<Envelope>)
    requires Readable(s, orgPk) && |seen| < U64_MAX
    requires SeenPrefix(s.log, seen)
    requires IsEventsAfter(s.table, orgPk, |seen|, limit, page)
    ensures SeenPrefix(s.log, seen + page)
    ensures page != [] ==> page[|page| - 1].revision == |seen| + |page|
    ensures page == [] ==> |seen| == |s.log|
  {
    hide IsEventsAfter;
    ReadableIsStored(s, orgPk);
    EventsAfterIsExact(s.table, orgPk, Least(|s.log|, U64_MAX), |seen|, limit, page);
    forall i | 0 <= i < |page|
      ensures |seen| + i < |s.log| && page[i] == s.log[|seen| + i].envelope
    {
      assert StoredAt(s.table, |seen| + 1 + i, page[i]);
    }
    assert page != [] ==> StoredAt(s.table, |seen| + |page|, page[|page| - 1]);
  }

  lemma PollTracks(orgPk: string, polls: seq<Poll>, n: nat)
    requires n < |polls| && Readable(polls[n].state, orgPk) && Asks(orgPk, polls, n)
    requires SeenPrefix(polls[n].state.log, Collected(polls, n))
    requires Cursor(polls, n) == |Collected(polls, n)| < U64_MAX
    ensures Tracks(polls[n].state.log, polls, n + 1)
  {
    hide Readable, IsEventsAfter;
    PageExtends(polls[n].state, orgPk, Collected(polls, n), polls[n].limit, polls[n].page);
    assert Collected(polls, n + 1) == Collected(polls, n) + polls[n].page;
    hide Collected, SeenPrefix;
  }

  ghost predicate AllReadable(orgPk: string, polls: seq<Poll>) {
    forall i :: 0 <= i < |polls| ==> Readable(polls[i].state, orgPk)
  }

  /** None of the first `n` polls asks for what follows the largest revision. */
  ghost predicate BelowLargest(polls: seq<Poll>, n: nat)
    requires n <= |polls|
  {
    forall i :: 0 <= i < n ==> Cursor(polls, i) != U64_MAX
  }

  lemma LastIsZero(s: State, orgPk: string)
    requires Readable(s, orgPk)
    ensures |s.log| <= U64_COUNT
    ensures |s.log| == U64_COUNT ==> s.log[U64_MAX].envelope.revision == 0
  {
    assert |s.log| == U64_COUNT ==> Occupied(0, |s.log|);
    assert |s.log| == U64_COUNT ==> 0 in s.table.events;
  }

  /** A reader that has seen a prefix of the log has a 64-bit cursor. */
  lemma CursorIsStored(s: State, orgPk: string, polls: seq<Poll>, n: nat)
    requires n <= |polls| && Readable(s, orgPk) && Tracks(s.log, polls, n)
    ensures Cursor(polls, n) <= U64_MAX
  {
    hide Collected, Readable;
    LastIsZero(s, orgPk);
  }

  lemma {:induction false} FollowingTracks(orgPk: string, polls: seq<Poll>, n: nat)
    requires n < |polls| && Follows(orgPk, polls) && AllReadable(orgPk, polls) && BelowLargest(polls, n + 1)
    ensures Tracks(polls[n].state.log, polls, n + 1)
  {
    hide Readable, Asks, Collected, Cursor;
    if n > 0 {
      FollowingTracks(orgPk, polls, n - 1);
      CursorIsStored(polls[n - 1].state, orgPk, polls, n);
      assert polls[n - 1].state.log <= polls[n].state.log;
    } else {
      NothingSeen(polls);
    }
    PollTracks(orgPk, polls, n);
  }

  lemma NothingSeen(polls: seq<Poll>)
    ensures Collected(polls, 0) == [] && Cursor(polls, 0) == 0
  {
  }

  lemma {:induction false} CollectedGrows(polls: seq<Poll>, m: nat, n: nat)
    requires m <= n <= |polls|
    ensures Collected(polls, m) <= Collected(polls, n)
  {
    if m < n {
      CollectedGrows(polls, m, n - 1);
    }
  }

  /** The largest revision, in the place of the event after it. */
  ghost predicate Repeats(seen: seq<Envelope>) {
    |seen| > U64_MAX && seen[U64_MAX].revision == U64_MAX
  }

  /** The first poll after the largest revision brings that event again, in the place of the next. */
  lemma PollRepeats(orgPk: string, polls: seq<Poll>, n: nat)
    requires 0 < n < |polls| && Readable(polls[n].state, orgPk) && Asks(orgPk, polls, n)
    requires polls[n - 1].state.log <= polls[n].state.log && Tracks(polls[n - 1].state.log, polls, n)
    requires Cursor(polls, n) == U64_MAX
    ensures Repeats(Collected(polls, n + 1))
  {
    var t := polls[n].state.table;
    assert Collected(polls, n + 1) == Collected(polls, n) + polls[n].page;
    ReadableIsStored(polls[n].state, orgPk);
    hide Collected, IsEventsAfter;
    assert U64_MAX in t.events && t.events[U64_MAX].revision == U64_MAX;
    hide Readable;
    SaturatedCursorRepeats(t, orgPk, polls[n].limit, polls[n].page);
  }

  lemma RepeatIsNoPrefix(s: State, orgPk: string, seen: seq<Envelope>)
    requires Readable(s, orgPk) && Repeats(seen)
    ensures !SeenPrefix(s.log, seen)
  {
    LastIsZero(s, orgPk);
    hide Readable;
  }

  lemma {:induction false} FollowingRepeats(orgPk: string, polls: seq<Poll>, n: nat)
    requires n < |polls| && Follows(orgPk, polls) && AllReadable(orgPk, polls) && !BelowLargest(polls, n + 1)
    ensures Repeats(Collected(polls, n + 1))
  {
    hide Readable, Asks, Collected, Cursor, Tracks;
    NothingSeen(polls);
    if !BelowLargest(polls, n) {
      FollowingRepeats(orgPk, polls, n - 1);
      CollectedGrows(polls, n, n + 1);
    } else {
      assert n > 0 && Cursor(polls, n) == U64_MAX;
      FollowingTracks(orgPk, polls, n - 1);
      PollRepeats(orgPk, polls, n);
    }
  }

  /**
   Following the log by polling after the last event seen, with any positive page sizes and appends
   in between, yields a prefix of the log, every event once, in order and without gaps, exactly when
   the reader never polls after the largest revision. Then a poll that comes back empty has reached
   the end of the log it read.
   */
  lemma FollowingYieldsPrefix(orgPk: string, polls: seq<Poll>)
    requires polls != [] && Follows(orgPk, polls) && AllReadable(orgPk, polls)
    ensures SeenPrefix(polls[|polls| - 1].state.log, Collected(polls, |polls|)) <==> BelowLargest(polls, |polls|)
    ensures BelowLargest(polls, |polls|) ==> Tracks(polls[|polls| - 1].state.log, polls, |polls|)
  {
    var n := |polls| - 1;
    assert Readable(polls[n].state, orgPk);
    hide Readable, Follows, AllReadable, BelowLargest, SeenPrefix, Collected, Cursor;
    if BelowLargest(polls, n + 1) {
      FollowingTracks(orgPk, polls, n);
    } else {
      FollowingRepeats(orgPk, polls, n);
      RepeatIsNoPrefix(polls[n].state, orgPk, Collected(polls, n + 1));
    }
  }

  // ----- The states of a run are readable -----

  ghost predicate CallsKeepApart(calls: map<nat, Call>, orgPk: string) {
    forall w :: w in calls && calls[w].op.key.pk == orgPk ==> !(EVT_PREFIX <= calls[w].op.key.sk)
  }

  lemma {:induction false} RunKeepsApart(calls: map<nat, Call>, items: map<Key, string>, steps: seq<Step>, orgPk: string)
    requires StateKeysApart(items, orgPk) && CallsKeepApart(calls, orgPk)
    ensures StateKeysApart(Run(calls, items, steps).table.items, orgPk)
    decreases |steps|
  {
    if steps != [] {
      RunKeepsApart(calls, items, steps[..|steps| - 1], orgPk);
    }
  }

  /** Every state of a run can be read, and later reads see a longer log. */
  lemma RunIsReadable(calls: map<nat, Call>, items: map<Key, string>, s: State, orgPk: string, more: seq<Step>)
    requires Reachable(calls, items, s)
    requires StateKeysApart(items, orgPk) && CallsKeepApart(calls, orgPk)
    ensures Readable(s, orgPk)
    ensures s.log <= Continue(calls, s, more).log
  {
    var steps :| s == Run(calls, items, steps);
    RunKeeps(calls, items, steps);
    RunKeepsApart(calls, items, steps, orgPk);
    LogGrows(calls, s, more);
  }
}
