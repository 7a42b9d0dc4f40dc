/** What the append protocol promises its callers and readers, over every run. */
module EventLogTheorems {
  import opened Wrappers
  import opened Text
  import opened EventLog
  import opened EventLogProofs
  import opened Sets

  ghost predicate Reachable(calls: map<nat, Call>, items: map<Key, string>, s: State) {
    exists steps :: s == Run(calls, items, steps)
  }

  lemma ReachableKeeps(calls: map<nat, Call>, items: map<Key, string>, s: State)
    requires Reachable(calls, items, s)
    ensures Invariant(calls, items, s)
  {
    var steps :| s == Run(calls, items, steps);
    RunKeeps(calls, items, steps);
  }

  // ----- The event log -----

  ghost predicate KeysUpTo(events: map<nat, Envelope>, counter: nat) {
    forall k: nat :: k in events <==> 1 <= k <= counter
  }

  lemma ShapeIsContiguous(t: Table, log: seq<Record>)
    requires Shape(t, log)
    ensures KeysUpTo(t.events, ReadCounter(t)) <==> |log| < U64_COUNT
    ensures |log| < U64_COUNT ==> ReadCounter(t) == |log|
  {
    if |log| < U64_COUNT {
      assert forall k: nat :: Occupied(k, |log|) <==> 1 <= k <= |log|;
    } else {
      assert Occupied(1, |log|);
      assert 1 in t.events && ReadCounter(t) == 0;
    }
  }

  /**
   The stored event keys are exactly 1..counter unless the counter is stored as zero. That happens
   when 2^64 transactions have committed, after which nothing commits again. Every event sits under
   its own sequence number.
   */
  lemma EventKeysAreContiguous(calls: map<nat, Call>, items: map<Key, string>, s: State)
    requires Reachable(calls, items, s)
    ensures |s.log| <= U64_COUNT
    ensures KeysUpTo(s.table.events, ReadCounter(s.table)) <==> s.table.counter != Some(0)
    ensures s.table.counter != Some(0) <==> |s.log| < U64_COUNT
    ensures |s.log| < U64_COUNT ==> ReadCounter(s.table) == |s.log|
    ensures forall k :: k in s.table.events ==> s.table.events[k].revision == k
  {
    ReachableKeeps(calls, items, s);
    ShapeIsContiguous(s.table, s.log);
  }

  lemma {:induction false} LogGrows(calls: map<nat, Call>, s: State, steps: seq<Step>)
    ensures s.log <= Continue(calls, s, steps).log
    decreases |steps|
  {
    if steps != [] {
      LogGrows(calls, s, steps[..|steps| - 1]);
    }
  }

  lemma {:induction false} ContinueAppends(calls: map<nat, Call>, s: State, a: seq<Step>, b: seq<Step>)
    ensures Continue(calls, s, a + b) == Continue(calls, Continue(calls, s, a), b)
    decreases |b|
  {
    if b == [] {
      assert a + b == a;
    } else {
      var n := |b| - 1;
      assert (a + b)[..|a + b| - 1] == a + b[..n];
      ContinueAppends(calls, s, a, b[..n]);
    }
  }

  lemma ReachableContinues(calls: map<nat, Call>, items: map<Key, string>, s: State, steps: seq<Step>)
    requires Reachable(calls, items, s)
    ensures Reachable(calls, items, Continue(calls, s, steps))
  {
    var before :| s == Run(calls, items, before);
    ContinueAppends(calls, Init(calls, items), before, steps);
    assert Continue(calls, s, steps) == Run(calls, items, before + steps);
  }

  lemma {:induction false} ShapeGrows(t: Table, log: seq<Record>, t': Table, log': seq<Record>)
    requires Shape(t, log) && Shape(t', log') && log <= log'
    ensures forall k :: k in t.events ==> k in t'.events && t'.events[k] == t.events[k]
  {
    forall k | k in t.events
      ensures k in t'.events && t'.events[k] == t.events[k]
    {
      assert Occupied(k, |log|) && Occupied(k, |log'|);
      assert log'[PositionOf(k)] == log[PositionOf(k)];
    }
  }

  /** A committed event is never overwritten or removed, whatever happens afterwards. */
  lemma {:induction false} EventsAreImmutable(calls: map<nat, Call>, items: map<Key, string>, s: State, steps: seq<Step>)
    requires Reachable(calls, items, s)
    ensures var t := Continue(calls, s, steps);
            && s.log <= t.log
            && forall k :: k in s.table.events ==> k in t.table.events && t.table.events[k] == s.table.events[k]
  {
    var t := Continue(calls, s, steps);
    ReachableContinues(calls, items, s, steps);
    ReachableKeeps(calls, items, s);
    ReachableKeeps(calls, items, t);
    LogGrows(calls, s, steps);
    ShapeGrows(s.table, s.log, t.table, t.log);
  }

  // ----- What a call returns -----

  ghost predicate Succeeded(s: State, w: nat, revision: nat) {
    w in s.phases && s.phases[w].Done? && s.phases[w].outcome == Appended(revision)
  }

  lemma SuccessCommitted(calls: map<nat, Call>, items: map<Key, string>, s: State, w: nat, revision: nat) returns (i: nat)
    requires Invariant(calls, items, s) && w in calls && Succeeded(s, w, revision)
    ensures i < |s.log| && i < U64_COUNT && s.log[i].writer == w && SeqAt(i) == revision && PositionOf(revision) == i
    ensures s.phases[w].lastRead <= i == s.phases[w].endedAt
  {
    assert CallInvariant(items, s.log, w, calls[w], s.phases[w]);
    i := s.phases[w].endedAt;
  }

  /** A successful call's own event is stored under the revision it returned, which follows the revision it expected. */
  lemma SuccessIsStored(calls: map<nat, Call>, items: map<Key, string>, s: State, w: nat, revision: nat)
    requires Reachable(calls, items, s) && w in calls && Succeeded(s, w, revision)
    ensures revision in s.table.events && s.table.events[revision] == Envelope(revision, calls[w].draft)
    ensures calls[w].expected.Some? ==>
      revision == if calls[w].expected.value == U64_MAX then 0 else calls[w].expected.value + 1
  {
    ReachableKeeps(calls, items, s);
    var i := SuccessCommitted(calls, items, s, w, revision);
    assert RecordOf(calls, s.log[i], i);
    assert Occupied(revision, |s.log|);
  }

  /** The counter is still what the call has read. */
  predicate StillCurrent(t: Table, current: nat) {
    t.counter == if current == 0 then None else Some(current)
  }

  /** A guarded put finds no item under its key, a delete finds one. */
  predicate StateAllows(items: map<Key, string>, op: StateOp) {
    (op.Put? && op.guard.MustNotExist? ==> op.key !in items) && (op.Delete? ==> op.key in items)
  }

  /** The read hands the call the counter, zero when there is none, and ends it when it expected another. */
  lemma ReadDecides(calls: map<nat, Call>, s: State, w: nat)
    requires w in calls && w in s.phases && s.phases[w].Reading?
    ensures var q := Next(calls, s, Read(w)).phases[w];
            var current := if s.table.counter.Some? then s.table.counter.value else 0;
            if calls[w].expected.Some? && calls[w].expected.value != current then q.Done? && q.outcome == RevisionMismatch(current)
            else q == Ready(s.phases[w].attempts, current, |s.log|)
  {
  }

  /**
   What a transaction does whose reply arrives. It commits its event, counter and state item at once
   when the counter has not moved, the event is new and the state allows it. It changes nothing
   otherwise: it reports the state item when that is at fault, and else is tried again, fifty times in
   all. A transaction whose reply is lost does the same to the table.
   */
  lemma TransactDecides(calls: map<nat, Call>, s: State, w: nat)
    requires w in calls && w in s.phases && s.phases[w].Ready?
    ensures var call, p, t := calls[w], s.phases[w], Next(calls, s, Transact(w));
            var revision := if p.current == U64_MAX then 0 else p.current + 1;
            if StillCurrent(s.table, p.current) && revision !in s.table.events && StateAllows(s.table.items, call.op) then
              && t.phases[w].Done? && t.phases[w].outcome == Appended(revision)
              && t.table.counter == Some(revision)
              && t.table.events == s.table.events[revision := Envelope(revision, call.draft)]
              && t.table.items == (if call.op.Put? then s.table.items[call.op.key := call.op.value]
                                   else s.table.items - {call.op.key})
            else if !StateAllows(s.table.items, call.op) then
              t.table == s.table && t.phases[w].Done? && t.phases[w].outcome == if call.op.Put? then Conflict else AlreadyGone
            else
              && t.table == s.table && |t.phases[w].attempts| == |p.attempts| + 1
              && if |p.attempts| == 49 then t.phases[w].Done? && t.phases[w].outcome.Contended? else t.phases[w].Reading?
    ensures Next(calls, s, LoseReply(w)).table == Next(calls, s, Transact(w)).table
  {
  }

  /** Different successful calls return different revisions. */
  lemma RevisionsAreDistinct(calls: map<nat, Call>, items: map<Key, string>, s: State, v: nat, w: nat, a: nat, b: nat)
    requires Reachable(calls, items, s) && v in calls && w in calls && v != w
    requires Succeeded(s, v, a) && Succeeded(s, w, b)
    ensures a != b
  {
    ReachableKeeps(calls, items, s);
    var i := SuccessCommitted(calls, items, s, v, a);
    var j := SuccessCommitted(calls, items, s, w, b);
  }

  /** Revisions follow real time: a call that read the counter after another had ended returns the later
      revision, until the counter wraps. */
  lemma RevisionsFollowRealTime(calls: map<nat, Call>, items: map<Key, string>, s: State, v: nat, w: nat, a: nat, b: nat)
    requires Reachable(calls, items, s) && v in calls && w in calls
    requires Succeeded(s, v, a) && Succeeded(s, w, b)
    requires s.phases[v].endedAt < s.phases[w].lastRead
    ensures PositionOf(a) < PositionOf(b)
    ensures a < b || b == 0
  {
    hide Reachable, Invariant;
    ReachableKeeps(calls, items, s);
    var i := SuccessCommitted(calls, items, s, v, a);
    var j := SuccessCommitted(calls, items, s, w, b);
  }

  ghost function Mine(log: seq<Record>, w: nat): set<nat> {
    set i: nat | i < |log| && log[i].writer == w
  }

  lemma AtMostOne(calls: map<nat, Call>, log: seq<Record>, w: nat)
    requires Authorship(calls, log)
    ensures |Mine(log, w)| <= 1
  {
    if Mine(log, w) != {} {
      var i :| i in Mine(log, w);
      assert Mine(log, w) == {i};
    }
  }

  /** The transactions a call has committed: one if it succeeded, none if it reported why it did not,
      and at most one if the client failed, since a reply can be lost. */
  lemma CallsCommitAtMostOnce(calls: map<nat, Call>, items: map<Key, string>, s: State, w: nat)
    requires Reachable(calls, items, s) && w in calls
    ensures w in s.phases && |Mine(s.log, w)| <= 1
    ensures s.phases[w].Done? && s.phases[w].outcome.Appended? ==> |Mine(s.log, w)| == 1
    ensures (s.phases[w].Done? ==> !s.phases[w].outcome.Appended? && !s.phases[w].outcome.Failed?) ==> Mine(s.log, w) == {}
  {
    ReachableKeeps(calls, items, s);
    AtMostOne(calls, s.log, w);
    var p := s.phases[w];
    assert CallInvariant(items, s.log, w, calls[w], p);
    if p.Done? && p.outcome.Appended? {
      var i := SuccessCommitted(calls, items, s, w, p.outcome.revision);
      assert i in Mine(s.log, w);
    }
  }

  /** A refusal is true of the table at the moment at which the call ended, which is not before its last
      read nor before the end of any attempt it gave up. */
  lemma RefusalsAreTrue(calls: map<nat, Call>, items: map<Key, string>, s: State, w: nat)
    requires Reachable(calls, items, s) && w in calls
    ensures w in s.phases
    ensures s.phases[w].Done? ==>
      var p := s.phases[w];
      && p.lastRead <= p.endedAt <= |s.log|
      && (forall i :: 0 <= i < |p.attempts| && !p.outcome.Contended? ==> p.attempts[i].endedAt <= p.lastRead)
      && Explains(items, calls[w], s.log, p.outcome, p.endedAt)
  {
    ReachableKeeps(calls, items, s);
    assert CallInvariant(items, s.log, w, calls[w], s.phases[w]);
  }

  // ----- State items -----

  ghost predicate Removes(items: map<Key, string>, log: seq<Record>, i: nat)
    requires i < |log|
  {
    log[i].op.key in Replay(items, log[..i]) && log[i].op.key !in Replay(items, log[..i + 1])
  }

  /** The state items are the replay of the committed operations in sequence order; a tombstone was
      logged only when it removed a present item. */
  lemma StateIsReplay(calls: map<nat, Call>, items: map<Key, string>, s: State)
    requires Reachable(calls, items, s)
    ensures s.table.items == Replay(items, s.log)
    ensures forall i :: 0 <= i < |s.log| && s.log[i].op.Delete? ==> Removes(items, s.log, i)
  {
    hide Reachable, Shape, Authorship, CallInvariant;
    ReachableKeeps(calls, items, s);
    forall i | 0 <= i < |s.log| && s.log[i].op.Delete?
      ensures Removes(items, s.log, i)
    {
      assert s.log[..i + 1][..i] == s.log[..i];
      assert StateCondition(Replay(items, s.log[..i]), s.log[i].op);
    }
  }

  /** The last transaction about an item. */
  ghost predicate LastAbout(log: seq<Record>, i: nat, key: Key) {
    i < |log| && log[i].op.key == key && forall j :: i < j < |log| ==> log[j].op.key != key
  }

  lemma {:induction false} ReplayEndsWith(items: map<Key, string>, log: seq<Record>, i: nat, key: Key)
    requires LastAbout(log, i, key)
    ensures log[i].op.Put? ==> key in Replay(items, log) && Replay(items, log)[key] == log[i].op.value
    ensures log[i].op.Delete? ==> key !in Replay(items, log)
    decreases |log|
  {
    var n := |log| - 1;
    if i < n {
      ReplayEndsWith(items, log[..n], i, key);
      assert log[n].op.key != key;
    }
  }

  lemma {:induction false} ReplayLeavesAlone(items: map<Key, string>, log: seq<Record>, key: Key)
    requires forall i :: 0 <= i < |log| ==> log[i].op.key != key
    ensures key in Replay(items, log) <==> key in items
    ensures key in items ==> Replay(items, log)[key] == items[key]
    decreases |log|
  {
    if log != [] {
      ReplayLeavesAlone(items, log[..|log| - 1], key);
    }
  }

  /** A state item has the value of the last put about it, is absent when the last transaction about it was
      a tombstone, and is as it was at first when there was none. */
  lemma ItemsAreLatest(calls: map<nat, Call>, items: map<Key, string>, s: State, key: Key)
    requires Reachable(calls, items, s)
    ensures forall i: nat :: LastAbout(s.log, i, key) && s.log[i].op.Put? ==>
      key in s.table.items && s.table.items[key] == s.log[i].op.value
    ensures forall i: nat :: LastAbout(s.log, i, key) && s.log[i].op.Delete? ==> key !in s.table.items
    ensures (forall i :: 0 <= i < |s.log| ==> s.log[i].op.key != key) ==>
      (key in s.table.items <==> key in items) && (key in items ==> s.table.items[key] == items[key])
  {
    StateIsReplay(calls, items, s);
    hide Replay, Reachable;
    forall i: nat | LastAbout(s.log, i, key)
      ensures s.log[i].op.Put? ==> key in s.table.items && s.table.items[key] == s.log[i].op.value
      ensures s.log[i].op.Delete? ==> key !in s.table.items
    {
      ReplayEndsWith(items, s.log, i, key);
    }
    if forall i :: 0 <= i < |s.log| ==> s.log[i].op.key != key {
      ReplayLeavesAlone(items, s.log, key);
    }
  }

  lemma {:induction false} PresentUntilDeleted(items: map<Key, string>, log: seq<Record>, key: Key, i: nat, j: nat)
    requires i <= j <= |log|
    requires key in Replay(items, log[..i])
    requires key !in Replay(items, log[..j])
    ensures exists m :: i <= m < j && log[m].op == Delete(key)
    decreases j - i
  {
    if log[i].op != Delete(key) {
      assert log[..i + 1][..i] == log[..i];
      PresentUntilDeleted(items, log, key, i + 1, j);
    }
  }

  /** A put of an item and a later creation of the same item are separated by a tombstone for it. */
  lemma RecreationNeedsTombstone(calls: map<nat, Call>, items: map<Key, string>, s: State, i: nat, j: nat)
    requires Reachable(calls, items, s)
    requires i < j < |s.log| && s.log[i].op.Put? && s.log[j].op.Put? && s.log[j].op.guard.MustNotExist?
    requires s.log[i].op.key == s.log[j].op.key
    ensures exists m :: i < m < j && s.log[m].op == Delete(s.log[i].op.key)
  {
    hide Reachable, Shape, Authorship, CallInvariant;
    ReachableKeeps(calls, items, s);
    assert s.log[..i + 1][..i] == s.log[..i];
    assert StateCondition(Replay(items, s.log[..j]), s.log[j].op);
    PresentUntilDeleted(items, s.log, s.log[i].op.key, i + 1, j);
  }

  // ----- Contention -----

  ghost predicate AllGenuine(attempts: seq<Attempt>) {
    forall i :: 0 <= i < |attempts| ==> !attempts[i].spurious
  }

  /** Only a spurious cancellation leaves a spurious attempt behind. */
  lemma {:induction false} AttemptsAreGenuine(calls: map<nat, Call>, items: map<Key, string>, steps: seq<Step>, w: nat)
    requires w in calls && CancelSpuriously(w) !in steps
    ensures w in Run(calls, items, steps).phases
    ensures AllGenuine(Run(calls, items, steps).phases[w].attempts)
    decreases |steps|
  {
    if steps != [] {
      AttemptsAreGenuine(calls, items, steps[..|steps| - 1], w);
    }
  }

  lemma {:induction false} IntervalsAddUp(attempts: seq<Attempt>, length: nat, k: nat)
    requires AttemptsInOrder(attempts, length) && length < U64_COUNT
    requires AllGenuine(attempts)
    requires k < |attempts|
    ensures attempts[k].endedAt - attempts[0].readAt >= k + 1
  {
    if k > 0 {
      IntervalsAddUp(attempts, length, k - 1);
    }
  }

  ghost function Interval(a: nat, b: nat): (r: set<nat>)
    requires a <= b
    ensures forall i: nat :: i in r <==> a <= i < b
    ensures |r| == b - a
    decreases b - a
  {
    if a == b then {} else Interval(a, b - 1) + {b - 1}
  }

  ghost function OthersWithin(log: seq<Record>, w: nat, a: nat, b: nat): set<nat> {
    set i: nat | a <= i < b && i < |log| && log[i].writer != w
  }

  /**
   When every cancellation of a call comes from a failed condition, each of its cancelled attempts
   saw the log grow between its own read and its own transaction, in disjoint intervals, and the
   transactions in them are other calls'. So the call gives up from contention only if at least fifty
   transactions of other calls committed while it ran.
   */
  lemma ContentionNeedsFiftyCommits(calls: map<nat, Call>, items: map<Key, string>, steps: seq<Step>, w: nat, s: State)
    requires w in calls && CancelSpuriously(w) !in steps
    requires s == Run(calls, items, steps) && |s.log| < U64_COUNT
    ensures w in s.phases
    ensures var attempts := s.phases[w].attempts;
            && (forall k :: 0 <= k < |attempts| ==> attempts[k].readAt < attempts[k].endedAt <= |s.log|)
            && (forall k, m :: 0 <= k < m < |attempts| ==> attempts[k].endedAt <= attempts[m].readAt)
            && (s.phases[w].Done? && s.phases[w].outcome.Contended? ==>
                  && |attempts| == MAX_APPEND_ATTEMPTS
                  && |OthersWithin(s.log, w, attempts[0].readAt, attempts[|attempts| - 1].endedAt)| >= MAX_APPEND_ATTEMPTS)
  {
    RunKeeps(calls, items, steps);
    AttemptsAreGenuine(calls, items, steps, w);
    var p := s.phases[w];
    assert CallInvariant(items, s.log, w, calls[w], p);
    if p.Done? && p.outcome.Contended? {
      var n := |p.attempts| - 1;
      IntervalsAddUp(p.attempts, |s.log|, n);
      var a, b := p.attempts[0].readAt, p.attempts[n].endedAt;
      assert OthersWithin(s.log, w, a, b) == Interval(a, b);
    }
  }

  lemma {:induction false} WritersOf(log: seq<Record>, indices: set<nat>) returns (writers: set<nat>)
    requires forall i :: i in indices ==> i < |log|
    requires forall i, j :: 0 <= i < j < |log| ==> log[i].writer != log[j].writer
    ensures |writers| == |indices|
    ensures forall w :: w in writers <==> exists i :: i in indices && log[i].writer == w
    decreases |indices|
  {
    if indices == {} {
      writers := {};
    } else {
      var i :| i in indices;
      var others := WritersOf(log, indices - {i});
      writers := others + {log[i].writer};
      forall j | j in indices - {i}
        ensures log[j].writer != log[i].writer
      {
        assert j < i || i < j;
      }
    }
  }

  /** With at most fifty calls and no spurious cancellation of a call, it never gives up from contention. */
  lemma FewCallsNeverContend(calls: map<nat, Call>, items: map<Key, string>, steps: seq<Step>, w: nat, s: State)
    requires w in calls && CancelSpuriously(w) !in steps && |calls| <= MAX_APPEND_ATTEMPTS
    requires s == Run(calls, items, steps)
    ensures w in s.phases && !(s.phases[w].Done? && s.phases[w].outcome.Contended?)
  {
    RunKeeps(calls, items, steps);
    assert Authorship(calls, s.log);
    hide Run, Invariant;
    LogIsShort(calls, s.log);
    ContentionNeedsFiftyCommits(calls, items, steps, w, s);
    var p := s.phases[w];
    if p.Done? && p.outcome.Contended? {
      var others := OthersWithin(s.log, w, p.attempts[0].readAt, p.attempts[|p.attempts| - 1].endedAt);
      OthersAreFew(calls, s.log, w, others);
      assert false;
    }
  }

  lemma LogIsShort(calls: map<nat, Call>, log: seq<Record>)
    requires Authorship(calls, log)
    ensures |log| <= |calls|
  {
    var writers := WritersOf(log, Interval(0, |log|));
    assert writers <= calls.Keys;
    SubsetSize(writers, calls.Keys);
  }

  lemma OthersAreFew(calls: map<nat, Call>, log: seq<Record>, w: nat, others: set<nat>)
    requires Authorship(calls, log) && w in calls
    requires forall i :: i in others ==> i < |log| && log[i].writer != w
    ensures |others| < |calls|
  {
    var writers := WritersOf(log, others);
    assert writers <= calls.Keys - {w};
    SubsetSize(writers, calls.Keys - {w});
    assert |calls.Keys| == |calls|;
  }
}
