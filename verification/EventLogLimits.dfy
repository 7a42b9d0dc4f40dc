/** Runs that take the event counter to its limits. */
module EventLogLimits {
  import opened Wrappers
  import opened Text
  import opened EventLog
  import opened EventLogProofs
  import opened EventLogTheorems
  import opened EventKeys
  import opened EventPaging

  ghost predicate Unconditional(call: Call) {
    call.expected.None? && call.op.Put? && call.op.guard.Unguarded?
  }

  /** At least as many unconditional calls as there are sequence numbers. */
  ghost predicate ManyWriters(calls: map<nat, Call>) {
    forall w: nat :: w < U64_COUNT ==> w in calls && Unconditional(calls[w])
  }

  lemma WritersExist(call: Call)
    requires Unconditional(call)
    ensures exists calls :: ManyWriters(calls) && forall w :: w in calls ==> calls[w] == call
  {
    hide Interval;
    var calls := map w | w in Interval(0, U64_COUNT) :: call;
    assert ManyWriters(calls);
  }

  /** The first `n` writers read and commit one after the other. */
  ghost function InTurn(n: nat): seq<Step> {
    if n == 0 then [] else InTurn(n - 1) + [Read(n - 1), Transact(n - 1)]
  }

  lemma CandidateIsFree(t: Table, log: seq<Record>, call: Call)
    requires Shape(t, log) && |log| < U64_COUNT && Unconditional(call)
    ensures ReadCounter(t) == |log| && Commits(t, call, |log|)
  {
    assert !Occupied(SeqAt(|log|), |log|);
    assert SeqAt(|log|) !in t.events;
  }

  /** A writer whose turn it is reads the counter and commits. */
  lemma TurnCommits(calls: map<nat, Call>, items: map<Key, string>, s: State, w: nat)
    requires Invariant(calls, items, s) && |s.log| < U64_COUNT
    requires w in calls && Unconditional(calls[w]) && s.phases[w] == Reading([])
    ensures var t := Next(calls, Next(calls, s, Read(w)), Transact(w));
            |t.log| == |s.log| + 1 && forall v :: v in calls && v != w ==> v in t.phases && t.phases[v] == s.phases[v]
  {
    CandidateIsFree(s.table, s.log, calls[w]);
    hide Invariant, Commits, Commit, ReadCounter;
    var r := Next(calls, s, Read(w));
    assert r == s.(phases := s.phases[w := Ready([], |s.log|, |s.log|)]);
  }

  lemma ContinueTwice(calls: map<nat, Call>, s: State, steps: seq<Step>, a: Step, b: Step)
    ensures Continue(calls, s, steps + [a, b]) == Next(calls, Next(calls, Continue(calls, s, steps), a), b)
  {
    var all := steps + [a, b];
    assert all[..|all| - 1] == steps + [a] && (steps + [a])[..|steps|] == steps;
  }

  ghost predicate Waiting(s: State, n: nat) {
    forall w: nat :: n <= w < U64_COUNT ==> w in s.phases && s.phases[w] == Reading([])
  }

  lemma NobodyYet(calls: map<nat, Call>, items: map<Key, string>)
    requires ManyWriters(calls)
    ensures var s := Run(calls, items, InTurn(0)); s.log == [] && Waiting(s, 0)
  {
    assert Run(calls, items, InTurn(0)) == Init(calls, items);
  }

  lemma NextTurn(calls: map<nat, Call>, items: map<Key, string>, s: State, n: nat)
    requires ManyWriters(calls) && Invariant(calls, items, s) && n < U64_COUNT
    requires |s.log| == n && Waiting(s, n)
    ensures var t := Next(calls, Next(calls, s, Read(n)), Transact(n)); |t.log| == n + 1 && Waiting(t, n + 1)
  {
    TurnCommits(calls, items, s, n);
    hide Next, Invariant;
  }

  lemma OneMore(calls: map<nat, Call>, items: map<Key, string>, n: nat)
    ensures Run(calls, items, InTurn(n + 1)) == Next(calls, Next(calls, Run(calls, items, InTurn(n)), Read(n)), Transact(n))
  {
    hide Next, Init, Continue;
    ContinueTwice(calls, Init(calls, items), InTurn(n), Read(n), Transact(n));
  }

  /** Every length up to 2^64 is the length of the log of some run. */
  lemma {:induction false} EveryLengthIsReached(calls: map<nat, Call>, items: map<Key, string>, n: nat)
    requires ManyWriters(calls) && n <= U64_COUNT
    ensures var s := Run(calls, items, InTurn(n)); |s.log| == n && Waiting(s, n)
  {
    hide Run, InTurn, Next, Invariant, Waiting, ManyWriters;
    if n == 0 {
      NobodyYet(calls, items);
    } else {
      EveryLengthIsReached(calls, items, n - 1);
      RunKeeps(calls, items, InTurn(n - 1));
      OneMore(calls, items, n - 1);
      NextTurn(calls, items, Run(calls, items, InTurn(n - 1)), n - 1);
    }
  }

  /** The counter does wrap: after 2^64 commits it is zero, and the stored keys are not 1..counter. */
  lemma CounterWraps(calls: map<nat, Call>, items: map<Key, string>)
    requires ManyWriters(calls)
    ensures var s := Run(calls, items, InTurn(U64_COUNT));
            && Reachable(calls, items, s)
            && |s.log| == U64_COUNT && ReadCounter(s.table) == 0
            && !KeysUpTo(s.table.events, ReadCounter(s.table))
  {
    EveryLengthIsReached(calls, items, U64_COUNT);
    RunKeeps(calls, items, InTurn(U64_COUNT));
    var s := Run(calls, items, InTurn(U64_COUNT));
    hide Run, InTurn, ManyWriters;
    ShapeIsContiguous(s.table, s.log);
  }

  lemma LargestIsAlone(t: Table, orgPk: string, limit: nat)
    requires WellStored(t, orgPk) && U64_MAX in t.events && limit >= 1
    ensures IsEventsAfter(t, orgPk, U64_MAX, limit, [t.events[U64_MAX]])
  {
    var page, r := [EventSk(U64_MAX)], [t.events[U64_MAX]];
    hide EventSk;
    forall k
      ensures InRange(SortKeys(t, orgPk), EventSk(U64_MAX), EVT_SK_MAX, k) <==> k == EventSk(U64_MAX)
    {
      RangeHoldsEvents(t, orgPk, U64_MAX, k);
    }
    hide InRange;
    assert IsPage(SortKeys(t, orgPk), EventSk(U64_MAX), EVT_SK_MAX, limit, page);
    assert EventAt(t, page[0], r[0]);
    assert Decodes(t, page, r);
  }

  /** The cursor does saturate: when the largest revision is stored, before the counter wraps and after,
      polling after it gives it again, whatever the limit. */
  lemma LargestCursorRepeats(calls: map<nat, Call>, items: map<Key, string>, n: nat, orgPk: string, limit: nat)
    requires ManyWriters(calls) && U64_MAX <= n <= U64_COUNT && limit >= 1
    requires StateKeysApart(items, orgPk) && CallsKeepApart(calls, orgPk)
    ensures var s := Run(calls, items, InTurn(n));
            && U64_MAX in s.table.events && ReadCounter(s.table) == CounterAfter(n)
            && forall r :: IsEventsAfter(s.table, orgPk, U64_MAX, limit, r) <==> r == [s.table.events[U64_MAX]]
  {
    EveryLengthIsReached(calls, items, n);
    RunKeeps(calls, items, InTurn(n));
    RunKeepsApart(calls, items, InTurn(n), orgPk);
    var s := Run(calls, items, InTurn(n));
    hide Run, InTurn, ManyWriters;
    ReadableIsStored(s, orgPk);
    assert U64_MAX in s.table.events;
    hide Invariant, IsEventsAfter;
    LargestIsAlone(s.table, orgPk, limit);
    forall r | IsEventsAfter(s.table, orgPk, U64_MAX, limit, r)
      ensures r == [s.table.events[U64_MAX]]
    {
      SaturatedCursorRepeats(s.table, orgPk, limit, r);
    }
  }

  // ----- The retry ceiling is reached -----

  const LOSER: nat := MAX_APPEND_ATTEMPTS

  /** The first `n` writers each commit between the read and the transaction of one that loses every time. */
  ghost function Overtaken(n: nat): seq<Step> {
    if n == 0 then [] else Overtaken(n - 1) + [Read(LOSER), Read(n - 1), Transact(n - 1), Transact(LOSER)]
  }

  /** The loser and fifty others, all unconditional. */
  ghost predicate OneTooMany(calls: map<nat, Call>) {
    forall w: nat :: w <= LOSER ==> w in calls && Unconditional(calls[w])
  }

  /** The loser has lost `n` attempts to the first `n` writers; the others have not begun. */
  ghost predicate Losing(s: State, n: nat) {
    && |s.log| == n
    && (forall w: nat :: n <= w < LOSER ==> w in s.phases && s.phases[w] == Reading([]))
    && LOSER in s.phases
    && (n < LOSER ==> s.phases[LOSER].Reading? && |s.phases[LOSER].attempts| == n)
    && (n == LOSER ==> s.phases[LOSER].Done? && s.phases[LOSER].outcome.Contended?)
  }

  lemma LoserReads(calls: map<nat, Call>, items: map<Key, string>, s: State, n: nat)
    requires OneTooMany(calls) && Invariant(calls, items, s) && Losing(s, n) && n < LOSER
    ensures var p := s.phases[LOSER];
            Next(calls, s, Read(LOSER)) == s.(phases := s.phases[LOSER := Ready(p.attempts, n, n)])
  {
    CandidateIsFree(s.table, s.log, calls[LOSER]);
    hide Invariant;
  }

  lemma LoserLoses(calls: map<nat, Call>, items: map<Key, string>, s: State, n: nat, attempts: seq<Attempt>)
    requires LOSER in calls && Unconditional(calls[LOSER]) && n < LOSER && |attempts| == n
    requires Invariant(calls, items, s) && |s.log| == n + 1 && s.phases[LOSER] == Ready(attempts, n, n)
    ensures Next(calls, s, Transact(LOSER)) == s.(phases := s.phases[LOSER := Retry(attempts, Attempt(n, n + 1, false))])
  {
    assert s.table.counter == Some(n + 1);
    hide Invariant;
    assert !CounterCondition(s.table, n);
    hide CounterCondition, EventCondition;
  }

  lemma LosingNext(t: State, u: State, n: nat, attempts: seq<Attempt>)
    requires n < LOSER && |attempts| == n && |t.log| == n + 1 && LOSER in t.phases
    requires forall w: nat :: n < w < LOSER ==> w in t.phases && t.phases[w] == Reading([])
    requires u == t.(phases := t.phases[LOSER := Retry(attempts, Attempt(n, n + 1, false))])
    ensures Losing(u, n + 1)
  {
  }

  lemma LosesOnce(calls: map<nat, Call>, items: map<Key, string>, s: State, n: nat)
    requires OneTooMany(calls) && Invariant(calls, items, s) && Losing(s, n) && n < LOSER
    ensures var r := Next(calls, s, Read(LOSER));
            var t := Next(calls, Next(calls, r, Read(n)), Transact(n));
            Losing(Next(calls, t, Transact(LOSER)), n + 1)
  {
    hide Next, Invariant;
    var r := Next(calls, s, Read(LOSER));
    var m := Next(calls, r, Read(n));
    var t := Next(calls, m, Transact(n));
    var attempts := s.phases[LOSER].attempts;
    LoserReads(calls, items, s, n);
    NextKeeps(calls, items, s, Read(LOSER));
    NextKeeps(calls, items, r, Read(n));
    NextKeeps(calls, items, m, Transact(n));
    TurnCommits(calls, items, r, n);
    assert forall w: nat :: n < w < LOSER ==> w in calls && r.phases[w] == Reading([]);
    assert t.phases[LOSER] == Ready(attempts, n, n);
    hide Losing, OneTooMany;
    LoserLoses(calls, items, t, n, attempts);
    LosingNext(t, Next(calls, t, Transact(LOSER)), n, attempts);
  }

  lemma ContinueFour(calls: map<nat, Call>, s: State, steps: seq<Step>, a: Step, b: Step, c: Step, d: Step)
    ensures Continue(calls, s, steps + [a, b, c, d]) ==
            Next(calls, Next(calls, Next(calls, Next(calls, Continue(calls, s, steps), a), b), c), d)
  {
    hide Next;
    ContinueTwice(calls, s, steps, a, b);
    ContinueTwice(calls, s, steps + [a, b], c, d);
    assert steps + [a, b] + [c, d] == steps + [a, b, c, d];
  }

  lemma OneMoreLoss(calls: map<nat, Call>, items: map<Key, string>, n: nat)
    ensures var s := Run(calls, items, Overtaken(n));
            var t := Next(calls, Next(calls, Next(calls, s, Read(LOSER)), Read(n)), Transact(n));
            Run(calls, items, Overtaken(n + 1)) == Next(calls, t, Transact(LOSER))
  {
    hide Next, Init, Continue;
    ContinueFour(calls, Init(calls, items), Overtaken(n), Read(LOSER), Read(n), Transact(n), Transact(LOSER));
  }

  lemma NobodyLostYet(calls: map<nat, Call>, items: map<Key, string>)
    requires OneTooMany(calls)
    ensures Losing(Run(calls, items, Overtaken(0)), 0)
  {
    assert Run(calls, items, Overtaken(0)) == Init(calls, items);
  }

  lemma {:induction false} NoneSpurious(n: nat)
    ensures CancelSpuriously(LOSER) !in Overtaken(n)
  {
    if n > 0 {
      NoneSpurious(n - 1);
    }
  }

  lemma {:induction false} KeepsLosing(calls: map<nat, Call>, items: map<Key, string>, n: nat)
    requires OneTooMany(calls) && n <= LOSER
    ensures Losing(Run(calls, items, Overtaken(n)), n)
  {
    hide Run, Overtaken, Next, Invariant, OneTooMany, Losing;
    if n == 0 {
      NobodyLostYet(calls, items);
    } else {
      KeepsLosing(calls, items, n - 1);
      RunKeeps(calls, items, Overtaken(n - 1));
      OneMoreLoss(calls, items, n - 1);
      LosesOnce(calls, items, Run(calls, items, Overtaken(n - 1)), n - 1);
    }
  }

  /** With fifty-one unconditional calls the ceiling is reached: one of them gives up from contention
      although none of its cancellations is spurious. */
  lemma LoserContends(calls: map<nat, Call>, items: map<Key, string>)
    requires OneTooMany(calls)
    ensures var s := Run(calls, items, Overtaken(MAX_APPEND_ATTEMPTS));
            LOSER in s.phases && s.phases[LOSER].Done? && s.phases[LOSER].outcome.Contended?
    ensures CancelSpuriously(LOSER) !in Overtaken(MAX_APPEND_ATTEMPTS)
  {
    hide Run, Overtaken, OneTooMany;
    KeepsLosing(calls, items, MAX_APPEND_ATTEMPTS);
    NoneSpurious(MAX_APPEND_ATTEMPTS);
  }
}
