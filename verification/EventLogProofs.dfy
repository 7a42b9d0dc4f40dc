/** Every step of the append protocol keeps its invariant, so every run satisfies it. */
module EventLogProofs {
  import opened Text
  import opened EventLog

  lemma QuietStep(calls: map<nat, Call>, items: map<Key, string>, s: State, w: nat, p: Phase)
    requires Invariant(calls, items, s)
    requires w in calls && CallInvariant(items, s.log, w, calls[w], p)
    ensures Invariant(calls, items, s.(phases := s.phases[w := p]))
  {
  }

  /** A call that is not done may move to any phase other than success without committing anything. */
  lemma StillAbsent(log: seq<Record>, w: nat, p: Phase, q: Phase)
    requires Accounted(log, w, p) && !p.Done?
    requires !(q.Done? && q.outcome.Appended?)
    ensures Accounted(log, w, q)
  {
  }

  lemma FailureIsExplained(items: map<Key, string>, call: Call, log: seq<Record>, p: Phase)
    requires p.Done? ==> p.endedAt <= |log| && (p.outcome in {Failed, Contended} || p.outcome.Appended?)
    ensures Explained(items, call, log, p)
  {
  }

  // ----- A transaction that commits -----

  /** The counter's condition can hold only for a call whose read is still current. */
  lemma CommitPosition(t: Table, log: seq<Record>, call: Call, p: Phase)
    requires Shape(t, log)
    requires p.Ready? && PhaseInOrder(call, p, |log|)
    requires CounterCondition(t, p.current)
    ensures |log| < U64_COUNT
    ensures p.current == |log| == CounterAfter(|log|)
    ensures Candidate(p.current) == SeqAt(|log|)
  {
  }

  lemma ShapeAfterCommit(t: Table, log: seq<Record>, call: Call, p: Phase, w: nat)
    requires Shape(t, log)
    requires p.Ready? && PhaseInOrder(call, p, |log|)
    requires Commits(t, call, p.current)
    ensures Shape(Commit(t, call, p.current), log + [Record(w, Build(call, Candidate(p.current)), call.op)])
  {
    CommitPosition(t, log, call, p);
    assert forall k: nat :: Occupied(k, |log| + 1) <==> Occupied(k, |log|) || k == SeqAt(|log|);
  }

  lemma HistoryAfterCommit(items: map<Key, string>, current: map<Key, string>, log: seq<Record>, r: Record)
    requires History(items, current, log)
    requires StateCondition(current, r.op)
    ensures History(items, ApplyOp(current, r.op), log + [r])
  {
    assert (log + [r])[..|log|] == log;
    forall i | 0 <= i <= |log|
      ensures StateCondition(Replay(items, (log + [r])[..i]), (log + [r])[i].op)
    {
      if i < |log| {
        assert (log + [r])[..i] == log[..i];
      }
    }
  }

  lemma AuthorshipAfterCommit(calls: map<nat, Call>, items: map<Key, string>, log: seq<Record>, w: nat, p: Phase)
    requires Authorship(calls, log)
    requires w in calls && CallInvariant(items, log, w, calls[w], p)
    requires p.Ready? && p.current == CounterAfter(|log|)
    ensures Authorship(calls, log + [Record(w, Build(calls[w], SeqAt(|log|)), calls[w].op)])
  {
  }

  /** A commit by another call leaves what a call knows and has done intact. */
  lemma OtherCallKeeps(items: map<Key, string>, log: seq<Record>, r: Record, w: nat, call: Call, p: Phase)
    requires CallInvariant(items, log, w, call, p) && r.writer != w
    ensures CallInvariant(items, log + [r], w, call, p)
  {
    assert forall i :: 0 <= i < |log| ==> (log + [r])[i] == log[i];
    if p.Done? {
      assert (log + [r])[..p.endedAt] == log[..p.endedAt];
    }
  }

  lemma OwnCallAfterCommit(items: map<Key, string>, log: seq<Record>, r: Record, call: Call, p: Phase, q: Phase)
    requires CallInvariant(items, log, r.writer, call, p) && p.Ready?
    requires q == Done(p.attempts, Appended(SeqAt(|log|)), p.readAt, |log|) || q == Done(p.attempts, Failed, p.readAt, |log|)
    ensures CallInvariant(items, log + [r], r.writer, call, q)
  {
    FailureIsExplained(items, call, log + [r], q);
    assert (log + [r])[|log|].writer == r.writer;
  }

  lemma CommitStep(calls: map<nat, Call>, items: map<Key, string>, s: State, w: nat, replied: bool)
    requires Invariant(calls, items, s)
    requires w in calls && s.phases[w].Ready?
    requires Commits(s.table, calls[w], s.phases[w].current)
    ensures Invariant(calls, items, Evaluate(calls, s, w, replied))
  {
    hide Shape, History, Authorship, PhaseInOrder, Accounted, Explained, ApplyOp, Replay;
    var call, p := calls[w], s.phases[w];
    var t := Evaluate(calls, s, w, replied);
    var r := Record(w, Build(call, Candidate(p.current)), call.op);
    assert CallInvariant(items, s.log, w, call, p);
    CommitPosition(s.table, s.log, call, p);
    ShapeAfterCommit(s.table, s.log, call, p, w);
    HistoryAfterCommit(items, s.table.items, s.log, r);
    AuthorshipAfterCommit(calls, items, s.log, w, p);
    forall v | v in calls
      ensures CallInvariant(items, t.log, v, calls[v], t.phases[v])
    {
      if v == w {
        OwnCallAfterCommit(items, s.log, r, call, p, t.phases[w]);
      } else {
        OtherCallKeeps(items, s.log, r, v, calls[v], s.phases[v]);
      }
    }
  }

  // ----- A transaction that is cancelled -----

  /** A transaction cancelled by the counter or the event saw the log grow since its read. */
  lemma CancelSawACommit(t: Table, log: seq<Record>, call: Call, p: Phase)
    requires Shape(t, log)
    requires p.Ready? && PhaseInOrder(call, p, |log|)
    requires !(CounterCondition(t, p.current) && EventCondition(t, Build(call, Candidate(p.current))))
    ensures p.readAt < |log| || p.readAt == U64_COUNT
  {
    assert p.readAt < U64_COUNT ==> Candidate(p.current) == SeqAt(p.readAt);
  }

  lemma RetryInOrder(call: Call, p: Phase, a: Attempt, length: nat)
    requires p.Ready? && PhaseInOrder(call, p, length)
    requires a.readAt == p.readAt && a.endedAt == length
    requires !a.spurious ==> a.readAt < a.endedAt || a.readAt == U64_COUNT
    ensures PhaseInOrder(call, Retry(p.attempts, a), length)
  {
  }

  lemma CancelStep(calls: map<nat, Call>, items: map<Key, string>, s: State, w: nat, replied: bool)
    requires Invariant(calls, items, s)
    requires w in calls && s.phases[w].Ready?
    requires !Commits(s.table, calls[w], s.phases[w].current)
    ensures Invariant(calls, items, Evaluate(calls, s, w, replied))
  {
    var call, p := calls[w], s.phases[w];
    var q := if replied then AfterCancel(s.table, call, p, |s.log|) else Done(p.attempts, Failed, p.readAt, |s.log|);
    assert CallInvariant(items, s.log, w, call, p);
    if replied && StateCondition(s.table.items, call.op) {
      CancelSawACommit(s.table, s.log, call, p);
      RetryInOrder(call, p, Attempt(p.readAt, |s.log|, false), |s.log|);
    }
    if q.Done? {
      assert s.log[..|s.log|] == s.log;
    }
    StillAbsent(s.log, w, p, q);
    QuietStep(calls, items, s, w, q);
  }

  // ----- Every step -----

  lemma ReadStepKeeps(calls: map<nat, Call>, items: map<Key, string>, s: State, w: nat)
    requires Invariant(calls, items, s)
    requires w in calls && s.phases[w].Reading?
    ensures Invariant(calls, items, s.(phases := s.phases[w := ReadStep(calls[w], s, s.phases[w])]))
  {
    var p := ReadStep(calls[w], s, s.phases[w]);
    assert CallInvariant(items, s.log, w, calls[w], s.phases[w]);
    StillAbsent(s.log, w, s.phases[w], p);
    QuietStep(calls, items, s, w, p);
  }

  lemma FailStepKeeps(calls: map<nat, Call>, items: map<Key, string>, s: State, w: nat)
    requires Invariant(calls, items, s)
    requires w in calls && !s.phases[w].Done?
    ensures var p := s.phases[w];
            Invariant(calls, items, s.(phases := s.phases[w := Done(p.attempts, Failed, if p.Ready? then p.readAt else |s.log|, |s.log|)]))
  {
    var p := s.phases[w];
    var q := Done(p.attempts, Failed, if p.Ready? then p.readAt else |s.log|, |s.log|);
    assert CallInvariant(items, s.log, w, calls[w], p);
    FailureIsExplained(items, calls[w], s.log, q);
    QuietStep(calls, items, s, w, q);
  }

  lemma SpuriousStepKeeps(calls: map<nat, Call>, items: map<Key, string>, s: State, w: nat, a: Attempt)
    requires Invariant(calls, items, s)
    requires w in calls && s.phases[w].Ready?
    requires a == Attempt(s.phases[w].readAt, |s.log|, true)
    ensures Invariant(calls, items, s.(phases := s.phases[w := Retry(s.phases[w].attempts, a)]))
  {
    var p := s.phases[w];
    var q := Retry(p.attempts, a);
    assert CallInvariant(items, s.log, w, calls[w], p);
    RetryInOrder(calls[w], p, a, |s.log|);
    FailureIsExplained(items, calls[w], s.log, q);
    StillAbsent(s.log, w, p, q);
    QuietStep(calls, items, s, w, q);
  }

  lemma NextKeeps(calls: map<nat, Call>, items: map<Key, string>, s: State, step: Step)
    requires Invariant(calls, items, s)
    ensures Invariant(calls, items, Next(calls, s, step))
  {
    var w := step.w;
    if w in calls {
      var p := s.phases[w];
      if p.Reading? && step.Read? {
        ReadStepKeeps(calls, items, s, w);
      } else if p.Ready? && (step.Transact? || step.LoseReply?) {
        if Commits(s.table, calls[w], p.current) {
          CommitStep(calls, items, s, w, step.Transact?);
        } else {
          CancelStep(calls, items, s, w, step.Transact?);
        }
      } else if p.Ready? && step.CancelSpuriously? {
        SpuriousStepKeeps(calls, items, s, w, Attempt(p.readAt, |s.log|, true));
      } else if (p.Reading? && step.ReadFails?) || (p.Ready? && step.TransactFails?) {
        FailStepKeeps(calls, items, s, w);
      }
    }
  }

  /** The invariant holds after every run of any calls from any initial state items. */
  lemma {:induction false} RunKeeps(calls: map<nat, Call>, items: map<Key, string>, steps: seq<Step>)
    ensures Invariant(calls, items, Run(calls, items, steps))
    decreases |steps|
  {
    if steps != [] {
      RunKeeps(calls, items, steps[..|steps| - 1]);
      NextKeeps(calls, items, Run(calls, items, steps[..|steps| - 1]), steps[|steps| - 1]);
    }
  }
}
