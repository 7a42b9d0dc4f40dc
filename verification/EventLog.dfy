/**
 The append protocol of one organization's event log.

 Any number of calls race on one table. A call reads the counter, builds an envelope for the next
 sequence number and submits one atomic transaction of three conditional writes: the counter, the
 event, and a state item that is put or deleted. Reads and transactions of different calls
 interleave freely. Sequence numbers are unsigned 64-bit integers that wrap around.
 */
module EventLog {
  import opened Wrappers
  import opened Text

  const MAX_APPEND_ATTEMPTS: nat := 50

  // ----- Data -----

  datatype Key = Key(pk: string, sk: string)

  datatype Guard = Unguarded | MustNotExist

  datatype StateOp =
    | Put(key: Key, value: string, guard: Guard)
    | Delete(key: Key)

  datatype Envelope = Envelope(revision: nat, draft: string)

  /** One `append` (a put) or `append_with_delete` (a delete); `draft` is what `build` signs around a revision. */
  datatype Call = Call(expected: Option<nat>, draft: string, op: StateOp)

  datatype Table = Table(counter: Option<nat>, events: map<nat, Envelope>, items: map<Key, string>)

  datatype Outcome =
    | Appended(revision: nat)
    | AlreadyGone
    | Conflict
    | RevisionMismatch(current: nat)
    | Contended
    | Failed

  /** A cancelled attempt: the log's length when it read the counter and when it was cancelled. */
  datatype Attempt = Attempt(readAt: nat, endedAt: nat, spurious: bool)

  /** What a call is up to, with the log's length when it last read the counter and when it ended. */
  datatype Phase =
    | Reading(attempts: seq<Attempt>)
    | Ready(attempts: seq<Attempt>, current: nat, readAt: nat)
    | Done(attempts: seq<Attempt>, outcome: Outcome, lastRead: nat, endedAt: nat)

  /** One committed transaction. */
  datatype Record = Record(writer: nat, envelope: Envelope, op: StateOp)

  /** `log` lists the transactions in commit order; no step of a call looks at it. */
  datatype State = State(table: Table, phases: map<nat, Phase>, log: seq<Record>)

  datatype Step =
    | Read(w: nat)             // a consistent read of the counter
    | ReadFails(w: nat)        // the read fails in the client
    | Transact(w: nat)         // the transaction is evaluated and its reply arrives
    | LoseReply(w: nat)        // the transaction is evaluated but its reply is lost
    | TransactFails(w: nat)    // the transaction never reaches the table
    | CancelSpuriously(w: nat) // the table cancels although it evaluated no condition to false

  // ----- One call's code -----

  function ReadCounter(t: Table): nat {
    match t.counter
    case None => 0
    case Some(n) => n
  }

  function Candidate(current: nat): nat {
    if current == U64_MAX then 0 else current + 1
  }

  predicate ExpectedRevisionHolds(current: nat, expected: Option<nat>) {
    expected.Some? ==> current == expected.value
  }

  function Build(call: Call, revision: nat): Envelope {
    Envelope(revision, call.draft)
  }

  predicate CounterCondition(t: Table, current: nat) {
    if current == 0 then t.counter.None? else t.counter == Some(current)
  }

  predicate EventCondition(t: Table, e: Envelope) {
    e.revision !in t.events
  }

  predicate StateCondition(items: map<Key, string>, op: StateOp) {
    match op
    case Put(key, _, guard) => guard.MustNotExist? ==> key !in items
    case Delete(key) => key in items
  }

  function ApplyOp(items: map<Key, string>, op: StateOp): map<Key, string> {
    match op
    case Put(key, value, _) => items[key := value]
    case Delete(key) => items - {key}
  }

  predicate Commits(t: Table, call: Call, current: nat) {
    && CounterCondition(t, current)
    && EventCondition(t, Build(call, Candidate(current)))
    && StateCondition(t.items, call.op)
  }

  function Commit(t: Table, call: Call, current: nat): Table {
    var e := Build(call, Candidate(current));
    Table(Some(Candidate(current)), t.events[e.revision := e], ApplyOp(t.items, call.op))
  }

  /** A cancelled attempt is retried unless it was the last one allowed. */
  function Retry(attempts: seq<Attempt>, a: Attempt): Phase {
    if |attempts| + 1 == MAX_APPEND_ATTEMPTS then Done(attempts + [a], Contended, a.readAt, a.endedAt) else Reading(attempts + [a])
  }

  /** How a call reads the reasons of a cancelled transaction. */
  function AfterCancel(t: Table, call: Call, p: Phase, length: nat): Phase
    requires p.Ready?
  {
    if !StateCondition(t.items, call.op) then
      Done(p.attempts, if call.op.Delete? then AlreadyGone else Conflict, p.readAt, length)
    else
      Retry(p.attempts, Attempt(p.readAt, length, false))
  }

  // ----- The transition system -----

  function Init(calls: map<nat, Call>, items: map<Key, string>): State {
    State(Table(None, map[], items), map w | w in calls :: Reading([]), [])
  }

  function Evaluate(calls: map<nat, Call>, s: State, w: nat, replied: bool): State
    requires w in calls && w in s.phases && s.phases[w].Ready?
  {
    var call, p := calls[w], s.phases[w];
    if Commits(s.table, call, p.current) then
      var revision := Candidate(p.current);
      State(Commit(s.table, call, p.current),
            s.phases[w := Done(p.attempts, if replied then Appended(revision) else Failed, p.readAt, |s.log|)],
            s.log + [Record(w, Build(call, revision), call.op)])
    else
      s.(phases := s.phases[w := if replied then AfterCancel(s.table, call, p, |s.log|)
                                 else Done(p.attempts, Failed, p.readAt, |s.log|)])
  }

  function ReadStep(call: Call, s: State, p: Phase): Phase {
    var current := ReadCounter(s.table);
    if ExpectedRevisionHolds(current, call.expected) then Ready(p.attempts, current, |s.log|)
    else Done(p.attempts, RevisionMismatch(current), |s.log|, |s.log|)
  }

  /** A step that its call cannot take leaves the state as it is. */
  function Next(calls: map<nat, Call>, s: State, step: Step): State {
    var w := step.w;
    if w !in calls || w !in s.phases then s
    else
      var p := s.phases[w];
      match step
      case Read(_) =>
        if p.Reading? then s.(phases := s.phases[w := ReadStep(calls[w], s, p)]) else s
      case ReadFails(_) =>
        if p.Reading? then s.(phases := s.phases[w := Done(p.attempts, Failed, |s.log|, |s.log|)]) else s
      case Transact(_) =>
        if p.Ready? then Evaluate(calls, s, w, true) else s
      case LoseReply(_) =>
        if p.Ready? then Evaluate(calls, s, w, false) else s
      case TransactFails(_) =>
        if p.Ready? then s.(phases := s.phases[w := Done(p.attempts, Failed, p.readAt, |s.log|)]) else s
      case CancelSpuriously(_) =>
        if p.Ready? then s.(phases := s.phases[w := Retry(p.attempts, Attempt(p.readAt, |s.log|, true))]) else s
  }

  function Continue(calls: map<nat, Call>, s: State, steps: seq<Step>): State
    decreases |steps|
  {
    if steps == [] then s
    else Next(calls, Continue(calls, s, steps[..|steps| - 1]), steps[|steps| - 1])
  }

  function Run(calls: map<nat, Call>, items: map<Key, string>, steps: seq<Step>): State {
    Continue(calls, Init(calls, items), steps)
  }

  // ----- What every reachable state satisfies -----

  /** The sequence number of the transaction at position `i` of the log. */
  function SeqAt(i: nat): nat {
    if i == U64_MAX then 0 else i + 1
  }

  function CounterAfter(length: nat): nat {
    if length == U64_COUNT then 0 else length
  }

  /** The position of the transaction whose sequence number is `k`. */
  function PositionOf(k: nat): nat {
    if k == 0 then U64_MAX else k - 1
  }

  ghost predicate Occupied(k: nat, length: nat) {
    PositionOf(k) < length && k < U64_COUNT
  }

  /** The counter and the events are what the log says. */
  ghost predicate Shape(t: Table, log: seq<Record>) {
    && |log| <= U64_COUNT
    && t.counter == (if log == [] then None else Some(CounterAfter(|log|)))
    && (forall k: nat :: k in t.events <==> Occupied(k, |log|))
    && (forall k: nat :: k in t.events ==>
          t.events[k] == log[PositionOf(k)].envelope && t.events[k].revision == k)
  }

  function Replay(items: map<Key, string>, log: seq<Record>): map<Key, string>
    decreases |log|
  {
    if log == [] then items
    else ApplyOp(Replay(items, log[..|log| - 1]), log[|log| - 1].op)
  }

  /** The state items are the replay of the log, and every operation met its condition when it committed. */
  ghost predicate History(items: map<Key, string>, current: map<Key, string>, log: seq<Record>) {
    && current == Replay(items, log)
    && forall i :: 0 <= i < |log| ==> StateCondition(Replay(items, log[..i]), log[i].op)
  }

  ghost predicate RecordOf(calls: map<nat, Call>, r: Record, i: nat) {
    && r.writer in calls
    && r.envelope == Build(calls[r.writer], SeqAt(i))
    && r.op == calls[r.writer].op
    && ExpectedRevisionHolds(CounterAfter(i), calls[r.writer].expected)
  }

  /** Every transaction is the work of one call, and no call has two. */
  ghost predicate Authorship(calls: map<nat, Call>, log: seq<Record>) {
    && (forall i :: 0 <= i < |log| ==> RecordOf(calls, log[i], i))
    && (forall i, j :: 0 <= i < j < |log| ==> log[i].writer != log[j].writer)
  }

  ghost predicate Absent(log: seq<Record>, w: nat) {
    forall i :: 0 <= i < |log| ==> log[i].writer != w
  }

  ghost predicate CommittedAt(log: seq<Record>, w: nat, revision: nat, i: nat) {
    i < |log| && log[i].writer == w && SeqAt(i) == revision
  }

  /** Which transactions a call in a given phase has committed. */
  ghost predicate Accounted(log: seq<Record>, w: nat, p: Phase) {
    match p
    case Reading(_) => Absent(log, w)
    case Ready(_, _, _) => Absent(log, w)
    case Done(_, Appended(revision), _, endedAt) => CommittedAt(log, w, revision, endedAt)
    case Done(_, Failed, _, _) => true
    case Done(_, _, _, _) => Absent(log, w)
  }

  /** The moment at which the log had length `n` explains the outcome. */
  ghost predicate Explains(items: map<Key, string>, call: Call, log: seq<Record>, outcome: Outcome, n: nat) {
    n <= |log| && match outcome
      case AlreadyGone => call.op.Delete? && call.op.key !in Replay(items, log[..n])
      case Conflict => call.op.Put? && call.op.guard.MustNotExist? && call.op.key in Replay(items, log[..n])
      case RevisionMismatch(current) => current == CounterAfter(n) && call.expected.Some? && call.expected.value != current
      case _ => true
  }

  /** The moment at which a call ended explains its outcome. */
  ghost predicate Explained(items: map<Key, string>, call: Call, log: seq<Record>, p: Phase) {
    p.Done? ==> Explains(items, call, log, p.outcome, p.endedAt)
  }

  /**
   The cancelled attempts of a call happened one after the other, and each that was not spurious saw
   the log grow between its read and its transaction. The exception is a log of 2^64 transactions,
   whose counter has wrapped to zero.
   */
  ghost predicate AttemptsInOrder(attempts: seq<Attempt>, length: nat) {
    && (forall i :: 0 <= i < |attempts| ==> attempts[i].readAt <= attempts[i].endedAt <= length)
    && (forall i :: 0 <= i < |attempts| && !attempts[i].spurious ==>
          attempts[i].readAt < attempts[i].endedAt || attempts[i].readAt == U64_COUNT)
    && (forall i, j :: 0 <= i < j < |attempts| ==> attempts[i].endedAt <= attempts[j].readAt)
  }

  ghost predicate PhaseInOrder(call: Call, p: Phase, length: nat) {
    && AttemptsInOrder(p.attempts, length)
    && match p
       case Reading(attempts) => |attempts| < MAX_APPEND_ATTEMPTS
       case Ready(attempts, current, readAt) =>
         && |attempts| < MAX_APPEND_ATTEMPTS
         && readAt <= length
         && current == CounterAfter(readAt)
         && ExpectedRevisionHolds(current, call.expected)
         && forall i :: 0 <= i < |attempts| ==> attempts[i].endedAt <= readAt
       case Done(attempts, outcome, lastRead, endedAt) =>
         && lastRead <= endedAt <= length
         && (if outcome.Contended? then |attempts| == MAX_APPEND_ATTEMPTS
             else forall i :: 0 <= i < |attempts| ==> attempts[i].endedAt <= lastRead)
  }

  /** What every call knows and has done, given the log. */
  ghost predicate CallInvariant(items: map<Key, string>, log: seq<Record>, w: nat, call: Call, p: Phase) {
    && PhaseInOrder(call, p, |log|)
    && Accounted(log, w, p)
    && Explained(items, call, log, p)
  }

  ghost predicate Invariant(calls: map<nat, Call>, items: map<Key, string>, s: State) {
    && Shape(s.table, s.log)
    && History(items, s.table.items, s.log)
    && Authorship(calls, s.log)
    && s.phases.Keys == calls.Keys
    && forall w :: w in calls ==> CallInvariant(items, s.log, w, calls[w], s.phases[w])
  }
}
