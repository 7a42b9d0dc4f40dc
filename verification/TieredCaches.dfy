/**
 Many proxy instances, each with its own in-memory cache, over one shared store with expiry.

 Writes to the shared store are fire-and-forget and land later or never; a lookup that misses in
 memory asks the shared store, whose reply arrives later or never and is then copied into memory.
 Times are milliseconds of one clock.
 */
module TieredCaches {
  import opened Wrappers
  import opened Lru
  import opened AuthzCaches

  /** One instance's settings: expiry and capacity of its memory, and whether and for how long it shares. */
  datatype Config = Config(l1Ttl: nat, cap: nat, hasL2: bool, ttl: nat)

  /** The instances, each with settings of its own. */
  type Fleet = map<nat, Config>

  /** Whole seconds, at least one. */
  function L2Seconds(c: Config): nat {
    if c.ttl / 1000 < 1 then 1 else c.ttl / 1000
  }

  function L2Ttl(c: Config): nat {
    1000 * L2Seconds(c)
  }

  /** How a decision reached an instance's memory: from its own engine, or read from the shared store. */
  datatype Source = Engine | Shared(landedAt: nat, fetchedAt: nat)  // there since `landedAt`, read at `fetchedAt`

  /** A decision, with the instance that evaluated it and when. */
  datatype Verdict = Verdict(decision: Decision, author: nat, at: nat)

  datatype Sourced = Sourced(verdict: Verdict, via: Source)

  datatype Evaluation = Evaluation(key: string, verdict: Verdict)
  datatype Stored = Stored(verdict: Verdict, landedAt: nat, expiresAt: nat)
  datatype Write = Write(key: string, verdict: Verdict)
  datatype Reply = Reply(instance: nat, key: string, sourced: Sourced)

  /** A decision returned by an instance's `get` at time `at`, having been copied into its memory at `insertedAt`. */
  datatype Answer = Answer(instance: nat, key: string, sourced: Sourced, insertedAt: nat, at: nat)

  datatype State = State(now: nat, l1: map<nat, seq<Entry<Sourced>>>, l2: map<string, Stored>,
                         writes: seq<Write>, replies: seq<Reply>,
                         evaluations: seq<Evaluation>, answers: seq<Answer>)

  datatype Step =
    | Tick(elapsed: nat)
    | Evaluate(instance: nat, key: string, decision: Decision)
    | Land(i: nat)
    | LoseWrite(i: nat)
    | Lookup(instance: nat, key: string)
    | Deliver(i: nat)
    | LoseReply(i: nat)

  function Init(fleet: Fleet): State {
    State(0, map i | i in fleet :: [], map[], [], [], [], [])
  }

  function Dropped<T>(s: seq<T>, i: nat): seq<T>
    requires i < |s|
  {
    s[..i] + s[i + 1..]
  }

  /** `insert` after an engine evaluation: into memory at once, into the shared store later. */
  function AfterEvaluate(c: Config, s: State, i: nat, key: string, decision: Decision): State
    requires i in s.l1
  {
    var v := Verdict(decision, i, s.now);
    s.(l1 := s.l1[i := Put(c.cap, s.l1[i], key, Sourced(v, Engine), s.now)],
       writes := if c.hasL2 then s.writes + [Write(key, v)] else s.writes,
       evaluations := s.evaluations + [Evaluation(key, v)])
  }

  function InsertedAt(entries: seq<Entry<Sourced>>, key: string): nat {
    var at := IndexOf(entries, key);
    if at.Some? then entries[at.value].insertedAt else 0
  }

  /** `get`: memory first, then the shared store. */
  function AfterLookup(c: Config, s: State, i: nat, key: string): State
    requires i in s.l1
  {
    var (entries, hit) := Get(c.l1Ttl, s.l1[i], key, s.now);
    var t := s.(l1 := s.l1[i := entries]);
    if hit.Some? then
      t.(answers := s.answers + [Answer(i, key, hit.value, InsertedAt(s.l1[i], key), s.now)])
    else if c.hasL2 && key in s.l2 && s.now < s.l2[key].expiresAt then
      var x := s.l2[key];
      t.(replies := s.replies + [Reply(i, key, Sourced(x.verdict, Shared(x.landedAt, s.now)))])
    else t
  }

  function AfterDeliver(c: Config, s: State, i: nat): State
    requires i < |s.replies| && s.replies[i].instance in s.l1
  {
    var r := s.replies[i];
    s.(l1 := s.l1[r.instance := Put(c.cap, s.l1[r.instance], r.key, r.sourced, s.now)],
       replies := Dropped(s.replies, i),
       answers := s.answers + [Answer(r.instance, r.key, r.sourced, s.now, s.now)])
  }

  function AfterLand(fleet: Fleet, s: State, i: nat): State
    requires i < |s.writes| && s.writes[i].verdict.author in fleet
  {
    var w := s.writes[i];
    s.(l2 := s.l2[w.key := Stored(w.verdict, s.now, s.now + L2Ttl(fleet[w.verdict.author]))], writes := Dropped(s.writes, i))
  }

  predicate Runs(fleet: Fleet, s: State, i: nat) {
    i in fleet && i in s.l1
  }

  function Next(fleet: Fleet, s: State, step: Step): State {
    match step
    case Tick(elapsed) => s.(now := s.now + elapsed)
    case Evaluate(i, key, decision) => if Runs(fleet, s, i) then AfterEvaluate(fleet[i], s, i, key, decision) else s
    case Land(i) => if i < |s.writes| && s.writes[i].verdict.author in fleet then AfterLand(fleet, s, i) else s
    case LoseWrite(i) => if i < |s.writes| then s.(writes := Dropped(s.writes, i)) else s
    case Lookup(i, key) => if Runs(fleet, s, i) then AfterLookup(fleet[i], s, i, key) else s
    case Deliver(i) =>
      if i < |s.replies| && Runs(fleet, s, s.replies[i].instance) then AfterDeliver(fleet[s.replies[i].instance], s, i) else s
    case LoseReply(i) => if i < |s.replies| then s.(replies := Dropped(s.replies, i)) else s
  }

  function Run(fleet: Fleet, steps: seq<Step>): State
    decreases |steps|
  {
    if steps == [] then Init(fleet)
    else Next(fleet, Run(fleet, steps[..|steps| - 1]), steps[|steps| - 1])
  }

  // ----- What every run keeps -----

  /** An earlier evaluation of the same key by one of the instances gave the verdict. */
  ghost predicate Evaluated(fleet: Fleet, s: State, key: string, v: Verdict) {
    Evaluation(key, v) in s.evaluations && v.at <= s.now && v.author in fleet
  }

  /** A decision from the shared store was read there before it expired, by its evaluator's settings. */
  ghost predicate Timely(fleet: Fleet, x: Sourced) {
    x.via.Shared? ==>
      x.verdict.author in fleet &&
      x.verdict.at <= x.via.landedAt <= x.via.fetchedAt < x.via.landedAt + L2Ttl(fleet[x.verdict.author])
  }

  /** A decision from the engine entered its own instance's memory when it was produced, one from the
      shared store after it was read. */
  ghost predicate EnteredAt(i: nat, x: Sourced, insertedAt: nat) {
    if x.via.Engine? then insertedAt == x.verdict.at && x.verdict.author == i else x.via.fetchedAt <= insertedAt
  }

  ghost predicate GoodEntry(fleet: Fleet, s: State, i: nat, e: Entry<Sourced>) {
    && Evaluated(fleet, s, e.key, e.value.verdict)
    && Timely(fleet, e.value) && EnteredAt(i, e.value, e.insertedAt) && e.insertedAt <= s.now
  }

  ghost predicate GoodStored(fleet: Fleet, s: State, key: string, x: Stored) {
    && Evaluated(fleet, s, key, x.verdict)
    && x.verdict.at <= x.landedAt <= s.now
    && x.expiresAt == x.landedAt + L2Ttl(fleet[x.verdict.author])
  }

  ghost predicate GoodWrite(fleet: Fleet, s: State, w: Write) {
    Evaluated(fleet, s, w.key, w.verdict)
  }

  ghost predicate GoodReply(fleet: Fleet, s: State, r: Reply) {
    && Evaluated(fleet, s, r.key, r.sourced.verdict)
    && r.sourced.via.Shared? && Timely(fleet, r.sourced) && r.sourced.via.fetchedAt <= s.now
  }

  /** How long the write to the shared store took to land, and the reply from it to arrive. */
  function Delays(a: Answer): int {
    match a.sourced.via
    case Engine => 0
    case Shared(landedAt, fetchedAt) => (landedAt - a.sourced.verdict.at) + (a.insertedAt - fetchedAt)
  }

  /** How long a decision may live: in the memory of the instance that returns it, and in the shared store
      for as long as the instance that evaluated it has set, if it came from there. */
  function Lifetime(fleet: Fleet, a: Answer): nat
    requires a.instance in fleet && a.sourced.verdict.author in fleet
  {
    fleet[a.instance].l1Ttl + if a.sourced.via.Shared? then L2Ttl(fleet[a.sourced.verdict.author]) else 0
  }

  ghost predicate GoodAnswer(fleet: Fleet, s: State, a: Answer) {
    && a.instance in fleet
    && Evaluated(fleet, s, a.key, a.sourced.verdict)
    && a.sourced.verdict.at <= a.insertedAt <= a.at <= s.now
    && EnteredAt(a.instance, a.sourced, a.insertedAt)
    && 0 <= Delays(a)
    && (a.at - a.sourced.verdict.at < Lifetime(fleet, a) + Delays(a))
  }

  ghost predicate Good(fleet: Fleet, s: State) {
    && (forall i, e :: i in s.l1 && e in s.l1[i] ==> GoodEntry(fleet, s, i, e))
    && (forall key :: key in s.l2 ==> GoodStored(fleet, s, key, s.l2[key]))
    && (forall w :: w in s.writes ==> GoodWrite(fleet, s, w))
    && (forall r :: r in s.replies ==> GoodReply(fleet, s, r))
    && (forall a :: a in s.answers ==> GoodAnswer(fleet, s, a))
  }

  /** Time passing and further evaluations leave what was good good. */
  lemma GoodLater(fleet: Fleet, s: State, t: State)
    requires s.now <= t.now && s.evaluations <= t.evaluations
    ensures forall i, e :: GoodEntry(fleet, s, i, e) ==> GoodEntry(fleet, t, i, e)
    ensures forall key, x :: GoodStored(fleet, s, key, x) ==> GoodStored(fleet, t, key, x)
    ensures forall w :: GoodWrite(fleet, s, w) ==> GoodWrite(fleet, t, w)
    ensures forall r :: GoodReply(fleet, s, r) ==> GoodReply(fleet, t, r)
    ensures forall a :: GoodAnswer(fleet, s, a) ==> GoodAnswer(fleet, t, a)
  {
    assert forall x :: x in s.evaluations ==> x in t.evaluations;
  }

  lemma PutComesFrom(cap: nat, entries: seq<Entry<Sourced>>, key: string, value: Sourced, now: nat, e: Entry<Sourced>)
    requires e in Put(cap, entries, key, value, now)
    ensures e in entries || e == Entry(key, value, now)
  {
  }

  lemma GetComesFrom(ttl: nat, entries: seq<Entry<Sourced>>, key: string, now: nat, e: Entry<Sourced>)
    requires e in Get(ttl, entries, key, now).0
    ensures e in entries
  {
  }

  lemma DroppedComesFrom<T>(s: seq<T>, i: nat, x: T)
    requires i < |s| && x in Dropped(s, i)
    ensures x in s
  {
  }

  lemma EvaluateKeeps(fleet: Fleet, s: State, i: nat, key: string, decision: Decision)
    requires Good(fleet, s) && Runs(fleet, s, i)
    ensures Good(fleet, AfterEvaluate(fleet[i], s, i, key, decision))
  {
    var t := AfterEvaluate(fleet[i], s, i, key, decision);
    GoodLater(fleet, s, t);
    var v := Verdict(decision, i, s.now);
    assert t.evaluations[|s.evaluations|] == Evaluation(key, v);
    assert Evaluated(fleet, t, key, v);
    hide Put;
    forall j, e | j in t.l1 && e in t.l1[j]
      ensures GoodEntry(fleet, t, j, e)
    {
      if j == i {
        PutComesFrom(fleet[i].cap, s.l1[i], key, Sourced(v, Engine), s.now, e);
      }
    }
  }

  lemma LandKeeps(fleet: Fleet, s: State, i: nat)
    requires Good(fleet, s) && i < |s.writes| && s.writes[i].verdict.author in fleet
    ensures Good(fleet, AfterLand(fleet, s, i))
  {
    var t := AfterLand(fleet, s, i);
    var w := s.writes[i];
    GoodLater(fleet, s, t);
    assert w in s.writes && GoodWrite(fleet, s, w);
    forall v | v in t.writes
      ensures GoodWrite(fleet, t, v)
    {
      DroppedComesFrom(s.writes, i, v);
    }
  }

  lemma HitIsGood(fleet: Fleet, s: State, i: nat, key: string)
    requires Good(fleet, s) && Runs(fleet, s, i)
    ensures var hit := Get(fleet[i].l1Ttl, s.l1[i], key, s.now).1;
            hit.Some? ==> GoodAnswer(fleet, s, Answer(i, key, hit.value, InsertedAt(s.l1[i], key), s.now))
  {
    var at := IndexOf(s.l1[i], key);
    if at.Some? {
      assert s.l1[i][at.value] in s.l1[i];
      assert GoodEntry(fleet, s, i, s.l1[i][at.value]);
    }
  }

  lemma LookupKeeps(fleet: Fleet, s: State, i: nat, key: string)
    requires Good(fleet, s) && Runs(fleet, s, i)
    ensures Good(fleet, AfterLookup(fleet[i], s, i, key))
  {
    var t := AfterLookup(fleet[i], s, i, key);
    GoodLater(fleet, s, t);
    HitIsGood(fleet, s, i, key);
    hide Get, InsertedAt;
    forall j, e | j in t.l1 && e in t.l1[j]
      ensures GoodEntry(fleet, t, j, e)
    {
      if j == i {
        GetComesFrom(fleet[i].l1Ttl, s.l1[i], key, s.now, e);
      }
    }
  }

  lemma DeliverKeeps(fleet: Fleet, s: State, i: nat)
    requires Good(fleet, s) && i < |s.replies| && Runs(fleet, s, s.replies[i].instance)
    ensures Good(fleet, AfterDeliver(fleet[s.replies[i].instance], s, i))
  {
    var r := s.replies[i];
    var t := AfterDeliver(fleet[r.instance], s, i);
    GoodLater(fleet, s, t);
    assert r in s.replies && GoodReply(fleet, s, r);
    hide Put;
    forall j, e | j in t.l1 && e in t.l1[j]
      ensures GoodEntry(fleet, t, j, e)
    {
      if j == r.instance {
        PutComesFrom(fleet[j].cap, s.l1[j], r.key, r.sourced, s.now, e);
      }
    }
    forall q | q in t.replies
      ensures GoodReply(fleet, t, q)
    {
      DroppedComesFrom(s.replies, i, q);
    }
  }

  lemma NextKeeps(fleet: Fleet, s: State, step: Step)
    requires Good(fleet, s)
    ensures Good(fleet, Next(fleet, s, step))
  {
    match step
    case Tick(_) => GoodLater(fleet, s, Next(fleet, s, step));
    case Evaluate(i, key, decision) =>
      if Runs(fleet, s, i) {
        EvaluateKeeps(fleet, s, i, key, decision);
      }
    case Land(i) =>
      if i < |s.writes| && s.writes[i].verdict.author in fleet {
        LandKeeps(fleet, s, i);
      }
    case Lookup(i, key) =>
      if Runs(fleet, s, i) {
        LookupKeeps(fleet, s, i, key);
      }
    case Deliver(i) =>
      if i < |s.replies| && Runs(fleet, s, s.replies[i].instance) {
        DeliverKeeps(fleet, s, i);
      }
    case LoseWrite(i) => GoodLater(fleet, s, Next(fleet, s, step));
    case LoseReply(i) => GoodLater(fleet, s, Next(fleet, s, step));
  }

  lemma {:induction false} RunIsGood(fleet: Fleet, steps: seq<Step>)
    ensures Good(fleet, Run(fleet, steps))
    decreases |steps|
  {
    if steps != [] {
      RunIsGood(fleet, steps[..|steps| - 1]);
      NextKeeps(fleet, Run(fleet, steps[..|steps| - 1]), steps[|steps| - 1]);
    }
  }

  /**
   For any number of instances with settings of their own, every decision a lookup returned came from
   an evaluation of the same key, and its age was below the time it may spend in that instance's
   memory, plus the time its evaluator gives it in the shared store if it came from there, plus the
   delays of its own write and its own reply. An instance without the shared store returns only what
   it evaluated itself.
   */
  lemma AnswersAreRecentEvaluations(fleet: Fleet, steps: seq<Step>, a: Answer)
    requires a in Run(fleet, steps).answers
    ensures a.instance in fleet && a.sourced.verdict.author in fleet
    ensures Evaluation(a.key, a.sourced.verdict) in Run(fleet, steps).evaluations
    ensures 0 <= a.at - a.sourced.verdict.at < Lifetime(fleet, a) + Delays(a)
    ensures !fleet[a.instance].hasL2 ==> a.sourced.via.Engine? && Delays(a) == 0 && a.sourced.verdict.author == a.instance
  {
    RunIsGood(fleet, steps);
    assert GoodAnswer(fleet, Run(fleet, steps), a);
    if !fleet[a.instance].hasL2 {
      AloneIsLocal(fleet, steps, a.instance);
    }
  }

  /** Nothing of the instance comes from the shared store. */
  ghost predicate Local(s: State, i: nat) {
    && (forall r :: r in s.replies ==> r.instance != i)
    && (i in s.l1 ==> forall e :: e in s.l1[i] ==> e.value.via.Engine?)
    && (forall a :: a in s.answers && a.instance == i ==> a.sourced.via.Engine?)
  }

  lemma LocalLookup(fleet: Fleet, s: State, i: nat, key: string)
    requires Runs(fleet, s, i) && !fleet[i].hasL2 && Local(s, i)
    ensures Local(AfterLookup(fleet[i], s, i, key), i)
  {
    var t := AfterLookup(fleet[i], s, i, key);
    var at := IndexOf(s.l1[i], key);
    assert at.Some? ==> s.l1[i][at.value] in s.l1[i];
    forall e | e in t.l1[i]
      ensures e.value.via.Engine?
    {
      GetComesFrom(fleet[i].l1Ttl, s.l1[i], key, s.now, e);
    }
  }

  lemma LocalEvaluate(fleet: Fleet, s: State, i: nat, key: string, decision: Decision)
    requires Runs(fleet, s, i) && Local(s, i)
    ensures Local(AfterEvaluate(fleet[i], s, i, key, decision), i)
  {
    var t := AfterEvaluate(fleet[i], s, i, key, decision);
    hide Put;
    forall e | e in t.l1[i]
      ensures e.value.via.Engine?
    {
      PutComesFrom(fleet[i].cap, s.l1[i], key, Sourced(Verdict(decision, i, s.now), Engine), s.now, e);
    }
  }

  lemma LocalStep(fleet: Fleet, s: State, step: Step, i: nat)
    requires i in fleet && !fleet[i].hasL2 && Local(s, i)
    ensures Local(Next(fleet, s, step), i)
  {
    if step.Lookup? && Runs(fleet, s, step.instance) && step.instance == i {
      LocalLookup(fleet, s, i, step.key);
    } else if step.Evaluate? && Runs(fleet, s, step.instance) && step.instance == i {
      LocalEvaluate(fleet, s, i, step.key, step.decision);
    }
    hide Get, Put, InsertedAt;
  }

  lemma {:induction false} AloneIsLocal(fleet: Fleet, steps: seq<Step>, i: nat)
    requires i in fleet && !fleet[i].hasL2
    ensures Local(Run(fleet, steps), i)
    decreases |steps|
  {
    if steps != [] {
      AloneIsLocal(fleet, steps[..|steps| - 1], i);
      LocalStep(fleet, Run(fleet, steps[..|steps| - 1]), steps[|steps| - 1], i);
    }
  }

  /** Copying into memory never prolongs a decision's life in the shared store: what is stored there
      landed there once, straight from an evaluation, and can be read only for the time its evaluator
      has set. */
  lemma SharedLifeIsFixed(fleet: Fleet, steps: seq<Step>, key: string)
    requires key in Run(fleet, steps).l2
    ensures var s := Run(fleet, steps);
            var x := s.l2[key];
            && Evaluation(key, x.verdict) in s.evaluations && x.verdict.author in fleet
            && x.verdict.at <= x.landedAt <= s.now
            && (s.now < x.expiresAt <==> s.now - x.landedAt < L2Ttl(fleet[x.verdict.author]))
  {
    RunIsGood(fleet, steps);
    assert GoodStored(fleet, Run(fleet, steps), key, Run(fleet, steps).l2[key]);
  }

  // ----- What is stored is found -----

  /** The shared store keeps a decision for its whole seconds, and for one second at least. */
  lemma L2TtlIs(c: Config)
    ensures c.ttl < 2000 ==> L2Ttl(c) == 1000
    ensures c.ttl >= 1000 ==> L2Ttl(c) <= c.ttl < L2Ttl(c) + 1000
    ensures exists k: nat :: L2Ttl(c) == 1000 * k
  {
    assert L2Ttl(c) == 1000 * L2Seconds(c);
  }

  /** Memory holds the key and it has not expired. */
  ghost predicate Remembers(c: Config, s: State, i: nat, key: string)
    requires i in s.l1
  {
    exists e :: e in s.l1[i] && e.key == key && s.now < e.insertedAt + c.l1Ttl
  }

  lemma MemoryMisses(c: Config, s: State, i: nat, key: string)
    requires i in s.l1 && !Remembers(c, s, i, key) && forall e :: e in s.l1[i] ==> e.insertedAt <= s.now
    ensures Get(c.l1Ttl, s.l1[i], key, s.now).1.None?
  {
    var at := IndexOf(s.l1[i], key);
    if at.Some? {
      assert s.l1[i][at.value] in s.l1[i];
    }
  }

  /** What was just put into memory is found there. */
  lemma PutIsFound(c: Config, entries: seq<Entry<Sourced>>, key: string, x: Sourced, now: nat)
    requires c.l1Ttl > 0
    ensures var after := Put(c.cap, entries, key, x, now);
            Get(c.l1Ttl, after, key, now).1 == Some(x) && InsertedAt(after, key) == now
  {
    var after := Put(c.cap, entries, key, x, now);
    assert after[0] == Entry(key, x, now) && IndexOf(after, key) == Some(0);
  }

  /**
   When memory misses and the shared store holds an unexpired decision, the lookup sends for it, and the
   reply is answered with that decision and remembered: an instance that remembers at all finds it in
   memory at the next lookup.
   */
  lemma StoredIsFound(fleet: Fleet, s: State, i: nat, key: string)
    requires Good(fleet, s) && Runs(fleet, s, i) && fleet[i].hasL2 && !Remembers(fleet[i], s, i, key)
    requires key in s.l2 && s.now < s.l2[key].expiresAt
    ensures var x := Sourced(s.l2[key].verdict, Shared(s.l2[key].landedAt, s.now));
            var t := Next(fleet, s, Step.Lookup(i, key));
            var u := Next(fleet, t, Deliver(|s.replies|));
            && t.replies == s.replies + [Reply(i, key, x)] && t.answers == s.answers
            && u.replies == s.replies && u.answers == s.answers + [Answer(i, key, x, s.now, s.now)]
            && (fleet[i].l1Ttl > 0 ==>
                  Next(fleet, u, Step.Lookup(i, key)).answers == u.answers + [Answer(i, key, x, s.now, s.now)])
  {
    var x := Sourced(s.l2[key].verdict, Shared(s.l2[key].landedAt, s.now));
    assert forall e :: e in s.l1[i] ==> GoodEntry(fleet, s, i, e);
    MemoryMisses(fleet[i], s, i, key);
    var t := Next(fleet, s, Step.Lookup(i, key));
    hide Good, Get, Put, Remembers, InsertedAt;
    assert t.replies == s.replies + [Reply(i, key, x)] && t.replies[|s.replies|] == Reply(i, key, x);
    assert Dropped(t.replies, |s.replies|) == s.replies;
    if fleet[i].l1Ttl > 0 {
      PutIsFound(fleet[i], t.l1[i], key, x, s.now);
    }
  }

  /** A lookup that memory can answer is answered from there, and nothing is sent for. */
  lemma RememberedIsFound(fleet: Fleet, s: State, i: nat, key: string, e: Entry<Sourced>)
    requires Runs(fleet, s, i) && Bounded(fleet[i].cap, s.l1[i])
    requires e in s.l1[i] && e.key == key && e.insertedAt <= s.now < e.insertedAt + fleet[i].l1Ttl
    ensures var t := Next(fleet, s, Step.Lookup(i, key));
            t.answers == s.answers + [Answer(i, key, e.value, e.insertedAt, s.now)] && t.replies == s.replies
  {
    var at := IndexOf(s.l1[i], key);
    var j :| 0 <= j < |s.l1[i]| && s.l1[i][j] == e;
    assert at.Some? && at.value == j;
  }

  /** An evaluated decision is answered from memory at once, and its write, when it lands, is what the shared
      store holds. */
  lemma EvaluatedIsStored(fleet: Fleet, s: State, i: nat, key: string, decision: Decision)
    requires Runs(fleet, s, i)
    ensures var v := Verdict(decision, i, s.now);
            var t := Next(fleet, s, Evaluate(i, key, decision));
            && (fleet[i].l1Ttl > 0 ==>
                  Next(fleet, t, Step.Lookup(i, key)).answers == s.answers + [Answer(i, key, Sourced(v, Engine), s.now, s.now)])
            && (fleet[i].hasL2 ==>
                  var u := Next(fleet, t, Land(|s.writes|));
                  key in u.l2 && u.l2[key] == Stored(v, s.now, s.now + L2Ttl(fleet[i])) && u.writes == s.writes)
            && (!fleet[i].hasL2 ==> t.writes == s.writes && t.l2 == s.l2)
  {
    var v := Verdict(decision, i, s.now);
    var t := Next(fleet, s, Evaluate(i, key, decision));
    if fleet[i].l1Ttl > 0 {
      PutIsFound(fleet[i], s.l1[i], key, Sourced(v, Engine), s.now);
    }
    hide Get, Put, L2Ttl, InsertedAt;
    if fleet[i].hasL2 {
      assert t.writes[|s.writes|] == Write(key, v);
      assert Dropped(t.writes, |s.writes|) == s.writes;
    }
  }
}
