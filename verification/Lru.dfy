/** A least-recently-used list with expiry: entries most recent first. */
module Lru {
  import opened Wrappers
  import opened Sets

  datatype Entry<+V> = Entry(key: string, value: V, insertedAt: nat)

  function IndexOf<V>(entries: seq<Entry<V>>, key: string): (r: Option<nat>)
    ensures r.Some? ==> r.value < |entries| && entries[r.value].key == key
    ensures r.None? <==> forall i :: 0 <= i < |entries| ==> entries[i].key != key
  {
    if entries == [] then None
    else if entries[0].key == key then Some(0)
    else
      var r := IndexOf(entries[1..], key);
      if r.Some? then Some(r.value + 1) else None
  }

  function Remove<V>(entries: seq<Entry<V>>, i: nat): seq<Entry<V>>
    requires i < |entries|
  {
    entries[..i] + entries[i + 1..]
  }

  /** Writes a key and makes it the most recent; a new key in a full list pushes out the oldest entry. */
  function Put<V>(cap: nat, entries: seq<Entry<V>>, key: string, value: V, now: nat): seq<Entry<V>> {
    var at := IndexOf(entries, key);
    var others :=
      if at.Some? then Remove(entries, at.value)
      else if |entries| >= cap && entries != [] then entries[..|entries| - 1]
      else entries;
    [Entry(key, value, now)] + others
  }

  /** Age since insertion; a clock that has not advanced past the insertion counts as no age. */
  predicate Fresh<V>(ttl: nat, e: Entry<V>, now: nat) {
    (if now < e.insertedAt then 0 else now - e.insertedAt) < ttl
  }

  /** Looks a key up: a fresh entry becomes the most recent, an expired one is removed. */
  function Get<V>(ttl: nat, entries: seq<Entry<V>>, key: string, now: nat): (seq<Entry<V>>, Option<V>) {
    var at := IndexOf(entries, key);
    if at.None? then (entries, None)
    else
      var e := entries[at.value];
      if Fresh(ttl, e, now) then ([e] + Remove(entries, at.value), Some(e.value))
      else (Remove(entries, at.value), None)
  }

  // ----- Runs of lookups and insertions -----

  datatype Op<+V> = Lookup(key: string, now: nat) | Insertion(key: string, value: V, now: nat)

  function After<V>(cap: nat, ttl: nat, entries: seq<Entry<V>>, op: Op<V>): seq<Entry<V>> {
    match op
    case Lookup(key, now) => Get(ttl, entries, key, now).0
    case Insertion(key, value, now) => Put(cap, entries, key, value, now)
  }

  function Run<V>(cap: nat, ttl: nat, ops: seq<Op<V>>): seq<Entry<V>>
    decreases |ops|
  {
    if ops == [] then [] else After(cap, ttl, Run(cap, ttl, ops[..|ops| - 1]), ops[|ops| - 1])
  }

  /** The unbounded timed map: what was last inserted under a key, and when. */
  function LastInsertion<V>(ops: seq<Op<V>>, key: string): Option<Entry<V>>
    decreases |ops|
  {
    if ops == [] then None
    else
      var op := ops[|ops| - 1];
      if op.Insertion? && op.key == key then Some(Entry(key, op.value, op.now))
      else LastInsertion(ops[..|ops| - 1], key)
  }

  lemma {:induction false} LastInsertionIsPast<V>(ops: seq<Op<V>>, key: string, now: nat)
    requires forall i :: 0 <= i < |ops| ==> ops[i].now <= now
    ensures LastInsertion(ops, key).Some? ==> LastInsertion(ops, key).value.insertedAt <= now
    decreases |ops|
  {
    if ops != [] {
      LastInsertionIsPast(ops[..|ops| - 1], key, now);
    }
  }

  /** An operation uses its key when it inserts it or finds it present. */
  predicate Uses<V>(entries: seq<Entry<V>>, op: Op<V>) {
    op.Insertion? || IndexOf(entries, op.key).Some?
  }

  /** The other keys used since a key's own last use. */
  function UsedSince<V>(cap: nat, ttl: nat, ops: seq<Op<V>>, key: string): set<string>
    decreases |ops|
  {
    if ops == [] then {}
    else
      var before, op := ops[..|ops| - 1], ops[|ops| - 1];
      if !Uses(Run(cap, ttl, before), op) then UsedSince(cap, ttl, before, key)
      else if op.key == key then {}
      else UsedSince(cap, ttl, before, key) + {op.key}
  }

  // ----- What every run keeps -----

  ghost predicate DistinctKeys<V>(entries: seq<Entry<V>>) {
    forall i, j :: 0 <= i < j < |entries| ==> entries[i].key != entries[j].key
  }

  ghost function Keys<V>(entries: seq<Entry<V>>): set<string> {
    set i | 0 <= i < |entries| :: entries[i].key
  }

  ghost predicate Bounded<V>(cap: nat, entries: seq<Entry<V>>) {
    DistinctKeys(entries) && |entries| <= cap
  }

  lemma RemoveKeeps<V>(cap: nat, entries: seq<Entry<V>>, i: nat)
    requires Bounded(cap, entries) && i < |entries|
    ensures Bounded(cap, Remove(entries, i)) && |Remove(entries, i)| < cap
    ensures IndexOf(Remove(entries, i), entries[i].key).None?
  {
  }

  lemma FrontKeeps<V>(cap: nat, e: Entry<V>, others: seq<Entry<V>>)
    requires Bounded(cap, others) && |others| < cap && IndexOf(others, e.key).None?
    ensures Bounded(cap, [e] + others)
  {
  }

  lemma AfterKeepsBounded<V>(cap: nat, ttl: nat, entries: seq<Entry<V>>, op: Op<V>)
    requires cap >= 1 && Bounded(cap, entries)
    ensures Bounded(cap, After(cap, ttl, entries, op))
  {
    var at := IndexOf(entries, op.key);
    if at.Some? {
      RemoveKeeps(cap, entries, at.value);
      FrontKeeps(cap, entries[at.value], Remove(entries, at.value));
      if op.Insertion? {
        FrontKeeps(cap, Entry(op.key, op.value, op.now), Remove(entries, at.value));
      }
    } else if op.Insertion? {
      var others := if |entries| >= cap && entries != [] then entries[..|entries| - 1] else entries;
      FrontKeeps(cap, Entry(op.key, op.value, op.now), others);
    }
  }

  /** The list never grows past its capacity. */
  lemma {:induction false} RunIsBounded<V>(cap: nat, ttl: nat, ops: seq<Op<V>>)
    requires cap >= 1
    ensures Bounded(cap, Run(cap, ttl, ops))
    decreases |ops|
  {
    if ops != [] {
      RunIsBounded(cap, ttl, ops[..|ops| - 1]);
      AfterKeepsBounded(cap, ttl, Run(cap, ttl, ops[..|ops| - 1]), ops[|ops| - 1]);
    }
  }

  /** Whoever is in the list afterwards was there with the same entry, or has just been inserted. */
  lemma AfterComesFrom<V>(cap: nat, ttl: nat, entries: seq<Entry<V>>, op: Op<V>, e: Entry<V>)
    requires e in After(cap, ttl, entries, op)
    ensures e in entries || (op.Insertion? && e == Entry(op.key, op.value, op.now))
    ensures cap >= 1 && Bounded(cap, entries) && op.Insertion? && e.key == op.key ==> e == Entry(op.key, op.value, op.now)
  {
    var at := IndexOf(entries, op.key);
    if op.Insertion? && Bounded(cap, entries) && at.Some? {
      RemoveKeeps(cap, entries, at.value);
    }
  }

  /** An entry in the list is the last insertion under its key. */
  lemma {:induction false} EntriesAreLatest<V>(cap: nat, ttl: nat, ops: seq<Op<V>>, e: Entry<V>)
    requires cap >= 1 && e in Run(cap, ttl, ops)
    ensures LastInsertion(ops, e.key) == Some(e)
    decreases |ops|
  {
    var before, op := ops[..|ops| - 1], ops[|ops| - 1];
    RunIsBounded(cap, ttl, before);
    AfterComesFrom(cap, ttl, Run(cap, ttl, before), op, e);
    if e in Run(cap, ttl, before) {
      EntriesAreLatest(cap, ttl, before, e);
    }
  }

  // ----- Why a key is missing -----

  /** The entries in front of a key are among the keys used since it was. */
  ghost predicate RecencyOf<V>(entries: seq<Entry<V>>, key: string, since: set<string>) {
    forall i, j :: 0 <= i < j < |entries| && entries[j].key == key ==> entries[i].key in since
  }

  ghost predicate Expired<V>(ttl: nat, last: Option<Entry<V>>, now: nat) {
    last.Some? && !Fresh(ttl, last.value, now)
  }

  /** A key that was inserted is in the list, or has expired, or enough other keys were used since. */
  ghost predicate Accounted<V>(cap: nat, ttl: nat, ops: seq<Op<V>>, key: string, now: nat) {
    LastInsertion(ops, key).Some? && IndexOf(Run(cap, ttl, ops), key).None? ==>
      Expired(ttl, LastInsertion(ops, key), now) || |UsedSince(cap, ttl, ops, key)| >= cap
  }

  lemma {:induction false} DistinctCount<V>(entries: seq<Entry<V>>)
    requires DistinctKeys(entries)
    ensures |Keys(entries)| == |entries|
    decreases |entries|
  {
    if entries == [] {
      assert Keys(entries) == {};
    } else {
      var n := |entries| - 1;
      DistinctCount(entries[..n]);
      assert Keys(entries) == Keys(entries[..n]) + {entries[n].key};
    }
  }

  /** Moving a used key to the front keeps every other key's account of who is in front of it. */
  lemma RecencyAfter<V>(cap: nat, ttl: nat, entries: seq<Entry<V>>, op: Op<V>, key: string, since: set<string>)
    requires cap >= 1 && Bounded(cap, entries) && RecencyOf(entries, key, since)
    ensures var next := After(cap, ttl, entries, op);
            if !Uses(entries, op) then RecencyOf(next, key, since)
            else if op.key == key then RecencyOf(next, key, {})
            else RecencyOf(next, key, since + {op.key})
  {
    var at := IndexOf(entries, op.key);
    if at.Some? {
      RemoveKeeps(cap, entries, at.value);
      RemoveRecency(entries, at.value, key, since);
      if op.key == key {
        NobodyInFront(Remove(entries, at.value), key);
      }
    } else if op.key == key {
      NobodyInFront(entries, key);
    }
    hide IndexOf, Remove, Bounded;
  }

  lemma RemoveRecency<V>(entries: seq<Entry<V>>, at: nat, key: string, since: set<string>)
    requires at < |entries| && RecencyOf(entries, key, since)
    ensures RecencyOf(Remove(entries, at), key, since)
  {
    var r := Remove(entries, at);
    forall i, j | 0 <= i < j < |r| && r[j].key == key
      ensures r[i].key in since
    {
      assert r[j] == entries[if j < at then j else j + 1];
      assert r[i] == entries[if i < at then i else i + 1];
    }
  }

  lemma NobodyInFront<V>(entries: seq<Entry<V>>, key: string)
    requires IndexOf(entries, key).None?
    ensures forall i :: 0 <= i < |entries| ==> entries[i].key != key
  {
  }

  lemma {:induction false} RunRecency<V>(cap: nat, ttl: nat, ops: seq<Op<V>>, key: string)
    requires cap >= 1
    ensures RecencyOf(Run(cap, ttl, ops), key, UsedSince(cap, ttl, ops, key))
    decreases |ops|
  {
    if ops != [] {
      var before, op := ops[..|ops| - 1], ops[|ops| - 1];
      RunRecency(cap, ttl, before, key);
      RunIsBounded(cap, ttl, before);
      RecencyAfter(cap, ttl, Run(cap, ttl, before), op, key, UsedSince(cap, ttl, before, key));
    }
  }

  /** An entry leaves the list only when it is found expired, or when it is last in a full list and a
      new key comes in. */
  ghost predicate Leaves<V>(cap: nat, ttl: nat, entries: seq<Entry<V>>, op: Op<V>, i: nat)
    requires i < |entries|
  {
    if op.Lookup? then op.key == entries[i].key && !Fresh(ttl, entries[i], op.now)
    else IndexOf(entries, op.key).None? && |entries| == cap && i == cap - 1
  }

  lemma OthersStay<V>(cap: nat, ttl: nat, entries: seq<Entry<V>>, op: Op<V>, i: nat)
    requires cap >= 1 && Bounded(cap, entries) && i < |entries|
    requires !Leaves(cap, ttl, entries, op, i)
    ensures IndexOf(After(cap, ttl, entries, op), entries[i].key).Some?
  {
    var at := IndexOf(entries, op.key);
    var next := After(cap, ttl, entries, op);
    if at.Some? && at.value != i {
      StaysAfterRemove(entries, at.value, i);
      assert entries[i] in next;
    } else if at.Some? {
      assert next[0].key == entries[i].key;
    } else if op.Insertion? {
      var others := if |entries| >= cap && entries != [] then entries[..|entries| - 1] else entries;
      assert next[i + 1] == others[i] == entries[i];
    }
  }

  lemma StaysAfterRemove<V>(entries: seq<Entry<V>>, at: nat, i: nat)
    requires at < |entries| && i < |entries| && at != i
    ensures entries[i] in Remove(entries, at)
  {
    var r := Remove(entries, at);
    if i < at {
      assert r[i] == entries[i];
    } else {
      assert r[i - 1] == entries[i];
    }
  }

  /** The last entry of a full list has all other entries in front of it. */
  lemma EvictionNeedsCapacity<V>(cap: nat, entries: seq<Entry<V>>, since: set<string>, newcomer: string)
    requires cap >= 1 && Bounded(cap, entries) && |entries| == cap
    requires RecencyOf(entries, entries[cap - 1].key, since)
    requires IndexOf(entries, newcomer).None?
    ensures |since + {newcomer}| >= cap
  {
    var front := entries[..cap - 1];
    DistinctCount(front);
    assert Keys(front) <= since;
    assert newcomer !in Keys(front);
    SubsetSize(Keys(front) + {newcomer}, since + {newcomer});
  }

  lemma MissingStep<V>(cap: nat, ttl: nat, ops: seq<Op<V>>, key: string, now: nat)
    requires cap >= 1 && ops != [] && ops[|ops| - 1].now <= now
    requires Accounted(cap, ttl, ops[..|ops| - 1], key, now)
    ensures Accounted(cap, ttl, ops, key, now)
  {
    var before, op := ops[..|ops| - 1], ops[|ops| - 1];
    var entries := Run(cap, ttl, before);
    var at := IndexOf(entries, key);
    RunIsBounded(cap, ttl, before);
    if at.None? {
      SubsetSize(UsedSince(cap, ttl, before, key), UsedSince(cap, ttl, before, key) + {op.key});
    } else if !Leaves(cap, ttl, entries, op, at.value) {
      OthersStay(cap, ttl, entries, op, at.value);
    } else if op.Lookup? {
      EntriesAreLatest(cap, ttl, before, entries[at.value]);
    } else {
      RunRecency(cap, ttl, before, key);
      EvictionNeedsCapacity(cap, entries, UsedSince(cap, ttl, before, key), op.key);
    }
  }

  /** A key that was inserted and has not expired is missing only if at least as many other keys as the
      list can hold were used since its own last use. */
  lemma {:induction false} MissingIsAccounted<V>(cap: nat, ttl: nat, ops: seq<Op<V>>, key: string, now: nat)
    requires cap >= 1 && forall i :: 0 <= i < |ops| ==> ops[i].now <= now
    ensures Accounted(cap, ttl, ops, key, now)
    decreases |ops|
  {
    if ops != [] {
      MissingIsAccounted(cap, ttl, ops[..|ops| - 1], key, now);
      MissingStep(cap, ttl, ops, key, now);
    }
  }
}
