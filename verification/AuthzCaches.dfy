/** The in-memory decision cache of one proxy instance. */
module AuthzCaches {
  import opened Wrappers
  import opened Lru

  datatype Decision = Allow | Deny(reason: string)

  function Lookups(ops: seq<Op<Decision>>): nat {
    if ops == [] then 0 else Lookups(ops[..|ops| - 1]) + (if ops[|ops| - 1].Lookup? then 1 else 0)
  }

  function Capacity(maxEntries: nat): nat {
    if maxEntries < 1 then 1 else maxEntries
  }

  class AuthzCache {
    const ttl: nat
    const cap: nat
    var entries: seq<Entry<Decision>>
    var hits: nat
    var misses: nat
    ghost var ops: seq<Op<Decision>>  // everything done to the cache so far

    constructor (ttl: nat, maxEntries: nat)
      ensures Valid() && this.ttl == ttl && ops == []
      ensures cap == if maxEntries == 0 then 1 else maxEntries
    {
      this.ttl, cap := ttl, Capacity(maxEntries);
      entries, hits, misses, ops := [], 0, 0, [];
    }

    ghost predicate Valid()
      reads this
    {
      && cap >= 1
      && entries == Run(cap, ttl, ops)
      && |entries| <= cap
      && hits + misses == Lookups(ops)
    }

    /** The clock never runs backwards. */
    ghost predicate Current(now: nat)
      reads this
    {
      forall i :: 0 <= i < |ops| ==> ops[i].now <= now
    }

    /** A hit is the last insertion under the key, still fresh; a miss means that there was none, that it
        expired, or that at least `cap` other keys were used since the key was. */
    method Get(key: string, now: nat) returns (r: Option<Decision>)
      requires Valid() && Current(now)
      modifies this
      ensures Valid() && ops == old(ops) + [Op<Decision>.Lookup(key, now)]
      ensures r.Some? ==>
        exists e: Entry<Decision> :: LastInsertion(old(ops), key) == Some(e) && e.value == r.value && now - e.insertedAt < ttl
      ensures r.None? ==>
        || LastInsertion(old(ops), key).None?
        || now - LastInsertion(old(ops), key).value.insertedAt >= ttl
        || |UsedSince(cap, ttl, old(ops), key)| >= cap
      ensures hits == old(hits) + (if r.Some? then 1 else 0) && misses == old(misses) + (if r.Some? then 0 else 1)
    {
      MissingIsAccounted(cap, ttl, ops, key, now);
      LastInsertionIsPast(ops, key, now);
      var at := IndexOf(entries, key);
      if at.Some? {
        EntriesAreLatest(cap, ttl, ops, entries[at.value]);
      }
      ghost var op := Op<Decision>.Lookup(key, now);
      assert (ops + [op])[..|ops|] == ops;
      RunIsBounded(cap, ttl, ops + [op]);
      if at.Some? && Fresh(ttl, entries[at.value], now) {
        var e := entries[at.value];
        entries := [e] + Remove(entries, at.value);
        hits := hits + 1;
        r := Some(e.value);
      } else if at.Some? {
        entries := Remove(entries, at.value);
        misses := misses + 1;
        r := None;
      } else {
        misses := misses + 1;
        r := None;
      }
      ops := ops + [op];
    }

    method Insert(key: string, decision: Decision, now: nat)
      requires Valid()
      modifies this
      ensures Valid() && ops == old(ops) + [Insertion(key, decision, now)]
      ensures LastInsertion(ops, key) == Some(Entry(key, decision, now))
      ensures hits == old(hits) && misses == old(misses)
    {
      ghost var op := Insertion(key, decision, now);
      assert (ops + [op])[..|ops|] == ops;
      RunIsBounded(cap, ttl, ops + [op]);
      entries := Put(cap, entries, key, decision, now);
      ops := ops + [op];
    }
  }
}
