/** The signing keys of an organization: generation, rotation with a grace period, and revocation. */
module SigningKeys {
  import opened Wrappers

  datatype Status = Active | Rotating(expiresAt: int) | Revoked

  datatype KeyEntry = KeyEntry(keyId: string, publicKey: string, status: Status, createdAt: int, expiresAt: Option<int>)

  predicate IsActive(e: KeyEntry, now: int) {
    match e.status
    case Active => true
    case Rotating(expiresAt) => now < expiresAt
    case Revoked => false
  }

  datatype KeyError = NotFound | Conflict

  function Position(entries: seq<KeyEntry>, keyId: string): (r: Option<nat>)
    ensures r.Some? ==> r.value < |entries| && entries[r.value].keyId == keyId
    ensures r.Some? ==> forall i :: 0 <= i < r.value ==> entries[i].keyId != keyId
    ensures r.None? <==> forall i :: 0 <= i < |entries| ==> entries[i].keyId != keyId
  {
    if entries == [] then None
    else if entries[0].keyId == keyId then Some(0)
    else
      var r := Position(entries[1..], keyId);
      if r.Some? then Some(r.value + 1) else None
  }

  function BeginRotating(e: KeyEntry, expiresAt: int): KeyEntry {
    e.(status := Rotating(expiresAt), expiresAt := Some(expiresAt))
  }

  function Revoke(e: KeyEntry): KeyEntry {
    e.(status := Revoked, expiresAt := None)
  }

  /** The key is usable at a time. */
  predicate Usable(entries: seq<KeyEntry>, keyId: string, now: int) {
    var at := Position(entries, keyId);
    at.Some? && IsActive(entries[at.value], now)
  }

  /** Same entries, except for one. */
  ghost predicate OnlyChanges(before: seq<KeyEntry>, after: seq<KeyEntry>, at: nat) {
    |after| >= |before| && forall i :: 0 <= i < |before| && i != at ==> after[i] == before[i]
  }

  function ActiveCount(entries: seq<KeyEntry>): nat {
    if entries == [] then 0
    else ActiveCount(entries[..|entries| - 1]) + (if entries[|entries| - 1].status.Active? then 1 else 0)
  }

  /** The expiry field shows the expiry of a rotation and nothing else. */
  ghost predicate Mirrors(entries: seq<KeyEntry>) {
    forall i :: 0 <= i < |entries| ==>
      entries[i].expiresAt == if entries[i].status.Rotating? then Some(entries[i].status.expiresAt) else None
  }

  lemma {:induction false} ActiveCountUpdate(entries: seq<KeyEntry>, i: nat, e: KeyEntry)
    requires i < |entries|
    ensures ActiveCount(entries[i := e]) ==
            ActiveCount(entries) + (if e.status.Active? then 1 else 0) - (if entries[i].status.Active? then 1 else 0)
    decreases |entries|
  {
    var n := |entries| - 1;
    if i < n {
      assert entries[i := e][..n] == entries[..n][i := e];
      ActiveCountUpdate(entries[..n], i, e);
    } else {
      assert entries[i := e][..n] == entries[..n];
    }
  }

  /** Fails when the key is unknown or not active. Otherwise the key stays usable for the grace period
      and no longer, the new entry follows, every other entry is as before, and the number of active
      keys does not change if the new entry is active. */
  method RotateEntries(existing: seq<KeyEntry>, target: string, newEntry: KeyEntry, now: int, grace: int)
    returns (r: Result<seq<KeyEntry>, KeyError>)
    ensures r == Err(NotFound) <==> Position(existing, target).None?
    ensures r == Err(Conflict) <==>
      Position(existing, target).Some? && !existing[Position(existing, target).value].status.Active?
    ensures r.Ok? ==>
      && Position(existing, target).Some?
      && |r.value| == |existing| + 1 && r.value[|existing|] == newEntry
      && OnlyChanges(existing, r.value, Position(existing, target).value)
      && r.value == Rotated(existing, Position(existing, target).value, newEntry, now + grace)
      && (forall t :: Usable(r.value, target, t) <==> t < now + grace)
      && (newEntry.status.Active? ==> ActiveCount(r.value) == ActiveCount(existing))
  {
    var idx := Position(existing, target);
    if idx.None? {
      return Err(NotFound);
    }
    if !existing[idx.value].status.Active? {
      return Err(Conflict);
    }
    var entries := existing;
    entries := entries[idx.value := BeginRotating(entries[idx.value], now + grace)];
    ActiveCountUpdate(existing, idx.value, entries[idx.value]);
    ghost var rotated := entries;
    entries := entries + [newEntry];
    assert entries[..|existing|] == rotated;
    SamePosition(existing, entries, target);
    return Ok(entries);
  }

  /** Nothing to do when the key is unknown or already revoked. Otherwise it is never usable again and
      every other entry is as before. */
  method RevokeEntries(existing: seq<KeyEntry>, target: string) returns (r: Option<seq<KeyEntry>>)
    ensures r.None? <==> Position(existing, target).None? || existing[Position(existing, target).value].status.Revoked?
    ensures r.Some? ==>
      && |r.value| == |existing|
      && OnlyChanges(existing, r.value, Position(existing, target).value)
      && r.value == existing[Position(existing, target).value := Revoke(existing[Position(existing, target).value])]
      && forall t :: !Usable(r.value, target, t)
  {
    var idx := Position(existing, target);
    if idx.None? || existing[idx.value].status.Revoked? {
      return None;
    }
    var entries := existing;
    entries := entries[idx.value := Revoke(entries[idx.value])];
    SamePosition(existing, entries, target);
    return Some(entries);
  }

  function Rotated(existing: seq<KeyEntry>, at: nat, newEntry: KeyEntry, expiresAt: int): seq<KeyEntry>
    requires at < |existing|
  {
    existing[at := BeginRotating(existing[at], expiresAt)] + [newEntry]
  }

  lemma {:induction false} SamePosition(before: seq<KeyEntry>, after: seq<KeyEntry>, keyId: string)
    requires |before| <= |after| && forall i :: 0 <= i < |before| ==> after[i].keyId == before[i].keyId
    requires Position(before, keyId).Some?
    ensures Position(after, keyId) == Position(before, keyId)
  {
    if before[0].keyId != keyId {
      SamePosition(before[1..], after[1..], keyId);
    }
  }

  // ----- Runs -----

  datatype KeyOp =
    | Generate(entry: KeyEntry)
    | Rotate(target: string, entry: KeyEntry, now: int, grace: int)
    | RevokeKey(target: string)

  /** An operation that is refused leaves the keys as they are. */
  function After(entries: seq<KeyEntry>, op: KeyOp): seq<KeyEntry> {
    match op
    case Generate(e) => entries + [e]
    case Rotate(target, e, now, grace) =>
      var at := Position(entries, target);
      if at.Some? && entries[at.value].status.Active? then Rotated(entries, at.value, e, now + grace) else entries
    case RevokeKey(target) =>
      var at := Position(entries, target);
      if at.Some? && !entries[at.value].status.Revoked? then entries[at.value := Revoke(entries[at.value])] else entries
  }

  function Run(entries: seq<KeyEntry>, ops: seq<KeyOp>): seq<KeyEntry>
    decreases |ops|
  {
    if ops == [] then entries else After(Run(entries, ops[..|ops| - 1]), ops[|ops| - 1])
  }

  /** What an entry may become: an active key anything, a rotating one only itself or revoked, and its
      expiry never moves. */
  ghost predicate Ages(e: KeyEntry, later: KeyEntry) {
    && later.keyId == e.keyId && later.publicKey == e.publicKey && later.createdAt == e.createdAt
    && (e.status.Rotating? ==> later.status == e.status || later.status.Revoked?)
    && (e.status.Revoked? ==> later.status.Revoked?)
  }

  ghost predicate AllAge(entries: seq<KeyEntry>, later: seq<KeyEntry>) {
    |entries| <= |later| && forall i :: 0 <= i < |entries| ==> Ages(entries[i], later[i])
  }

  lemma AfterAges(entries: seq<KeyEntry>, op: KeyOp)
    ensures AllAge(entries, After(entries, op))
  {
  }

  lemma {:induction false} RunAges(entries: seq<KeyEntry>, ops: seq<KeyOp>)
    ensures AllAge(entries, Run(entries, ops))
    decreases |ops|
  {
    if ops != [] {
      var n := |ops| - 1;
      RunAges(entries, ops[..n]);
      AfterAges(Run(entries, ops[..n]), ops[n]);
    }
  }

  /** A key that is known and unusable at some time stays unusable at every later time, whatever is
      generated, rotated or revoked in between. */
  lemma UnusableForGood(entries: seq<KeyEntry>, ops: seq<KeyOp>, keyId: string, t: int, later: int)
    requires Position(entries, keyId).Some? && !Usable(entries, keyId, t) && t <= later
    ensures !Usable(Run(entries, ops), keyId, later)
  {
    RunAges(entries, ops);
    SamePosition(entries, Run(entries, ops), keyId);
  }

  /** A rotation's expiry never moves: while the key is still rotating it is the expiry it was given. */
  lemma {:induction false} ExpiryNeverMoves(entries: seq<KeyEntry>, ops: seq<KeyOp>, i: nat)
    requires i < |entries| && entries[i].status.Rotating?
    ensures i < |Run(entries, ops)|
    ensures Run(entries, ops)[i].status == entries[i].status || Run(entries, ops)[i].status.Revoked?
  {
    RunAges(entries, ops);
    assert Ages(entries[i], Run(entries, ops)[i]);
  }

  ghost predicate NewEntriesActive(ops: seq<KeyOp>) {
    forall i :: 0 <= i < |ops| && !ops[i].RevokeKey? ==> ops[i].entry.status.Active? && ops[i].entry.expiresAt.None?
  }

  /** The expiry field mirrors the status over every run. */
  lemma {:induction false} RunMirrors(entries: seq<KeyEntry>, ops: seq<KeyOp>)
    requires Mirrors(entries) && NewEntriesActive(ops)
    ensures Mirrors(Run(entries, ops))
    decreases |ops|
  {
    if ops != [] {
      RunMirrors(entries, ops[..|ops| - 1]);
    }
  }

  lemma {:induction false} CountsAppend(entries: seq<KeyEntry>, e: KeyEntry)
    ensures ActiveCount(entries + [e]) == ActiveCount(entries) + (if e.status.Active? then 1 else 0)
  {
    assert (entries + [e])[..|entries|] == entries;
  }

  ghost function GenerateCount(ops: seq<KeyOp>): nat {
    if ops == [] then 0 else GenerateCount(ops[..|ops| - 1]) + (if ops[|ops| - 1].Generate? then 1 else 0)
  }

  lemma AfterCount(entries: seq<KeyEntry>, op: KeyOp)
    requires !op.RevokeKey? ==> op.entry.status.Active?
    ensures op.Rotate? ==> ActiveCount(After(entries, op)) == ActiveCount(entries)
    ensures op.Generate? ==> ActiveCount(After(entries, op)) == ActiveCount(entries) + 1
    ensures op.RevokeKey? ==> ActiveCount(entries) - 1 <= ActiveCount(After(entries, op)) <= ActiveCount(entries)
  {
    hide ActiveCount, Position;
    match op
    case Generate(e) => CountsAppend(entries, e);
    case Rotate(target, e, now, grace) =>
      var at := Position(entries, target);
      if at.Some? && entries[at.value].status.Active? {
        ActiveCountUpdate(entries, at.value, BeginRotating(entries[at.value], now + grace));
        CountsAppend(entries[at.value := BeginRotating(entries[at.value], now + grace)], e);
      }
    case RevokeKey(target) =>
      var at := Position(entries, target);
      if at.Some? {
        ActiveCountUpdate(entries, at.value, Revoke(entries[at.value]));
      }
  }

  /** Rotations never change how many keys are active, however many there are. */
  lemma {:induction false} RotationsKeepActiveCount(entries: seq<KeyEntry>, ops: seq<KeyOp>)
    requires NewEntriesActive(ops) && forall i :: 0 <= i < |ops| ==> !ops[i].RevokeKey?
    ensures ActiveCount(Run(entries, ops)) == ActiveCount(entries) + GenerateCount(ops)
    decreases |ops|
  {
    if ops != [] {
      var n := |ops| - 1;
      RotationsKeepActiveCount(entries, ops[..n]);
      AfterCount(Run(entries, ops[..n]), ops[n]);
    }
  }
}
