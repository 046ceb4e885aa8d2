/**
 One tenant's data as values (pkg/storage/memory/store.go): what each operation does to the
 stored tuples, the changelog and the sequence counter.
 */
module StoreSpec {
  import opened Wrappers
  import opened Tuples
  import opened Keys

  // Go's zero time.
  const ZERO_TIME: Time := 0

  datatype Tuple = Tuple(tenantId: string, id: Identity, attributes: Attrs, expiresAt: Option<Time>, createdAt: Time, updatedAt: Time)

  datatype ChangeOp = OpInsert | OpDelete | OpUpdate

  datatype Entry = Entry(sequence: nat, tenantId: string, op: ChangeOp, tuple: Tuple, timestamp: Time, source: string)

  datatype Bucket = Bucket(tuples: seq<Tuple>, objAttrs: map<string, Attrs>, subAttrs: map<string, Attrs>,
                           changelog: seq<Entry>, seqCounter: nat)

  const EMPTY_BUCKET := Bucket([], map[], map[], [], 0)

  function Key(t: Tuple): string {
    IdentityKey(t.id)
  }

  predicate ExpiredAt(t: Tuple, now: Time) {
    t.expiresAt.Some? && t.expiresAt.value <= now
  }

  // The identities of the live tuples, in stored order.
  function LiveIds(ts: seq<Tuple>, now: Time): (ids: seq<Identity>)
    ensures forall id :: id in ids <==> exists t :: t in ts && t.id == id && !ExpiredAt(t, now)
  {
    if ts == [] then []
    else
      var init, last := ts[..|ts| - 1], ts[|ts| - 1];
      assert ts == init + [last];
      if ExpiredAt(last, now) then LiveIds(init, now) else LiveIds(init, now) + [last.id]
  }

  // The first index holding the key, or |ts|.
  function Find(ts: seq<Tuple>, key: string): (i: nat)
    ensures i <= |ts|
    ensures i < |ts| ==> Key(ts[i]) == key
    ensures forall j :: 0 <= j < i ==> Key(ts[j]) != key
  {
    if ts == [] || Key(ts[0]) == key then 0 else 1 + Find(ts[1..], key)
  }

  // The first index holding exactly this identity, or |ts|.
  function FindId(ts: seq<Tuple>, id: Identity): (i: nat)
    ensures i <= |ts|
    ensures i < |ts| ==> ts[i].id == id
    ensures forall j :: 0 <= j < i ==> ts[j].id != id
  {
    if ts == [] || ts[0].id == id then 0 else 1 + FindId(ts[1..], id)
  }

  function Upsert(ts: seq<Tuple>, t: Tuple): seq<Tuple> {
    var i := Find(ts, Key(t));
    if i < |ts| then ts[i := t] else ts + [t]
  }

  function RemoveKey(ts: seq<Tuple>, key: string): seq<Tuple> {
    var i := Find(ts, key);
    if i < |ts| then Cut(ts, i) else ts
  }

  function UpsertAll(ts: seq<Tuple>, staged: seq<Tuple>): seq<Tuple> {
    if staged == [] then ts
    else Upsert(UpsertAll(ts, staged[..|staged| - 1]), staged[|staged| - 1])
  }

  function Stage(t: Tuple, tenantId: string, now: Time): Tuple {
    t.(tenantId := tenantId, createdAt := if t.createdAt == ZERO_TIME then now else t.createdAt, updatedAt := now)
  }

  function StageAll(batch: seq<Tuple>, tenantId: string, now: Time): seq<Tuple> {
    seq(|batch|, i requires 0 <= i < |batch| => Stage(batch[i], tenantId, now))
  }

  function TupleEntry(sequence: nat, tenantId: string, op: ChangeOp, t: Tuple, now: Time): Entry {
    Entry(sequence, tenantId, op, t, now, "api")
  }

  function InsertEntries(counter: nat, tenantId: string, staged: seq<Tuple>, now: Time): seq<Entry> {
    seq(|staged|, i requires 0 <= i < |staged| => TupleEntry(counter + 1 + i, tenantId, OpInsert, staged[i], now))
  }

  ghost predicate LiveKey(ts: seq<Tuple>, key: string, now: Time) {
    exists i :: 0 <= i < |ts| && Key(ts[i]) == key && !ExpiredAt(ts[i], now)
  }

  // A key of the batch is live in the store or repeats in the batch.
  ghost predicate Clash(ts: seq<Tuple>, batch: seq<Tuple>, now: Time) {
    || (exists i :: 0 <= i < |batch| && LiveKey(ts, Key(batch[i]), now))
    || (exists i, j :: 0 <= i < j < |batch| && Key(batch[i]) == Key(batch[j]))
  }

  // The staged tuples put in place and logged.
  function Applied(b: Bucket, tenantId: string, staged: seq<Tuple>, now: Time): Bucket {
    b.(tuples := UpsertAll(b.tuples, staged),
       changelog := b.changelog + InsertEntries(b.seqCounter, tenantId, staged, now),
       seqCounter := b.seqCounter + |staged|)
  }

  ghost function WriteBatch(b: Bucket, tenantId: string, batch: seq<Tuple>, now: Time): Result<Bucket, StoreError> {
    if Clash(b.tuples, batch, now) then Err(DuplicateTuple)
    else Ok(Applied(b, tenantId, StageAll(batch, tenantId, now), now))
  }

  // Without the tuple at index i, and with its removal logged.
  function Removed(b: Bucket, tenantId: string, i: nat, now: Time): Bucket
    requires i < |b.tuples|
  {
    b.(tuples := Cut(b.tuples, i),
       changelog := b.changelog + [TupleEntry(b.seqCounter + 1, tenantId, OpDelete, b.tuples[i], now)],
       seqCounter := b.seqCounter + 1)
  }

  function DeleteFrom(b: Bucket, tenantId: string, id: Identity, now: Time): Result<Bucket, StoreError> {
    var i := FindId(b.tuples, id);
    if i == |b.tuples| then Err(NotFound) else Ok(Removed(b, tenantId, i, now))
  }

  function AppendEntry(b: Bucket, tenantId: string, entry: Entry, now: Time): Bucket {
    var e := entry.(tenantId := tenantId, sequence := b.seqCounter + 1,
                    timestamp := if entry.timestamp == ZERO_TIME then now else entry.timestamp);
    b.(changelog := b.changelog + [e], seqCounter := b.seqCounter + 1)
  }

  // Entries after `since`, at most `limit` of them when `limit` is positive.
  function Page(log: seq<Entry>, since: nat, limit: int): seq<Entry> {
    var lo := if since <= |log| then since else |log|;
    var hi := if limit > 0 && lo + limit < |log| then lo + limit else |log|;
    log[lo..hi]
  }

  ghost predicate DistinctKeys(ts: seq<Tuple>) {
    forall i, j :: 0 <= i < j < |ts| ==> Key(ts[i]) != Key(ts[j])
  }

  ghost predicate Numbered(log: seq<Entry>, counter: nat) {
    |log| == counter && forall i :: 0 <= i < |log| ==> log[i].sequence == i + 1
  }

  // The representation invariant of one tenant's data.
  ghost predicate BucketValid(b: Bucket) {
    DistinctKeys(b.tuples) && Numbered(b.changelog, b.seqCounter)
  }

  // The tuples a log describes: INSERT puts a tuple under its key, DELETE removes the key.
  function Replay(log: seq<Entry>): seq<Tuple> {
    if log == [] then []
    else ReplayStep(Replay(log[..|log| - 1]), log[|log| - 1])
  }

  function ReplayStep(ts: seq<Tuple>, e: Entry): seq<Tuple> {
    match e.op
    case OpInsert => Upsert(ts, e.tuple)
    case OpDelete => RemoveKey(ts, Key(e.tuple))
    case OpUpdate => ts
  }

  lemma {:induction false} FindUnique(ts: seq<Tuple>, i: nat)
    requires DistinctKeys(ts) && i < |ts|
    ensures Find(ts, Key(ts[i])) == i
  {
    var j := Find(ts, Key(ts[i]));
    assert Key(ts[j]) == Key(ts[i]);
  }

  lemma {:induction false} UpsertDistinct(ts: seq<Tuple>, t: Tuple)
    requires DistinctKeys(ts)
    ensures DistinctKeys(Upsert(ts, t))
  {
    var i := Find(ts, Key(t));
    if i < |ts| {
      assert forall x :: 0 <= x < |ts| ==> Key(ts[i := t][x]) == Key(ts[x]);
    }
  }

  function Cut(ts: seq<Tuple>, i: nat): seq<Tuple>
    requires i < |ts|
  {
    ts[..i] + ts[i + 1..]
  }

  lemma {:induction false} CutDistinct(ts: seq<Tuple>, i: nat)
    requires DistinctKeys(ts) && i < |ts|
    ensures DistinctKeys(Cut(ts, i))
  {
    var cut := Cut(ts, i);
    assert forall x :: 0 <= x < i ==> cut[x] == ts[x];
    assert forall x :: i <= x < |cut| ==> cut[x] == ts[x + 1];
  }

  lemma {:induction false} CutMembers(ts: seq<Tuple>, i: nat, u: Tuple)
    requires DistinctKeys(ts) && i < |ts|
    ensures u in Cut(ts, i) <==> u in ts && Key(u) != Key(ts[i])
  {
    var cut := Cut(ts, i);
    assert ts == ts[..i] + [ts[i]] + ts[i + 1..];
    assert u in ts <==> u in ts[..i] || u == ts[i] || u in ts[i + 1..];
    assert u in cut <==> u in ts[..i] || u in ts[i + 1..];
  }

  lemma {:induction false} UpsertAllDistinct(ts: seq<Tuple>, staged: seq<Tuple>)
    requires DistinctKeys(ts)
    ensures DistinctKeys(UpsertAll(ts, staged))
  {
    if staged != [] {
      UpsertAllDistinct(ts, staged[..|staged| - 1]);
      UpsertDistinct(UpsertAll(ts, staged[..|staged| - 1]), staged[|staged| - 1]);
    }
  }

  lemma {:induction false} UpsertAllSplit(ts: seq<Tuple>, a: seq<Tuple>, b: seq<Tuple>)
    ensures UpsertAll(ts, a + b) == UpsertAll(UpsertAll(ts, a), b)
  {
    if b == [] {
      assert a + b == a;
    } else {
      assert (a + b)[..|a + b| - 1] == a + b[..|b| - 1];
      UpsertAllSplit(ts, a, b[..|b| - 1]);
    }
  }

  // Every data operation keeps keys pairwise distinct and numbers the log 1, 2, ..., seqCounter.

  lemma {:induction false} WriteKeepsValid(b: Bucket, tenantId: string, batch: seq<Tuple>, now: Time)
    requires BucketValid(b) && !Clash(b.tuples, batch, now)
    ensures BucketValid(WriteBatch(b, tenantId, batch, now).value)
  {
    UpsertAllDistinct(b.tuples, StageAll(batch, tenantId, now));
  }

  lemma {:induction false} DeleteKeepsValid(b: Bucket, tenantId: string, id: Identity, now: Time)
    requires BucketValid(b) && DeleteFrom(b, tenantId, id, now).Ok?
    ensures BucketValid(DeleteFrom(b, tenantId, id, now).value)
  {
    CutDistinct(b.tuples, FindId(b.tuples, id));
  }

  lemma {:induction false} AppendKeepsValid(b: Bucket, tenantId: string, entry: Entry, now: Time)
    requires BucketValid(b)
    ensures BucketValid(AppendEntry(b, tenantId, entry, now))
  {
  }

  ghost predicate Replayed(b: Bucket) {
    Replay(b.changelog) == b.tuples
  }

  lemma {:induction false} InsertEntriesLast(counter: nat, tenantId: string, init: seq<Tuple>, t: Tuple, now: Time)
    ensures InsertEntries(counter, tenantId, init + [t], now)
         == InsertEntries(counter, tenantId, init, now) + [TupleEntry(counter + 1 + |init|, tenantId, OpInsert, t, now)]
  {
  }

  lemma {:induction false} ReplayLast(log: seq<Entry>, e: Entry)
    ensures Replay(log + [e]) == ReplayStep(Replay(log), e)
  {
    assert (log + [e])[..|log|] == log;
  }

  lemma {:induction false} UpsertAllLast(ts: seq<Tuple>, init: seq<Tuple>, t: Tuple)
    ensures UpsertAll(ts, init + [t]) == Upsert(UpsertAll(ts, init), t)
  {
    assert (init + [t])[..|init|] == init;
  }

  lemma {:induction false} ReplayInserts(log: seq<Entry>, counter: nat, tenantId: string, staged: seq<Tuple>, now: Time)
    ensures Replay(log + InsertEntries(counter, tenantId, staged, now)) == UpsertAll(Replay(log), staged)
  {
    if staged == [] {
      assert log + InsertEntries(counter, tenantId, staged, now) == log;
    } else {
      var init, t := staged[..|staged| - 1], staged[|staged| - 1];
      assert staged == init + [t];
      var entries := InsertEntries(counter, tenantId, init, now);
      var e := TupleEntry(counter + 1 + |init|, tenantId, OpInsert, t, now);
      InsertEntriesLast(counter, tenantId, init, t, now);
      assert log + (entries + [e]) == (log + entries) + [e];
      ReplayInserts(log, counter, tenantId, init, now);
      ReplayLast(log + entries, e);
      UpsertAllLast(Replay(log), init, t);
    }
  }

  // Writes and deletes keep the stored tuples equal, order included, to the replay of the log.

  lemma {:induction false} WriteReplays(b: Bucket, tenantId: string, batch: seq<Tuple>, now: Time)
    requires Replayed(b) && !Clash(b.tuples, batch, now)
    ensures Replayed(WriteBatch(b, tenantId, batch, now).value)
  {
    ReplayInserts(b.changelog, b.seqCounter, tenantId, StageAll(batch, tenantId, now), now);
  }

  lemma {:induction false} DeleteReplays(b: Bucket, tenantId: string, id: Identity, now: Time)
    requires BucketValid(b) && Replayed(b) && DeleteFrom(b, tenantId, id, now).Ok?
    ensures Replayed(DeleteFrom(b, tenantId, id, now).value)
  {
    var i := FindId(b.tuples, id);
    FindUnique(b.tuples, i);
    ReplayLast(b.changelog, TupleEntry(b.seqCounter + 1, tenantId, OpDelete, b.tuples[i], now));
  }

  // The last entry of a log about a key.
  function LastFor(log: seq<Entry>, key: string): Option<Entry> {
    if log == [] then None
    else
      var e := log[|log| - 1];
      if e.op != OpUpdate && Key(e.tuple) == key then Some(e) else LastFor(log[..|log| - 1], key)
  }

  ghost predicate Inserted(log: seq<Entry>, t: Tuple) {
    var last := LastFor(log, Key(t));
    last.Some? && last.value.op == OpInsert && last.value.tuple == t
  }

  lemma {:induction false} UpsertMembers(ts: seq<Tuple>, t: Tuple, u: Tuple)
    requires DistinctKeys(ts)
    ensures u in Upsert(ts, t) <==> u == t || (u in ts && Key(u) != Key(t))
  {
    var i := Find(ts, Key(t));
    if i < |ts| {
      var ts' := ts[i := t];
      if u in ts && Key(u) != Key(t) {
        var j :| 0 <= j < |ts| && ts[j] == u;
        assert ts'[j] == u;
      }
      assert ts'[i] == t;
      if u in ts' && u != t {
        var j :| 0 <= j < |ts'| && ts'[j] == u;
        assert ts[j] == u && j != i;
      }
    } else if u in ts {
      var j :| 0 <= j < |ts| && ts[j] == u;
    }
  }

  lemma {:induction false} RemoveMembers(ts: seq<Tuple>, key: string, u: Tuple)
    requires DistinctKeys(ts)
    ensures DistinctKeys(RemoveKey(ts, key))
    ensures u in RemoveKey(ts, key) <==> u in ts && Key(u) != key
  {
    var i := Find(ts, key);
    if i < |ts| {
      CutDistinct(ts, i);
      CutMembers(ts, i, u);
    } else if u in ts {
      var j :| 0 <= j < |ts| && ts[j] == u;
    }
  }

  /** A tuple is in the replay of a log exactly when the last entry for its key inserted it. */
  lemma {:induction false} ReplayMembers(log: seq<Entry>, t: Tuple)
    ensures DistinctKeys(Replay(log))
    ensures t in Replay(log) <==> Inserted(log, t)
  {
    if log != [] {
      var init, e := log[..|log| - 1], log[|log| - 1];
      ReplayMembers(init, t);
      match e.op
      case OpInsert => UpsertMembers(Replay(init), e.tuple, t); UpsertDistinct(Replay(init), e.tuple);
      case OpDelete => RemoveMembers(Replay(init), Key(e.tuple), t);
      case OpUpdate =>
    }
  }

  // The last log entry for the identity's key inserted it, and it has not expired at `now`.
  predicate LoggedLive(log: seq<Entry>, id: Identity, now: Time) {
    var last := LastFor(log, IdentityKey(id));
    last.Some? && last.value.op == OpInsert && !ExpiredAt(last.value.tuple, now)
  }

  // ... and it inserted that very identity, not another one that prints the same key.
  predicate LoggedAs(log: seq<Entry>, id: Identity, now: Time) {
    LoggedLive(log, id, now) && LastFor(log, IdentityKey(id)).value.tuple.id == id
  }

  /**
   An identity is visible exactly when the last log entry for its key is an unexpired insert of that
   very identity, delimiters or not. So the log and the clock alone decide.
   */
  lemma {:induction false} VisibleExactly(b: Bucket, id: Identity, now: Time)
    requires Replayed(b)
    ensures id in LiveIds(b.tuples, now) <==> LoggedAs(b.changelog, id, now)
  {
    if id in LiveIds(b.tuples, now) {
      var t :| t in b.tuples && t.id == id && !ExpiredAt(t, now);
      ReplayMembers(b.changelog, t);
    }
    if LoggedLive(b.changelog, id, now) {
      LastForKey(b.changelog, IdentityKey(id));
      ReplayMembers(b.changelog, LastFor(b.changelog, IdentityKey(id)).value.tuple);
    }
  }

  /** Visibility of a delimiter-free identity is decided by the log and the clock alone. */
  lemma {:induction false} VisibleIffLogged(b: Bucket, id: Identity, now: Time)
    requires Replayed(b) && DelimiterFree(id)
    ensures id in LiveIds(b.tuples, now) <==> LoggedLive(b.changelog, id, now)
  {
    VisibleExactly(b, id, now);
    if LoggedLive(b.changelog, id, now) {
      LastForKey(b.changelog, IdentityKey(id));
      IdentityKeyInjective(id, LastFor(b.changelog, IdentityKey(id)).value.tuple.id);
    }
  }

  lemma {:induction false} LastForKey(log: seq<Entry>, key: string)
    ensures LastFor(log, key).Some? ==> Key(LastFor(log, key).value.tuple) == key
  {
    if log != [] {
      LastForKey(log[..|log| - 1], key);
    }
  }

  lemma {:induction false} LastForQuiet(log: seq<Entry>, more: seq<Entry>, key: string)
    requires forall e :: e in more ==> Key(e.tuple) != key
    ensures LastFor(log + more, key) == LastFor(log, key)
  {
    if more == [] {
      assert log + more == log;
    } else {
      assert (log + more)[..|log + more| - 1] == log + more[..|more| - 1];
      LastForQuiet(log, more[..|more| - 1], key);
    }
  }

  lemma {:induction false} LastForEnd(log: seq<Entry>, e: Entry, more: seq<Entry>)
    requires e.op == OpInsert && forall x :: x in more ==> Key(x.tuple) != Key(e.tuple)
    ensures LastFor(log + [e] + more, Key(e.tuple)) == Some(e)
  {
    LastForQuiet(log + [e], more, Key(e.tuple));
    assert (log + [e])[|log|] == e;
  }

  lemma {:induction false} SplitLog(log: seq<Entry>, entries: seq<Entry>, i: nat)
    requires i < |entries|
    ensures log + entries == (log + entries[..i]) + [entries[i]] + entries[i + 1..]
  {
  }

  // In the log of a batch with distinct keys, each tuple's insert is the last entry for its key.
  lemma {:induction false} LastForInserts(log: seq<Entry>, counter: nat, tenantId: string, staged: seq<Tuple>, now: Time, i: nat)
    requires i < |staged| && forall j :: i < j < |staged| ==> Key(staged[j]) != Key(staged[i])
    ensures LastFor(log + InsertEntries(counter, tenantId, staged, now), Key(staged[i]))
         == Some(TupleEntry(counter + 1 + i, tenantId, OpInsert, staged[i], now))
  {
    var entries := InsertEntries(counter, tenantId, staged, now);
    var after := entries[i + 1..];
    forall e | e in after
      ensures Key(e.tuple) != Key(staged[i])
    {
      var j :| 0 <= j < |after| && after[j] == e;
      assert e == entries[i + 1 + j];
    }
    SplitLog(log, entries, i);
    LastForEnd(log + entries[..i], entries[i], after);
  }

  /**
   Every grant of a successful batch stays visible exactly until it expires, as long as no later log
   entry is about its key, whatever else happens to the tenant's data.
   */
  lemma {:induction false} GrantVisibleUntilExpiry(b: Bucket, b1: Bucket, b2: Bucket, tenantId: string, batch: seq<Tuple>, i: nat,
                                more: seq<Entry>, w: Time, now: Time)
    requires i < |batch| && Replayed(b2)
    requires WriteBatch(b, tenantId, batch, w) == Ok(b1)
    requires b2.changelog == b1.changelog + more && forall e :: e in more ==> Key(e.tuple) != Key(batch[i])
    ensures batch[i].id in LiveIds(b2.tuples, now) <==> !ExpiredAt(batch[i], now)
  {
    BatchLogged(b, b1, tenantId, batch, i, w);
    LastForQuiet(b1.changelog, more, Key(batch[i]));
    VisibleExactly(b2, batch[i].id, now);
  }

  // After a successful batch, the last entry for each of its keys is the insert of its tuple.
  lemma {:induction false} BatchLogged(b: Bucket, b1: Bucket, tenantId: string, batch: seq<Tuple>, i: nat, w: Time)
    requires i < |batch| && WriteBatch(b, tenantId, batch, w) == Ok(b1)
    ensures LastFor(b1.changelog, Key(batch[i])) == Some(TupleEntry(b.seqCounter + 1 + i, tenantId, OpInsert, Stage(batch[i], tenantId, w), w))
  {
    var staged := StageAll(batch, tenantId, w);
    assert forall j :: i < j < |staged| ==> Key(staged[j]) == Key(batch[j]) != Key(batch[i]);
    LastForInserts(b.changelog, b.seqCounter, tenantId, staged, w, i);
  }

  // Single writes in order, stopping at the first failure.
  ghost function WriteOneByOne(b: Bucket, tenantId: string, batch: seq<Tuple>, now: Time): Result<Bucket, StoreError>
    decreases |batch|
  {
    if batch == [] then Ok(b)
    else
      match WriteOneByOne(b, tenantId, batch[..|batch| - 1], now)
      case Err(x) => Err(x)
      case Ok(b1) => WriteBatch(b1, tenantId, [batch[|batch| - 1]], now)
  }

  lemma {:induction false} UpsertAllMembers(ts: seq<Tuple>, staged: seq<Tuple>, u: Tuple)
    requires DistinctKeys(ts)
    requires u in UpsertAll(ts, staged)
    ensures u in ts || u in staged
  {
    if staged != [] {
      var init, last := staged[..|staged| - 1], staged[|staged| - 1];
      UpsertAllDistinct(ts, init);
      UpsertMembers(UpsertAll(ts, init), last, u);
      if u != last {
        UpsertAllMembers(ts, init, u);
      }
    }
  }

  lemma {:induction false} PrefixIsFree(ts: seq<Tuple>, init: seq<Tuple>, last: Tuple, now: Time)
    requires !Clash(ts, init + [last], now)
    ensures !Clash(ts, init, now) && !LiveKey(ts, Key(last), now)
    ensures forall i :: 0 <= i < |init| ==> Key(init[i]) != Key(last)
  {
    var batch := init + [last];
    assert batch[|init|] == last;
    assert forall i :: 0 <= i < |init| ==> batch[i] == init[i];
  }

  // After writing the rest of a clash-free batch, its last tuple is still free to write.
  lemma {:induction false} LastIsFree(b: Bucket, tenantId: string, init: seq<Tuple>, last: Tuple, now: Time)
    requires DistinctKeys(b.tuples) && !LiveKey(b.tuples, Key(last), now)
    requires forall i :: 0 <= i < |init| ==> Key(init[i]) != Key(last)
    ensures !Clash(UpsertAll(b.tuples, StageAll(init, tenantId, now)), [last], now)
  {
    var staged := StageAll(init, tenantId, now);
    var ts := UpsertAll(b.tuples, staged);
    forall i | 0 <= i < |ts| && Key(ts[i]) == Key(last)
      ensures ExpiredAt(ts[i], now)
    {
      UpsertAllMembers(b.tuples, staged, ts[i]);
      assert forall j :: 0 <= j < |init| ==> Key(staged[j]) == Key(init[j]);
    }
  }

  /** A successful batch leaves the same slice, log and counter as single writes in order at the same clock reading. */
  lemma {:induction false} BatchIsSequential(b: Bucket, tenantId: string, batch: seq<Tuple>, now: Time)
    requires BucketValid(b) && !Clash(b.tuples, batch, now)
    ensures WriteOneByOne(b, tenantId, batch, now) == WriteBatch(b, tenantId, batch, now)
    decreases |batch|
  {
    if batch == [] {
      WriteNothing(b, tenantId, now);
    } else {
      var init, last := batch[..|batch| - 1], batch[|batch| - 1];
      assert batch == init + [last];
      PrefixIsFree(b.tuples, init, last, now);
      LastIsFree(b, tenantId, init, last, now);
      BatchIsSequential(b, tenantId, init, now);
      StageAllLast(init, last, tenantId, now);
      assert StageAll([last], tenantId, now) == [Stage(last, tenantId, now)];
      AppliedLast(b, tenantId, StageAll(init, tenantId, now), Stage(last, tenantId, now), now);
    }
  }

  lemma {:induction false} WriteNothing(b: Bucket, tenantId: string, now: Time)
    ensures WriteBatch(b, tenantId, [], now) == Ok(b)
  {
    assert b.changelog + InsertEntries(b.seqCounter, tenantId, [], now) == b.changelog;
  }

  lemma {:induction false} StageAllLast(init: seq<Tuple>, last: Tuple, tenantId: string, now: Time)
    ensures StageAll(init + [last], tenantId, now) == StageAll(init, tenantId, now) + [Stage(last, tenantId, now)]
  {
  }

  lemma {:induction false} AppliedSingle(b: Bucket, tenantId: string, t: Tuple, now: Time)
    ensures Applied(b, tenantId, [t], now) ==
            b.(tuples := Upsert(b.tuples, t),
               changelog := b.changelog + [TupleEntry(b.seqCounter + 1, tenantId, OpInsert, t, now)],
               seqCounter := b.seqCounter + 1)
  {
    assert [t][..0] == [];
    assert UpsertAll(b.tuples, [t][..0]) == b.tuples;
    assert InsertEntries(b.seqCounter, tenantId, [t], now) == [TupleEntry(b.seqCounter + 1, tenantId, OpInsert, t, now)];
  }

  lemma {:induction false} AppliedLast(b: Bucket, tenantId: string, staged: seq<Tuple>, t: Tuple, now: Time)
    ensures Applied(Applied(b, tenantId, staged, now), tenantId, [t], now) == Applied(b, tenantId, staged + [t], now)
  {
    AppliedSingle(Applied(b, tenantId, staged, now), tenantId, t, now);
    UpsertAllLast(b.tuples, staged, t);
    InsertEntriesLast(b.seqCounter, tenantId, staged, t, now);
    Reassociate(b.changelog, InsertEntries(b.seqCounter, tenantId, staged, now), TupleEntry(b.seqCounter + 1 + |staged|, tenantId, OpInsert, t, now));
  }

  lemma {:induction false} Reassociate<T>(a: seq<T>, b: seq<T>, c: T)
    ensures (a + b) + [c] == a + (b + [c])
  {
  }

  lemma {:induction false} UpsertAllKeeps(ts: seq<Tuple>, staged: seq<Tuple>, t: Tuple)
    requires DistinctKeys(ts) && t in ts
    requires forall i :: 0 <= i < |staged| ==> Key(staged[i]) != Key(t)
    ensures t in UpsertAll(ts, staged)
  {
    if staged != [] {
      var init := staged[..|staged| - 1];
      UpsertAllKeeps(ts, init, t);
      UpsertAllDistinct(ts, init);
      UpsertMembers(UpsertAll(ts, init), staged[|staged| - 1], t);
    }
  }

  // A write at time w only replaces tuples that have expired by then.
  lemma {:induction false} WriteKeepsLive(b: Bucket, tenantId: string, batch: seq<Tuple>, w: Time, now: Time)
    requires BucketValid(b) && w <= now && !Clash(b.tuples, batch, w)
    ensures forall id :: id in LiveIds(b.tuples, now) ==> id in LiveIds(WriteBatch(b, tenantId, batch, w).value.tuples, now)
  {
    var staged := StageAll(batch, tenantId, w);
    forall id | id in LiveIds(b.tuples, now)
      ensures id in LiveIds(UpsertAll(b.tuples, staged), now)
    {
      var t :| t in b.tuples && t.id == id && !ExpiredAt(t, now);
      var i :| 0 <= i < |b.tuples| && b.tuples[i] == t;
      assert LiveKey(b.tuples, Key(t), w);
      assert forall j :: 0 <= j < |batch| ==> Key(staged[j]) == Key(batch[j]);
      UpsertAllKeeps(b.tuples, staged, t);
    }
  }

  lemma {:induction false} DeleteAddsNoLive(b: Bucket, tenantId: string, id: Identity, w: Time, now: Time)
    requires BucketValid(b) && DeleteFrom(b, tenantId, id, w).Ok?
    ensures forall x :: x in LiveIds(DeleteFrom(b, tenantId, id, w).value.tuples, now) ==> x in LiveIds(b.tuples, now)
  {
    var i := FindId(b.tuples, id);
    forall x | x in LiveIds(Cut(b.tuples, i), now)
      ensures x in LiveIds(b.tuples, now)
    {
      var t :| t in Cut(b.tuples, i) && t.id == x && !ExpiredAt(t, now);
      CutMembers(b.tuples, i, t);
    }
  }
}
