/**
 The in-memory store (pkg/storage/memory/store.go) with the source's maps, and the tenant manager
 (pkg/tenant/manager.go) over it. Each method is proved against the step it takes.
 */
module MemoryStore {
  import opened Wrappers
  import opened Tuples
  import opened Tenants
  import opened StoreSpec
  import Runs

  // Reading a Go map: a missing key reads as the zero value.
  function At<T>(m: map<string, T>, key: string, zero: T): T {
    if key in m then m[key] else zero
  }

  // m' is m with at most the entry of `key` set.
  ghost predicate SetsOnly<T>(m: map<string, T>, m': map<string, T>, key: string) {
    m' == m || (key in m' && m' == m[key := m'[key]])
  }

  lemma {:induction false} AtOthers<T>(m: map<string, T>, m': map<string, T>, key: string, zero: T)
    requires SetsOnly(m, m', key)
    ensures forall k :: k != key ==> At(m', k, zero) == At(m, k, zero)
  {
  }

  lemma {:induction false} KeysSet<T>(m: map<string, T>, key: string, value: T)
    ensures m[key := value].Keys == m.Keys + {key}
  {
  }

  function FromError(err: Option<StoreError>): Runs.Reply {
    if err.Some? then Runs.Failed(err.value) else Runs.Done
  }

  class Store {
    var tenants: map<string, Tenant>
    var tuples: map<string, seq<Tuple>>
    var objAttrs: map<string, map<string, Attrs>>
    var subAttrs: map<string, map<string, Attrs>>
    var changelog: map<string, seq<Entry>>
    var seqCounter: map<string, nat>

    ghost function BucketOf(tid: string): Bucket
      reads this
    {
      Bucket(At(tuples, tid, []), At(objAttrs, tid, map[]), At(subAttrs, tid, map[]), At(changelog, tid, []), At(seqCounter, tid, 0))
    }

    ghost function SlotOf(tid: string): Runs.Slot
      reads this
    {
      Runs.Slot(if tid in tenants then Some(tenants[tid]) else None, BucketOf(tid))
    }

    ghost predicate Shaped()
      reads this
    {
      objAttrs.Keys == tuples.Keys && subAttrs.Keys == tuples.Keys && changelog.Keys == tuples.Keys && seqCounter.Keys == tuples.Keys
    }

    // The per-tenant maps have the same keys, every tenant is stored under its id and has its buckets, and each bucket is valid.
    ghost predicate Valid()
      reads this
    {
      && Shaped()
      && tenants.Keys <= tuples.Keys
      && (forall tid :: tid in tenants ==> tenants[tid].id == tid)
      && forall tid :: BucketValid(BucketOf(tid))
    }

    // Exactly tenant tid's slot went from old to the result of the step.
    twostate predicate Stepped(step: Runs.Step, reply: Runs.Reply)
      reads this
    {
      && (SlotOf(step.tid), reply) == Runs.Apply(old(SlotOf(step.tid)), step)
      && forall tid :: tid != step.tid ==> SlotOf(tid) == old(SlotOf(tid))
    }

    // What a method that only touches tenant tid's entries owes the other tenants.
    twostate lemma {:induction false} OthersKept(tid: string)
      requires SetsOnly(old(tuples), tuples, tid) && SetsOnly(old(objAttrs), objAttrs, tid) && SetsOnly(old(subAttrs), subAttrs, tid)
      requires SetsOnly(old(changelog), changelog, tid) && SetsOnly(old(seqCounter), seqCounter, tid)
      ensures forall t :: t != tid ==> BucketOf(t) == old(BucketOf(t))
    {
      AtOthers(old(tuples), tuples, tid, []);
      AtOthers(old(objAttrs), objAttrs, tid, map[]);
      AtOthers(old(subAttrs), subAttrs, tid, map[]);
      AtOthers(old(changelog), changelog, tid, []);
      AtOthers(old(seqCounter), seqCounter, tid, 0);
    }

    // A data operation on tenant tid that leaves its bucket valid keeps the store valid and the other tenants as they were.
    twostate lemma {:induction false} Touched(tid: string)
      requires old(Valid()) && Shaped() && tenants == old(tenants) && old(tuples.Keys) <= tuples.Keys
      requires SetsOnly(old(tuples), tuples, tid) && SetsOnly(old(objAttrs), objAttrs, tid) && SetsOnly(old(subAttrs), subAttrs, tid)
      requires SetsOnly(old(changelog), changelog, tid) && SetsOnly(old(seqCounter), seqCounter, tid)
      requires BucketValid(BucketOf(tid))
      ensures Valid()
      ensures forall t :: t != tid ==> SlotOf(t) == old(SlotOf(t))
      ensures SlotOf(tid) == old(SlotOf(tid)).(bucket := BucketOf(tid))
    {
      OthersKept(tid);
      forall t
        ensures BucketValid(BucketOf(t))
      {
        if t != tid {
          assert BucketOf(t) == old(BucketOf(t));
        }
      }
    }

    constructor ()
      ensures Valid()
      ensures forall tid :: SlotOf(tid) == Runs.NO_TENANT
    {
      tenants, tuples, objAttrs, subAttrs, changelog, seqCounter := map[], map[], map[], map[], map[], map[];
    }

    // -- Tenant management --

    method InitTenant(tid: string)
      requires Shaped()
      modifies this`tuples, this`objAttrs, this`subAttrs, this`changelog, this`seqCounter
      ensures Shaped() && tuples.Keys == old(tuples.Keys) + {tid}
      ensures forall t :: BucketOf(t) == old(BucketOf(t))
    {
      if tid !in tuples {
        ClearBuckets(tid);
      }
    }

    // Empty maps and a zero counter for one tenant.
    method ClearBuckets(tid: string)
      requires Shaped()
      modifies this`tuples, this`objAttrs, this`subAttrs, this`changelog, this`seqCounter
      ensures Shaped() && tuples.Keys == old(tuples.Keys) + {tid}
      ensures BucketOf(tid) == EMPTY_BUCKET
      ensures forall t :: t != tid ==> BucketOf(t) == old(BucketOf(t))
    {
      tuples := tuples[tid := []];
      objAttrs := objAttrs[tid := map[]];
      subAttrs := subAttrs[tid := map[]];
      changelog := changelog[tid := []];
      seqCounter := seqCounter[tid := 0];
      KeysSet(old(tuples), tid, []);
      KeysSet(old(objAttrs), tid, map[]);
      KeysSet(old(subAttrs), tid, map[]);
      KeysSet(old(changelog), tid, []);
      KeysSet(old(seqCounter), tid, 0);
      OthersKept(tid);
    }

    method CreateTenant(tenant: Tenant, now: Time) returns (err: Option<StoreError>)
      requires Valid()
      modifies this
      ensures Valid()
      ensures err == if old(tenant.id in tenants) then Some(TenantExists) else None
      ensures tenants == if err.Some? then old(tenants) else old(tenants)[tenant.id :=
                tenant.(createdAt := if tenant.createdAt == ZERO_TIME then now else tenant.createdAt, updatedAt := now)]
      ensures forall tid :: BucketOf(tid) == old(BucketOf(tid))
      ensures forall tid :: tid != tenant.id ==> SlotOf(tid) == old(SlotOf(tid))
    {
      if tenant.id in tenants {
        return Some(TenantExists);
      }
      var t := tenant.(updatedAt := now);
      if t.createdAt == ZERO_TIME {
        t := t.(createdAt := now);
      }
      tenants := tenants[tenant.id := t];
      assert forall tid :: BucketOf(tid) == old(BucketOf(tid));
      InitTenant(tenant.id);
      return None;
    }

    method GetTenant(tid: string) returns (r: Result<Tenant, StoreError>)
      ensures r == if tid in tenants then Ok(tenants[tid]) else Err(TenantNotFound)
    {
      if tid !in tenants {
        return Err(TenantNotFound);
      }
      return Ok(tenants[tid]);
    }

    method UpdateTenant(tenant: Tenant, now: Time) returns (err: Option<StoreError>)
      requires Valid()
      modifies this`tenants
      ensures Valid()
      ensures err == if old(tenant.id in tenants) then None else Some(TenantNotFound)
      ensures tenants == if err.Some? then old(tenants) else old(tenants)[tenant.id := tenant.(updatedAt := now)]
      ensures forall tid :: BucketOf(tid) == old(BucketOf(tid))
    {
      if tenant.id !in tenants {
        return Some(TenantNotFound);
      }
      tenants := tenants[tenant.id := tenant.(updatedAt := now)];
      assert forall tid :: BucketOf(tid) == old(BucketOf(tid));
      return None;
    }

    method CheckTenantWritable(tid: string) returns (err: Option<StoreError>)
      ensures err == Runs.CheckWritable(SlotOf(tid).tenant)
    {
      if tid !in tenants {
        return Some(TenantNotFound);
      }
      match tenants[tid].status
      case Deleted => return Some(TenantDeleted);
      case Suspended => return Some(TenantSuspended);
      case Pending => return Some(TenantSuspended);
      case Active => return None;
    }

    method CheckTenantReadable(tid: string) returns (err: Option<StoreError>)
      ensures err == Runs.CheckReadable(SlotOf(tid).tenant)
    {
      if tid !in tenants {
        return Some(TenantNotFound);
      }
      if tenants[tid].status == Deleted {
        return Some(TenantDeleted);
      }
      return None;
    }

    // -- Writes --

    method WriteTuples(tid: string, batch: seq<Tuple>, now: Time) returns (reply: Runs.Reply)
      requires Valid()
      modifies this
      ensures Valid()
      ensures Stepped(Runs.WriteTuples(tid, batch, now), reply)
    {
      var err := CheckTenantWritable(tid);
      if err.Some? {
        return Runs.Failed(err.value);
      }
      err := WriteTuplesLocked(tid, batch, now);
      return FromError(err);
    }

    // All or nothing: a batch fails exactly when one of its keys is live or repeats, and then nothing changes.
    method WriteTuplesLocked(tid: string, batch: seq<Tuple>, now: Time) returns (err: Option<StoreError>)
      requires Valid() && tid in tuples
      modifies this`tuples, this`changelog, this`seqCounter
      ensures Valid() && tuples.Keys == old(tuples.Keys)
      ensures err == if Clash(old(tuples[tid]), batch, now) then Some(DuplicateTuple) else None
      ensures err.None? ==> WriteBatch(old(BucketOf(tid)), tid, batch, now) == Ok(BucketOf(tid))
      ensures err.Some? ==> BucketOf(tid) == old(BucketOf(tid))
      ensures forall t :: t != tid ==> BucketOf(t) == old(BucketOf(t))
    {
      if |batch| == 0 {
        WriteNothing(BucketOf(tid), tid, now);
        return None;
      }
      var ts := tuples[tid];
      assert BucketValid(BucketOf(tid));
      var existingKeys, expiredIndexes := IndexKeys(ts, now);
      var staged := StageBatch(ts, batch, tid, now, existingKeys);
      if staged.None? {
        return Some(DuplicateTuple);
      }
      StagedClashFree(ts, batch, tid, now);
      var ts' := Overlay(ts, staged.value, expiredIndexes, now);
      WriteKeepsValid(BucketOf(tid), tid, batch, now);
      Commit(tid, staged.value, ts', now);
      return None;
    }

    // Stores the new slice and logs the staged tuples.
    method Commit(tid: string, staged: seq<Tuple>, ts': seq<Tuple>, now: Time)
      requires Valid() && tid in tuples
      requires ts' == UpsertAll(tuples[tid], staged) && BucketValid(Applied(BucketOf(tid), tid, staged, now))
      modifies this`tuples, this`changelog, this`seqCounter
      ensures Valid() && tuples.Keys == old(tuples.Keys)
      ensures BucketOf(tid) == Applied(old(BucketOf(tid)), tid, staged, now)
      ensures forall t :: t != tid ==> BucketOf(t) == old(BucketOf(t))
    {
      tuples := tuples[tid := ts'];
      AppendInserts(tid, staged, now);
      assert BucketOf(tid) == Applied(old(BucketOf(tid)), tid, staged, now);
      Touched(tid);
    }

    // Copies the batch for storing, or finds a key that is live or repeats.
    static method StageBatch(ghost ts: seq<Tuple>, batch: seq<Tuple>, tid: string, now: Time, existingKeys: set<string>)
      returns (r: Option<seq<Tuple>>)
      requires LiveKeysOf(existingKeys, ts, now)
      ensures r == if Clash(ts, batch, now) then None else Some(StageAll(batch, tid, now))
    {
      var staged: seq<Tuple> := [];
      var batchKeys: set<string> := {};
      var i := 0;
      while i < |batch|
        invariant 0 <= i <= |batch|
        invariant staged == StageAll(batch[..i], tid, now)
        invariant forall key :: key in batchKeys <==> exists j :: 0 <= j < i && Key(batch[j]) == key
        invariant forall j :: 0 <= j < i ==> !LiveKey(ts, Key(batch[j]), now)
        invariant forall j, k :: 0 <= j < k < i ==> Key(batch[j]) != Key(batch[k])
      {
        var key := Key(batch[i]);
        if key in existingKeys {
          assert LiveKey(ts, Key(batch[i]), now);
          return None;
        }
        if key in batchKeys {
          return None;
        }
        batchKeys := batchKeys + {key};
        StageAllLast(batch[..i], batch[i], tid, now);
        assert batch[..i + 1] == batch[..i] + [batch[i]];
        staged := staged + [Stage(batch[i], tid, now)];
        i := i + 1;
      }
      assert batch[..i] == batch;
      return Some(staged);
    }

    // Splits the stored keys into live ones and the slots of expired ones.
    static method IndexKeys(ts: seq<Tuple>, now: Time) returns (existingKeys: set<string>, expiredIndexes: map<string, nat>)
      requires DistinctKeys(ts)
      ensures LiveKeysOf(existingKeys, ts, now)
      ensures ExpiredSlotsOf(expiredIndexes, ts, |ts|, now)
    {
      existingKeys, expiredIndexes := {}, map[];
      var i := 0;
      while i < |ts|
        invariant 0 <= i <= |ts|
        invariant LiveKeysOf(existingKeys, ts[..i], now)
        invariant ExpiredSlotsOf(expiredIndexes, ts, i, now)
      {
        var key := Key(ts[i]);
        LiveKeysStep(existingKeys, ts, i, now);
        ExpiredSlotsStep(expiredIndexes, ts, i, now);
        if ExpiredAt(ts[i], now) {
          if key !in expiredIndexes {
            expiredIndexes := expiredIndexes[key := i];
          }
        } else {
          existingKeys := existingKeys + {key};
        }
        i := i + 1;
      }
      assert ts[..i] == ts;
    }

    // Puts each staged tuple into its expired slot, or else after the slice.
    static method Overlay(ts: seq<Tuple>, staged: seq<Tuple>, expiredIndexes: map<string, nat>, now: Time) returns (ts': seq<Tuple>)
      requires DistinctKeys(ts)
      requires !Clash(ts, staged, now)
      requires ExpiredSlotsOf(expiredIndexes, ts, |ts|, now)
      ensures ts' == UpsertAll(ts, staged)
    {
      var cur, appends := ts, [];
      var i := 0;
      while i < |staged|
        invariant 0 <= i <= |staged|
        invariant SameKeys(cur, ts)
        invariant forall a :: a in appends ==> a in staged[..i]
        invariant cur + appends == UpsertAll(ts, staged[..i])
      {
        UpsertAllAt(ts, staged, i);
        NotLiveNotExpired(ts, staged, i, now);
        cur, appends := Place(ts, cur, appends, staged[i], expiredIndexes);
        i := i + 1;
      }
      assert staged[..i] == staged;
      return cur + appends;
    }

    static method Place(ghost ts: seq<Tuple>, cur: seq<Tuple>, appends: seq<Tuple>, t: Tuple, expiredIndexes: map<string, nat>)
      returns (cur': seq<Tuple>, appends': seq<Tuple>)
      requires SameKeys(cur, ts)
      requires Key(t) in expiredIndexes ==> expiredIndexes[Key(t)] == Find(ts, Key(t)) < |ts|
      requires Key(t) !in expiredIndexes ==> Find(ts, Key(t)) == |ts| && forall a :: a in appends ==> Key(a) != Key(t)
      ensures SameKeys(cur', ts) && (appends' == appends || appends' == appends + [t])
      ensures cur' + appends' == Upsert(cur + appends, t)
    {
      if Key(t) in expiredIndexes {
        var idx := expiredIndexes[Key(t)];
        OverlaySlot(ts, cur, appends, t, idx);
        return cur[idx := t], appends;
      } else {
        OverlayAppend(ts, cur, appends, t);
        return cur, appends + [t];
      }
    }

    // Logs the staged tuples in order.
    method AppendInserts(tid: string, staged: seq<Tuple>, now: Time)
      requires tid in changelog && tid in seqCounter
      modifies this`changelog, this`seqCounter
      ensures changelog == old(changelog)[tid := old(changelog[tid]) + InsertEntries(old(seqCounter[tid]), tid, staged, now)]
      ensures seqCounter == old(seqCounter)[tid := old(seqCounter[tid]) + |staged|]
    {
      var i := 0;
      assert old(changelog[tid]) + InsertEntries(old(seqCounter[tid]), tid, staged[..0], now) == old(changelog[tid]);
      while i < |staged|
        invariant 0 <= i <= |staged|
        invariant changelog == old(changelog)[tid := old(changelog[tid]) + InsertEntries(old(seqCounter[tid]), tid, staged[..i], now)]
        invariant seqCounter == old(seqCounter)[tid := old(seqCounter[tid]) + i]
      {
        AppendTupleChangelog(tid, OpInsert, staged[i], now);
        Reassociate(old(changelog[tid]), InsertEntries(old(seqCounter[tid]), tid, staged[..i], now),
                    TupleEntry(old(seqCounter[tid]) + 1 + i, tid, OpInsert, staged[i], now));
        InsertEntriesLast(old(seqCounter[tid]), tid, staged[..i], staged[i], now);
        assert staged[..i + 1] == staged[..i] + [staged[i]];
        i := i + 1;
      }
      assert staged[..i] == staged;
    }

    method AppendTupleChangelog(tid: string, op: ChangeOp, t: Tuple, now: Time)
      requires tid in changelog && tid in seqCounter
      modifies this`changelog, this`seqCounter
      ensures seqCounter == old(seqCounter)[tid := old(seqCounter[tid]) + 1]
      ensures changelog == old(changelog)[tid := old(changelog[tid]) + [TupleEntry(old(seqCounter[tid]) + 1, tid, op, t, now)]]
    {
      seqCounter := seqCounter[tid := seqCounter[tid] + 1];
      var entry := TupleEntry(seqCounter[tid], tid, op, t, now);
      changelog := changelog[tid := changelog[tid] + [entry]];
    }

    method DeleteTuple(tid: string, id: Identity, now: Time) returns (reply: Runs.Reply)
      requires Valid()
      modifies this
      ensures Valid()
      ensures Stepped(Runs.DeleteTuple(tid, id, now), reply)
    {
      var err := CheckTenantWritable(tid);
      if err.Some? {
        return Runs.Failed(err.value);
      }
      var ts := tuples[tid];
      var i := IndexOf(ts, id);
      if i == |ts| {
        return Runs.Failed(NotFound);
      }
      DeleteKeepsValid(BucketOf(tid), tid, id, now);
      RemoveAt(tid, i, now);
      return Runs.Done;
    }

    // Shifts the slice over index i and logs the removed tuple.
    method RemoveAt(tid: string, i: nat, now: Time)
      requires Valid() && tid in tuples && i < |tuples[tid]|
      requires BucketValid(Removed(BucketOf(tid), tid, i, now))
      modifies this`tuples, this`changelog, this`seqCounter
      ensures Valid()
      ensures BucketOf(tid) == Removed(old(BucketOf(tid)), tid, i, now)
      ensures forall t :: t != tid ==> SlotOf(t) == old(SlotOf(t))
    {
      var ts := tuples[tid];
      tuples := tuples[tid := ts[..i] + ts[i + 1..]];
      AppendTupleChangelog(tid, OpDelete, ts[i], now);
      assert BucketOf(tid) == Removed(old(BucketOf(tid)), tid, i, now);
      Touched(tid);
    }

    // The first index whose six identity fields match, or |ts|.
    static method IndexOf(ts: seq<Tuple>, id: Identity) returns (i: nat)
      ensures i == FindId(ts, id)
    {
      i := 0;
      while i < |ts|
        invariant 0 <= i <= |ts|
        invariant forall j :: 0 <= j < i ==> ts[j].id != id
      {
        if ts[i].id == id {
          return;
        }
        i := i + 1;
      }
    }

    method AppendChangelog(tid: string, entry: Entry, now: Time) returns (reply: Runs.Reply)
      requires Valid()
      modifies this
      ensures Valid()
      ensures Stepped(Runs.AppendChangelog(tid, entry, now), reply)
    {
      var err := CheckTenantWritable(tid);
      if err.Some? {
        return Runs.Failed(err.value);
      }
      LogEntry(tid, entry, now);
      return Runs.Done;
    }

    // Numbers the entry, stamps it if it carries no time, and appends it.
    method LogEntry(tid: string, entry: Entry, now: Time)
      requires Valid() && tid in tuples
      modifies this`changelog, this`seqCounter
      ensures Valid()
      ensures BucketOf(tid) == AppendEntry(old(BucketOf(tid)), tid, entry, now)
      ensures forall t :: t != tid ==> SlotOf(t) == old(SlotOf(t))
    {
      AppendKeepsValid(BucketOf(tid), tid, entry, now);
      seqCounter := seqCounter[tid := seqCounter[tid] + 1];
      var e := entry.(tenantId := tid, sequence := seqCounter[tid]);
      if e.timestamp == ZERO_TIME {
        e := e.(timestamp := now);
      }
      changelog := changelog[tid := changelog[tid] + [e]];
      assert BucketOf(tid) == AppendEntry(old(BucketOf(tid)), tid, entry, now);
      Touched(tid);
    }

    // No status check: any tenant, known or not, can be purged.
    method PurgeTenantData(tid: string) returns (reply: Runs.Reply)
      requires Valid()
      modifies this
      ensures Valid()
      ensures Stepped(Runs.PurgeTenantData(tid), reply)
    {
      ClearBuckets(tid);
      assert SlotOf(tid) == old(SlotOf(tid)).(bucket := EMPTY_BUCKET);
      return Runs.Done;
    }

    method SetObjectAttributes(tid: string, typ: string, id: string, attrs: Attrs) returns (reply: Runs.Reply)
      requires Valid()
      modifies this
      ensures Valid()
      ensures Stepped(Runs.SetObjectAttributes(tid, typ, id, attrs), reply)
    {
      var err := CheckTenantWritable(tid);
      if err.Some? {
        return Runs.Failed(err.value);
      }
      objAttrs := objAttrs[tid := objAttrs[tid][typ + ":" + id := attrs]];
      OthersKept(tid);
      return Runs.Done;
    }

    method SetSubjectAttributes(tid: string, typ: string, id: string, attrs: Attrs) returns (reply: Runs.Reply)
      requires Valid()
      modifies this
      ensures Valid()
      ensures Stepped(Runs.SetSubjectAttributes(tid, typ, id, attrs), reply)
    {
      var err := CheckTenantWritable(tid);
      if err.Some? {
        return Runs.Failed(err.value);
      }
      subAttrs := subAttrs[tid := subAttrs[tid][typ + ":" + id := attrs]];
      OthersKept(tid);
      return Runs.Done;
    }

    // -- Lookups: each answers from the view of its moment --

    method CheckDirect(tid: string, id: Identity, now: Time) returns (r: Result<bool, StoreError>)
      requires Valid() && id.subRel == ""
      ensures r == LookupDirect(Runs.ViewOf(SlotOf(tid), now), id)
    {
      var err := CheckTenantReadable(tid);
      if err.Some? {
        return Err(err.value);
      }
      var found := AnyLive(tuples[tid], id, now);
      return Ok(found);
    }

    static method AnyLive(ts: seq<Tuple>, id: Identity, now: Time) returns (found: bool)
      ensures found == (id in LiveIds(ts, now))
    {
      var i := 0;
      while i < |ts|
        invariant 0 <= i <= |ts|
        invariant forall j :: 0 <= j < i ==> ts[j].id != id || ExpiredAt(ts[j], now)
      {
        if ts[i].id == id && !ExpiredAt(ts[i], now) {
          assert ts[i] in ts;
          return true;
        }
        i := i + 1;
      }
      return false;
    }

    method ListSubjects(tid: string, typ: string, id: string, relation: string, now: Time) returns (r: Result<seq<SubjectRef>, StoreError>)
      requires Valid()
      ensures r == LookupSubjects(Runs.ViewOf(SlotOf(tid), now), typ, id, relation)
    {
      var err := CheckTenantReadable(tid);
      if err.Some? {
        return Err(err.value);
      }
      var subjects := CollectSubjects(tuples[tid], typ, id, relation, now);
      return Ok(subjects);
    }

    static method CollectSubjects(ts: seq<Tuple>, typ: string, id: string, relation: string, now: Time) returns (result: seq<SubjectRef>)
      ensures result == Subjects(LiveIds(ts, now), typ, id, relation)
    {
      result := [];
      var i := 0;
      while i < |ts|
        invariant 0 <= i <= |ts|
        invariant result == Subjects(LiveIds(ts[..i], now), typ, id, relation)
      {
        SubjectsStep(ts[..i], ts[i], now, typ, id, relation);
        assert ts[..i + 1] == ts[..i] + [ts[i]];
        var t := ts[i].id;
        if t.objType == typ && t.objId == id && t.relation == relation && !ExpiredAt(ts[i], now) {
          result := result + [SubjectRef(t.subType, t.subId, t.subRel)];
        }
        i := i + 1;
      }
      assert ts[..i] == ts;
    }

    method ListRelatedObjects(tid: string, typ: string, id: string, relation: string, now: Time) returns (r: Result<seq<ObjectRef>, StoreError>)
      requires Valid()
      ensures r == LookupTargets(Runs.ViewOf(SlotOf(tid), now), typ, id, relation)
    {
      var err := CheckTenantReadable(tid);
      if err.Some? {
        return Err(err.value);
      }
      var objects := CollectTargets(tuples[tid], typ, id, relation, now);
      return Ok(objects);
    }

    static method CollectTargets(ts: seq<Tuple>, typ: string, id: string, relation: string, now: Time) returns (result: seq<ObjectRef>)
      ensures result == Targets(Subjects(LiveIds(ts, now), typ, id, relation))
    {
      result := [];
      ghost var us := [];
      var i := 0;
      while i < |ts|
        invariant 0 <= i <= |ts|
        invariant us == Subjects(LiveIds(ts[..i], now), typ, id, relation)
        invariant result == Targets(us)
      {
        SubjectsStep(ts[..i], ts[i], now, typ, id, relation);
        assert ts[..i + 1] == ts[..i] + [ts[i]];
        var t := ts[i].id;
        if t.objType == typ && t.objId == id && t.relation == relation && !ExpiredAt(ts[i], now) {
          TargetsStep(us, SubjectRef(t.subType, t.subId, t.subRel));
          result := result + [ObjectRef(t.subType, t.subId)];
          us := us + [SubjectRef(t.subType, t.subId, t.subRel)];
        }
        i := i + 1;
      }
      assert ts[..i] == ts;
    }

    method ReadChangelog(tid: string, since: nat, limit: int) returns (r: Result<seq<Entry>, StoreError>)
      requires Valid()
      ensures r == match Runs.CheckReadable(SlotOf(tid).tenant)
                   case Some(x) => Err(x)
                   case None => Ok(Page(BucketOf(tid).changelog, since, limit))
    {
      var err := CheckTenantReadable(tid);
      if err.Some? {
        return Err(err.value);
      }
      assert BucketValid(BucketOf(tid));
      var entries := ScanLog(changelog[tid], since, limit);
      return Ok(entries);
    }

    static method ScanLog(log: seq<Entry>, since: nat, limit: int) returns (result: seq<Entry>)
      requires Numbered(log, |log|)
      ensures result == Page(log, since, limit)
    {
      result := [];
      var i := 0;
      while i < |log|
        invariant 0 <= i <= |log|
        invariant result == if since <= i then log[since..i] else []
        invariant limit > 0 && since < i ==> |result| < limit
      {
        if log[i].sequence > since {
          assert log[since..i] + [log[i]] == log[since..i + 1];
          result := result + [log[i]];
          if limit > 0 && |result| >= limit {
            assert result == Page(log, since, limit);
            break;
          }
        }
        i := i + 1;
      }
    }

    method LatestSequence(tid: string) returns (r: Result<nat, StoreError>)
      requires Valid()
      ensures r == match Runs.CheckReadable(SlotOf(tid).tenant)
                   case Some(x) => Err(x)
                   case None => Ok(|BucketOf(tid).changelog|)
    {
      var err := CheckTenantReadable(tid);
      if err.Some? {
        return Err(err.value);
      }
      assert BucketValid(BucketOf(tid));
      return Ok(seqCounter[tid]);
    }
  }

  ghost predicate LiveKeysOf(keys: set<string>, ts: seq<Tuple>, now: Time) {
    forall key :: key in keys <==> LiveKey(ts, key, now)
  }

  // The map takes each key whose tuple lies before i and has expired to that tuple's index.
  ghost predicate ExpiredSlotsOf(slots: map<string, nat>, ts: seq<Tuple>, i: nat, now: Time) {
    forall key ::
      && (key in slots <==> Find(ts, key) < i && Find(ts, key) < |ts| && ExpiredAt(ts[Find(ts, key)], now))
      && (key in slots ==> slots[key] == Find(ts, key))
  }

  lemma {:induction false} LiveKeysStep(keys: set<string>, ts: seq<Tuple>, i: nat, now: Time)
    requires i < |ts| && LiveKeysOf(keys, ts[..i], now)
    ensures LiveKeysOf(if ExpiredAt(ts[i], now) then keys else keys + {Key(ts[i])}, ts[..i + 1], now)
  {
    var keys' := if ExpiredAt(ts[i], now) then keys else keys + {Key(ts[i])};
    var init, all := ts[..i], ts[..i + 1];
    forall key
      ensures key in keys' <==> LiveKey(all, key, now)
    {
      if LiveKey(init, key, now) {
        var j :| 0 <= j < |init| && Key(init[j]) == key && !ExpiredAt(init[j], now);
        assert all[j] == init[j];
      }
      if LiveKey(all, key, now) {
        var j :| 0 <= j < |all| && Key(all[j]) == key && !ExpiredAt(all[j], now);
        assert j < i ==> init[j] == all[j];
      }
      assert all[i] == ts[i];
    }
  }

  lemma {:induction false} ExpiredSlotsStep(slots: map<string, nat>, ts: seq<Tuple>, i: nat, now: Time)
    requires i < |ts| && DistinctKeys(ts) && ExpiredSlotsOf(slots, ts, i, now)
    ensures Key(ts[i]) !in slots
    ensures ExpiredSlotsOf(if ExpiredAt(ts[i], now) then slots[Key(ts[i]) := i] else slots, ts, i + 1, now)
  {
    FindUnique(ts, i);
    forall key | key != Key(ts[i])
      ensures Find(ts, key) != i
    {
    }
  }

  lemma {:induction false} TargetsStep(us: seq<SubjectRef>, u: SubjectRef)
    ensures Targets(us + [u]) == Targets(us) + [ObjectRef(u.typ, u.id)]
  {
  }

  lemma {:induction false} SubjectsStep(ts: seq<Tuple>, t: Tuple, now: Time, typ: string, id: string, relation: string)
    ensures Subjects(LiveIds(ts + [t], now), typ, id, relation) ==
            Subjects(LiveIds(ts, now), typ, id, relation)
            + if t.id.objType == typ && t.id.objId == id && t.id.relation == relation && !ExpiredAt(t, now)
              then [SubjectRef(t.id.subType, t.id.subId, t.id.subRel)] else []
  {
    assert (ts + [t])[..|ts|] == ts;
    var ids := LiveIds(ts, now);
    assert (ids + [t.id])[..|ids|] == ids;
  }

  ghost predicate SameKeys(cur: seq<Tuple>, ts: seq<Tuple>) {
    |cur| == |ts| && forall j :: 0 <= j < |ts| ==> Key(cur[j]) == Key(ts[j])
  }

  lemma {:induction false} FindInConcat(cur: seq<Tuple>, ts: seq<Tuple>, more: seq<Tuple>, key: string)
    requires SameKeys(cur, ts)
    ensures Find(ts, key) < |ts| ==> Find(cur + more, key) == Find(ts, key)
    ensures Find(ts, key) == |ts| ==> Find(cur + more, key) == |cur| + Find(more, key)
  {
    if cur == [] {
      assert cur + more == more;
    } else {
      assert (cur + more)[1..] == cur[1..] + more;
      FindInConcat(cur[1..], ts[1..], more, key);
    }
  }

  lemma {:induction false} OverlaySlot(ts: seq<Tuple>, cur: seq<Tuple>, appends: seq<Tuple>, t: Tuple, idx: nat)
    requires SameKeys(cur, ts) && idx == Find(ts, Key(t)) < |ts|
    ensures Upsert(cur + appends, t) == cur[idx := t] + appends
    ensures SameKeys(cur[idx := t], ts)
  {
    FindInConcat(cur, ts, appends, Key(t));
    UpdateInConcat(cur, appends, idx, t);
  }

  lemma {:induction false} UpdateInConcat<T>(a: seq<T>, b: seq<T>, i: nat, x: T)
    requires i < |a|
    ensures (a + b)[i := x] == a[i := x] + b
  {
  }

  lemma {:induction false} OverlayAppend(ts: seq<Tuple>, cur: seq<Tuple>, appends: seq<Tuple>, t: Tuple)
    requires SameKeys(cur, ts) && Find(ts, Key(t)) == |ts|
    requires forall a :: a in appends ==> Key(a) != Key(t)
    ensures Upsert(cur + appends, t) == cur + (appends + [t])
  {
    FindInConcat(cur, ts, appends, Key(t));
    Reassociate(cur, appends, t);
  }

  lemma {:induction false} UpsertAllAt(ts: seq<Tuple>, staged: seq<Tuple>, i: nat)
    requires i < |staged|
    ensures UpsertAll(ts, staged[..i + 1]) == Upsert(UpsertAll(ts, staged[..i]), staged[i])
  {
    assert staged[..i + 1][..i] == staged[..i];
  }

  // A staged tuple without an expired slot is new to the store and to the tuples staged before it.
  lemma {:induction false} NotLiveNotExpired(ts: seq<Tuple>, staged: seq<Tuple>, i: nat, now: Time)
    requires i < |staged| && !Clash(ts, staged, now)
    ensures Find(ts, Key(staged[i])) == |ts| || ExpiredAt(ts[Find(ts, Key(staged[i]))], now)
    ensures forall a :: a in staged[..i] ==> Key(a) != Key(staged[i])
  {
    assert !LiveKey(ts, Key(staged[i]), now);
    assert forall j :: 0 <= j < i ==> Key(staged[j]) != Key(staged[i]);
  }

  lemma {:induction false} StagedClashFree(ts: seq<Tuple>, batch: seq<Tuple>, tid: string, now: Time)
    requires !Clash(ts, batch, now)
    ensures !Clash(ts, StageAll(batch, tid, now), now)
  {
    var staged := StageAll(batch, tid, now);
    assert forall i :: 0 <= i < |batch| ==> Key(staged[i]) == Key(batch[i]);
  }

  // pkg/tenant/manager.go: each call reads the tenant, changes its status and writes it back.
  class Manager {
    const store: Store

    constructor (store: Store)
      ensures this.store == store
    {
      this.store := store;
    }

    method Create(tid: string, displayName: string, mode: SchemaMode, now: Time) returns (reply: Runs.Reply)
      requires store.Valid()
      modifies store
      ensures store.Valid()
      ensures store.Stepped(Runs.Create(tid, displayName, mode, now), reply)
    {
      if !Runs.ValidTenantId(tid) {
        return Runs.InvalidTenantId;
      }
      var t := Tenant(tid, if displayName == "" then tid else displayName, Pending, mode, "", now, ZERO_TIME);
      var err := store.CreateTenant(t, now);
      assert err.None? ==> store.tenants[tid] == Runs.NewTenant(tid, displayName, mode, now);
      return FromError(err);
    }

    method Activate(tid: string, now: Time) returns (reply: Runs.Reply)
      requires store.Valid()
      modifies store
      ensures store.Valid()
      ensures store.Stepped(Runs.Activate(tid, now), reply)
    {
      var t := store.GetTenant(tid);
      if t.Err? {
        return Runs.Failed(t.error);
      }
      if t.value.status == Deleted {
        return Runs.Failed(TenantDeleted);
      }
      var err := store.UpdateTenant(t.value.(status := Active), now);
      return FromError(err);
    }

    method Suspend(tid: string, now: Time) returns (reply: Runs.Reply)
      requires store.Valid()
      modifies store
      ensures store.Valid()
      ensures store.Stepped(Runs.Suspend(tid, now), reply)
    {
      var t := store.GetTenant(tid);
      if t.Err? {
        return Runs.Failed(t.error);
      }
      if t.value.status != Active {
        return Runs.InvalidTransition;
      }
      var err := store.UpdateTenant(t.value.(status := Suspended), now);
      return FromError(err);
    }

    method Delete(tid: string, now: Time) returns (reply: Runs.Reply)
      requires store.Valid()
      modifies store
      ensures store.Valid()
      ensures store.Stepped(Runs.DeleteTenant(tid, now), reply)
    {
      var t := store.GetTenant(tid);
      if t.Err? {
        return Runs.Failed(t.error);
      }
      if t.value.status == Deleted {
        return Runs.Failed(TenantDeleted);
      }
      var err := store.UpdateTenant(t.value.(status := Deleted), now);
      return FromError(err);
    }
  }

  // The source's lookup takes no subject relation.
  predicate Callable(step: Runs.Step) {
    step.CheckDirect? ==> step.identity.subRel == ""
  }

  // One step of a run, taken on the store.
  method Perform(m: Manager, step: Runs.Step) returns (reply: Runs.Reply)
    requires m.store.Valid() && Callable(step)
    modifies m.store
    ensures m.store.Valid() && m.store.Stepped(step, reply)
  {
    match step
    case Create(tid, displayName, mode, now) => reply := m.Create(tid, displayName, mode, now);
    case Activate(tid, now) => reply := m.Activate(tid, now);
    case Suspend(tid, now) => reply := m.Suspend(tid, now);
    case DeleteTenant(tid, now) => reply := m.Delete(tid, now);
    case WriteTuples(tid, batch, now) => reply := m.store.WriteTuples(tid, batch, now);
    case DeleteTuple(tid, id, now) => reply := m.store.DeleteTuple(tid, id, now);
    case AppendChangelog(tid, entry, now) => reply := m.store.AppendChangelog(tid, entry, now);
    case PurgeTenantData(tid) => reply := m.store.PurgeTenantData(tid);
    case SetObjectAttributes(tid, typ, id, attrs) => reply := m.store.SetObjectAttributes(tid, typ, id, attrs);
    case SetSubjectAttributes(tid, typ, id, attrs) => reply := m.store.SetSubjectAttributes(tid, typ, id, attrs);
    case _ => reply := Look(m.store, step);
  }

  // A step that only reads.
  method Look(store: Store, step: Runs.Step) returns (reply: Runs.Reply)
    requires store.Valid() && Callable(step) && Runs.IsRead(step)
    ensures (store.SlotOf(step.tid), reply) == Runs.Apply(store.SlotOf(step.tid), step)
  {
    Runs.ReadAnswers(store.SlotOf(step.tid), step);
    if step.ReadChangelog? || step.LatestSequence? {
      reply := LookAtLog(store, step);
    } else {
      reply := LookAtTuples(store, step);
    }
  }

  function ReplyOf(s: Runs.Slot, step: Runs.Step): Runs.Reply {
    var err := Runs.CheckReadable(s.tenant);
    if err.Some? then Runs.Failed(err.value) else Runs.Answered(s, step)
  }

  lemma {:induction false} LogReply(s: Runs.Slot, step: Runs.Step)
    requires step.ReadChangelog?
    ensures ReplyOf(s, step) == match Runs.CheckReadable(s.tenant)
                                case Some(x) => Runs.Failed(x)
                                case None => Runs.EntryList(Page(s.bucket.changelog, step.since, step.limit))
  {
  }

  method LookAtLog(store: Store, step: Runs.Step) returns (reply: Runs.Reply)
    requires store.Valid() && (step.ReadChangelog? || step.LatestSequence?)
    ensures reply == ReplyOf(store.SlotOf(step.tid), step)
  {
    if step.ReadChangelog? {
      LogReply(store.SlotOf(step.tid), step);
      var r := store.ReadChangelog(step.tid, step.since, step.limit);
      return if r.Ok? then Runs.EntryList(r.value) else Runs.Failed(r.error);
    }
    assert BucketValid(store.BucketOf(step.tid));
    var r := store.LatestSequence(step.tid);
    return if r.Ok? then Runs.Sequence(r.value) else Runs.Failed(r.error);
  }

  lemma {:induction false} DirectReply(s: Runs.Slot, step: Runs.Step)
    requires step.CheckDirect?
    ensures ReplyOf(s, step) == match LookupDirect(Runs.ViewOf(s, step.now), step.identity)
                                case Ok(found) => Runs.Found(found)
                                case Err(x) => Runs.Failed(x)
  {
  }

  lemma {:induction false} SubjectsReply(s: Runs.Slot, step: Runs.Step)
    requires step.ListSubjects?
    ensures ReplyOf(s, step) == match LookupSubjects(Runs.ViewOf(s, step.now), step.typ, step.id, step.relation)
                                case Ok(subjects) => Runs.SubjectList(subjects)
                                case Err(x) => Runs.Failed(x)
  {
  }

  lemma {:induction false} TargetsReply(s: Runs.Slot, step: Runs.Step)
    requires step.ListRelatedObjects?
    ensures ReplyOf(s, step) == match LookupTargets(Runs.ViewOf(s, step.now), step.typ, step.id, step.relation)
                                case Ok(objects) => Runs.ObjectList(objects)
                                case Err(x) => Runs.Failed(x)
  {
  }

  method LookAtTuples(store: Store, step: Runs.Step) returns (reply: Runs.Reply)
    requires store.Valid() && Callable(step) && (step.CheckDirect? || step.ListSubjects? || step.ListRelatedObjects?)
    ensures reply == ReplyOf(store.SlotOf(step.tid), step)
  {
    ghost var s := store.SlotOf(step.tid);
    if step.CheckDirect? {
      DirectReply(s, step);
      var r := store.CheckDirect(step.tid, step.identity, step.now);
      return if r.Ok? then Runs.Found(r.value) else Runs.Failed(r.error);
    }
    if step.ListSubjects? {
      SubjectsReply(s, step);
      var r := store.ListSubjects(step.tid, step.typ, step.id, step.relation, step.now);
      return if r.Ok? then Runs.SubjectList(r.value) else Runs.Failed(r.error);
    }
    TargetsReply(s, step);
    var r := store.ListRelatedObjects(step.tid, step.typ, step.id, step.relation, step.now);
    return if r.Ok? then Runs.ObjectList(r.value) else Runs.Failed(r.error);
  }

  // A whole run on an empty store ends in the state, and gives the replies, that the state machine says.
  method Execute(m: Manager, run: seq<Runs.Step>) returns (replies: seq<Runs.Reply>)
    requires m.store.Valid() && (forall tid :: m.store.SlotOf(tid) == Runs.NO_TENANT) && forall step :: step in run ==> Callable(step)
    modifies m.store
    ensures m.store.Valid() && forall tid :: m.store.SlotOf(tid) == Runs.Get(Runs.After(run), tid)
    ensures |replies| == |run|
    ensures forall i :: 0 <= i < |run| ==> replies[i] == Runs.ReplyAt(run, i)
  {
    replies := [];
    var i := 0;
    while i < |run|
      invariant 0 <= i <= |run| && |replies| == i && m.store.Valid()
      invariant forall tid :: m.store.SlotOf(tid) == Runs.Get(Runs.After(run[..i]), tid)
      invariant forall j :: 0 <= j < i ==> replies[j] == Runs.ReplyAt(run, j)
    {
      var reply := Perform(m, run[i]);
      assert reply == Runs.ReplyAt(run, i);
      forall tid
        ensures m.store.SlotOf(tid) == Runs.Get(Runs.After(run[..i + 1]), tid)
      {
        Runs.AfterStep(run, i, tid);
      }
      replies := replies + [reply];
      i := i + 1;
    }
    assert run[..i] == run;
  }
}
