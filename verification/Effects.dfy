/** What each step of the store does, and when it is refused, in terms of the fields alone. */
module Effects {
  import opened Wrappers
  import opened Tuples
  import opened Keys
  import opened Tenants
  import opened StoreSpec
  import opened Runs

  // -- Status gates --

  /** A write is refused exactly when the tenant is not active, and then nothing changes; each status has its error. */
  lemma {:induction false} WritesNeedActive(s: Slot, step: Step)
    requires IsWrite(step)
    ensures Status(s) == None ==> Apply(s, step) == (s, Failed(TenantNotFound))
    ensures Status(s) == Some(Deleted) ==> Apply(s, step) == (s, Failed(TenantDeleted))
    ensures Status(s) == Some(Suspended) || Status(s) == Some(Pending) ==> Apply(s, step) == (s, Failed(TenantSuspended))
    ensures Status(s) == Some(Active) ==>
              match step
              case WriteTuples(tid, batch, now) => Apply(s, step).1 == if Clash(s.bucket.tuples, batch, now) then Failed(DuplicateTuple) else Done
              case DeleteTuple(_, id, _) => Apply(s, step).1 == if exists t :: t in s.bucket.tuples && t.id == id then Done else Failed(NotFound)
              case _ => Apply(s, step).1 == Done
  {
    if step.DeleteTuple? {
      DeleteFinds(s.bucket, step.tid, step.identity, step.now);
    }
  }

  lemma {:induction false} DeleteFinds(b: Bucket, tenantId: string, id: Identity, now: Time)
    ensures DeleteFrom(b, tenantId, id, now) == Err(NotFound) <==> forall t :: t in b.tuples ==> t.id != id
    ensures DeleteFrom(b, tenantId, id, now).Err? ==> DeleteFrom(b, tenantId, id, now) == Err(NotFound)
  {
    var i := FindId(b.tuples, id);
    if i < |b.tuples| {
      assert b.tuples[i] in b.tuples;
    }
  }

  /** A read is refused exactly when the tenant is unknown or deleted; pending and suspended tenants are read. */
  lemma {:induction false} ReadsNeedReadable(s: Slot, step: Step)
    requires IsRead(step)
    ensures Apply(s, step).0 == s
    ensures Status(s) == None <==> Apply(s, step).1 == Failed(TenantNotFound)
    ensures Status(s) == Some(Deleted) <==> Apply(s, step).1 == Failed(TenantDeleted)
    ensures Apply(s, step).1.Failed? ==> Status(s) == None || Status(s) == Some(Deleted)
  {
  }

  // -- Tenant lifecycle --

  // The same record but for its status and its update time.
  predicate Restamped(t: Tenant, t': Tenant, status: TenantStatus, now: Time) {
    && t'.status == status && t'.updatedAt == now
    && t'.id == t.id && t'.displayName == t.displayName && t'.mode == t.mode && t'.sharedRef == t.sharedRef && t'.createdAt == t.createdAt
  }

  /** Creating succeeds exactly for a valid, unused id, and makes a pending tenant with the given name and mode. */
  lemma {:induction false} CreateEffect(s: Slot, tid: string, displayName: string, mode: SchemaMode, now: Time)
    ensures var (s', reply) := Apply(s, Create(tid, displayName, mode, now));
            && (reply == Done <==> ValidTenantId(tid) && s.tenant.None?)
            && (reply == InvalidTenantId <==> !ValidTenantId(tid))
            && (reply == Failed(TenantExists) <==> ValidTenantId(tid) && s.tenant.Some?)
            && s'.bucket == s.bucket && (reply != Done ==> s' == s)
            && (reply == Done ==>
                  && s'.tenant.Some? && s'.tenant.value.id == tid && s'.tenant.value.mode == mode && s'.tenant.value.status == Pending
                  && s'.tenant.value.displayName == (if displayName == "" then tid else displayName)
                  && s'.tenant.value.createdAt == now && s'.tenant.value.updatedAt == now && s'.tenant.value.sharedRef == "")
  {
  }

  /** Activating succeeds exactly for a known tenant that is not deleted, and makes it active. */
  lemma {:induction false} ActivateEffect(s: Slot, tid: string, now: Time)
    ensures var (s', reply) := Apply(s, Activate(tid, now));
            && (reply == Done <==> s.tenant.Some? && Status(s) != Some(Deleted))
            && (reply == Failed(TenantNotFound) <==> s.tenant.None?)
            && (reply == Failed(TenantDeleted) <==> Status(s) == Some(Deleted))
            && s'.bucket == s.bucket && (reply != Done ==> s' == s)
            && (reply == Done ==> s'.tenant.Some? && Restamped(s.tenant.value, s'.tenant.value, Active, now))
  {
  }

  /** Suspending succeeds exactly for an active tenant, and makes it suspended. */
  lemma {:induction false} SuspendEffect(s: Slot, tid: string, now: Time)
    ensures var (s', reply) := Apply(s, Suspend(tid, now));
            && (reply == Done <==> Status(s) == Some(Active))
            && (reply == Failed(TenantNotFound) <==> s.tenant.None?)
            && (reply == InvalidTransition <==> s.tenant.Some? && Status(s) != Some(Active))
            && s'.bucket == s.bucket && (reply != Done ==> s' == s)
            && (reply == Done ==> s'.tenant.Some? && Restamped(s.tenant.value, s'.tenant.value, Suspended, now))
  {
  }

  /** Deleting succeeds exactly for a known tenant that is not deleted yet, marks it deleted and keeps its data. */
  lemma {:induction false} DeleteTenantEffect(s: Slot, tid: string, now: Time)
    ensures var (s', reply) := Apply(s, DeleteTenant(tid, now));
            && (reply == Done <==> s.tenant.Some? && Status(s) != Some(Deleted))
            && (reply == Failed(TenantNotFound) <==> s.tenant.None?)
            && (reply == Failed(TenantDeleted) <==> Status(s) == Some(Deleted))
            && s'.bucket == s.bucket && (reply != Done ==> s' == s)
            && (reply == Done ==> s'.tenant.Some? && Restamped(s.tenant.value, s'.tenant.value, Deleted, now))
  {
  }

  /** A purge empties the data of any tenant, whatever its status, and leaves its record alone. */
  lemma {:induction false} PurgeEffect(s: Slot, tid: string)
    ensures var (s', reply) := Apply(s, PurgeTenantData(tid));
            && reply == Done && s'.tenant == s.tenant
            && s'.bucket.tuples == [] && s'.bucket.changelog == [] && s'.bucket.seqCounter == 0
            && s'.bucket.objAttrs == map[] && s'.bucket.subAttrs == map[]
  {
  }

  predicate EndChar(c: char) {
    'a' <= c <= 'z' || '0' <= c <= '9'
  }

  ghost predicate Shaped(id: string, first: char, middle: string, last: char) {
    && id == [first] + middle + [last] && EndChar(first) && EndChar(last)
    && |middle| <= 126 && forall i :: 0 <= i < |middle| ==> EndChar(middle[i]) || middle[i] == '-'
  }

  /** Valid ids are those the expression matches: an end character, up to 126 inner ones, an end character. */
  lemma {:induction false} TenantIdMatches(id: string)
    ensures ValidTenantId(id) <==> exists first, middle, last :: Shaped(id, first, middle, last)
  {
    if ValidTenantId(id) {
      var middle := id[1..|id| - 1];
      assert id == [id[0]] + middle + [id[|id| - 1]];
      assert Shaped(id, id[0], middle, id[|id| - 1]);
    }
    if first, middle, last :| Shaped(id, first, middle, last) {
      assert id[0] == first && id[|id| - 1] == last;
      forall i | 0 <= i < |id|
        ensures EndChar(id[i]) || id[i] == '-'
      {
        assert 0 < i < |id| - 1 ==> id[i] == middle[i - 1];
      }
    }
  }

  // -- Tuples --

  // The tuple as stored: as given, under the tenant, with its times filled in.
  predicate StoredAs(t: Tuple, given: Tuple, tid: string, now: Time) {
    && t.id == given.id && t.attributes == given.attributes && t.expiresAt == given.expiresAt
    && t.tenantId == tid && t.updatedAt == now && t.createdAt == (if given.createdAt == ZERO_TIME then now else given.createdAt)
  }

  // The entry logs the tuple under the tenant, by the API, at the given place and time.
  predicate Logs(e: Entry, sequence: nat, op: ChangeOp, t: Tuple, tid: string, now: Time) {
    e.sequence == sequence && e.op == op && e.tuple == t && e.tenantId == tid && e.timestamp == now && e.source == "api"
  }

  // ts' holds exactly the batch and what the batch does not replace, and what it replaces had expired.
  ghost predicate BatchStored(ts: seq<Tuple>, ts': seq<Tuple>, tid: string, batch: seq<Tuple>, now: Time) {
    && (forall i :: 0 <= i < |batch| ==> exists t :: t in ts' && StoredAs(t, batch[i], tid, now))
    && (forall t :: t in ts' && t !in ts ==> exists i :: 0 <= i < |batch| && StoredAs(t, batch[i], tid, now))
    && (forall t :: t in ts && (forall i :: 0 <= i < |batch| ==> Key(batch[i]) != Key(t)) ==> t in ts')
    && (forall t, i :: t in ts && 0 <= i < |batch| && Key(batch[i]) == Key(t) ==> ExpiredAt(t, now))
  }

  // log' is log and then one insert for each tuple of the batch, in order, numbered on.
  ghost predicate InsertsLogged(log: seq<Entry>, log': seq<Entry>, tid: string, batch: seq<Tuple>, now: Time) {
    && |log'| == |log| + |batch| && log <= log'
    && forall i :: 0 <= i < |batch| ==>
         StoredAs(log'[|log| + i].tuple, batch[i], tid, now) && Logs(log'[|log| + i], |log| + i + 1, OpInsert, log'[|log| + i].tuple, tid, now)
  }

  lemma {:induction false} WriteStores(ts: seq<Tuple>, tid: string, batch: seq<Tuple>, now: Time)
    requires DistinctKeys(ts) && !Clash(ts, batch, now)
    ensures BatchStored(ts, UpsertAll(ts, StageAll(batch, tid, now)), tid, batch, now)
  {
    var staged := StageAll(batch, tid, now);
    var ts' := UpsertAll(ts, staged);
    assert forall j :: 0 <= j < |batch| ==> Key(staged[j]) == Key(batch[j]) && StoredAs(staged[j], batch[j], tid, now);
    forall i | 0 <= i < |batch|
      ensures exists t :: t in ts' && StoredAs(t, batch[i], tid, now)
    {
      StagedIsStored(ts, staged, i);
      assert staged[i] in ts';
    }
    forall t | t in ts' && t !in ts
      ensures exists i :: 0 <= i < |batch| && StoredAs(t, batch[i], tid, now)
    {
      UpsertAllMembers(ts, staged, t);
      var i :| 0 <= i < |staged| && staged[i] == t;
      assert StoredAs(t, batch[i], tid, now);
    }
    forall t | t in ts && forall i :: 0 <= i < |batch| ==> Key(batch[i]) != Key(t)
      ensures t in ts'
    {
      UpsertAllKeeps(ts, staged, t);
    }
    forall t, i | t in ts && 0 <= i < |batch| && Key(batch[i]) == Key(t)
      ensures ExpiredAt(t, now)
    {
      var k :| 0 <= k < |ts| && ts[k] == t;
      assert !LiveKey(ts, Key(batch[i]), now);
    }
  }

  lemma {:induction false} WriteLogs(log: seq<Entry>, tid: string, batch: seq<Tuple>, now: Time)
    ensures InsertsLogged(log, log + InsertEntries(|log|, tid, StageAll(batch, tid, now), now), tid, batch, now)
  {
    var staged := StageAll(batch, tid, now);
    var log' := log + InsertEntries(|log|, tid, staged, now);
    forall i | 0 <= i < |batch|
      ensures log'[|log| + i] == TupleEntry(|log| + 1 + i, tid, OpInsert, staged[i], now) && StoredAs(staged[i], batch[i], tid, now)
    {
    }
  }

  /**
   A successful write stores exactly the batch and what it does not replace, and logs one insert for each
   tuple of the batch in order. It replaces the tuples that have a key of the batch, all of them expired.
   */
  lemma {:induction false} WriteEffect(s: Slot, tid: string, batch: seq<Tuple>, now: Time)
    requires BucketValid(s.bucket) && Apply(s, WriteTuples(tid, batch, now)).1 == Done
    ensures var s' := Apply(s, WriteTuples(tid, batch, now)).0;
            && BatchStored(s.bucket.tuples, s'.bucket.tuples, tid, batch, now)
            && InsertsLogged(s.bucket.changelog, s'.bucket.changelog, tid, batch, now)
            && s'.tenant == s.tenant && s'.bucket.objAttrs == s.bucket.objAttrs && s'.bucket.subAttrs == s.bucket.subAttrs
  {
    assert !Clash(s.bucket.tuples, batch, now);
    WriteStores(s.bucket.tuples, tid, batch, now);
    WriteLogs(s.bucket.changelog, tid, batch, now);
  }

  // With distinct keys every staged tuple is still there at the end.
  lemma {:induction false} StagedIsStored(ts: seq<Tuple>, staged: seq<Tuple>, i: nat)
    requires DistinctKeys(ts) && i < |staged| && forall j :: i < j < |staged| ==> Key(staged[j]) != Key(staged[i])
    ensures staged[i] in UpsertAll(ts, staged)
    decreases |staged|
  {
    var init, last := staged[..|staged| - 1], staged[|staged| - 1];
    UpsertAllDistinct(ts, init);
    if i == |staged| - 1 {
      UpsertMembers(UpsertAll(ts, init), last, staged[i]);
    } else {
      StagedIsStored(ts, init, i);
      UpsertMembers(UpsertAll(ts, init), last, staged[i]);
    }
  }

  /** A regrant takes the slot of the tuple it replaces, a new grant comes last; no other slot changes. */
  lemma {:induction false} UpsertPlaces(ts: seq<Tuple>, t: Tuple)
    requires DistinctKeys(ts)
    ensures var ts' := Upsert(ts, t);
            && (forall i :: 0 <= i < |ts| ==> i < |ts'| && ts'[i] == if Key(ts[i]) == Key(t) then t else ts[i])
            && ((exists i :: 0 <= i < |ts| && Key(ts[i]) == Key(t)) ==> |ts'| == |ts|)
            && ((forall i :: 0 <= i < |ts| ==> Key(ts[i]) != Key(t)) ==> ts' == ts + [t])
  {
    var k := Find(ts, Key(t));
    if k < |ts| {
      assert forall i :: 0 <= i < |ts| && Key(ts[i]) == Key(t) ==> i == k;
    }
  }

  /**
   A successful delete removes exactly the tuple with the requested identity, expired or not, keeps the others
   in their order and logs the removed tuple.
   */
  lemma {:induction false} DeleteEffect(s: Slot, tid: string, id: Identity, now: Time)
    requires BucketValid(s.bucket) && Apply(s, DeleteTuple(tid, id, now)).1 == Done
    ensures var (b, b') := (s.bucket, Apply(s, DeleteTuple(tid, id, now)).0.bucket);
            && Apply(s, DeleteTuple(tid, id, now)).0.tenant == s.tenant
            && (forall t :: t in b'.tuples <==> t in b.tuples && t.id != id)
            && (exists i :: 0 <= i < |b.tuples| && b.tuples[i].id == id && b'.tuples == b.tuples[..i] + b.tuples[i + 1..]
                    && |b'.changelog| == |b.changelog| + 1 && b.changelog <= b'.changelog
                    && Logs(b'.changelog[|b.changelog|], |b.changelog| + 1, OpDelete, b.tuples[i], tid, now))
            && b'.objAttrs == b.objAttrs && b'.subAttrs == b.subAttrs
  {
    var b, i := s.bucket, FindId(s.bucket.tuples, id);
    DeleteFinds(b, tid, id, now);
    assert Apply(s, DeleteTuple(tid, id, now)).0.bucket == Removed(b, tid, i, now);
    forall t
      ensures t in Cut(b.tuples, i) <==> t in b.tuples && t.id != id
    {
      CutMembers(b.tuples, i, t);
      if t in b.tuples && Key(t) == Key(b.tuples[i]) {
        SameKeySameTuple(b.tuples, t, b.tuples[i]);
      }
    }
  }

  lemma {:induction false} SameKeySameTuple(ts: seq<Tuple>, t: Tuple, u: Tuple)
    requires DistinctKeys(ts) && t in ts && u in ts && Key(t) == Key(u)
    ensures t == u
  {
    var i :| 0 <= i < |ts| && ts[i] == t;
    var j :| 0 <= j < |ts| && ts[j] == u;
  }

  /** After a successful delete the identity is visible at no time, and every other identity as before. */
  lemma {:induction false} DeleteHides(s: Slot, tid: string, id: Identity, now: Time, when: Time)
    requires BucketValid(s.bucket) && Apply(s, DeleteTuple(tid, id, now)).1 == Done
    ensures var ts' := Apply(s, DeleteTuple(tid, id, now)).0.bucket.tuples;
            id !in LiveIds(ts', when) && forall x :: x != id ==> (x in LiveIds(ts', when) <==> x in LiveIds(s.bucket.tuples, when))
  {
    DeleteEffect(s, tid, id, now);
  }

  ghost predicate NotStored(s: Slot, id: Identity) {
    forall t :: t in s.bucket.tuples ==> t.id != id
  }

  lemma {:induction false} StepKeepsAway(s: Slot, step: Step, id: Identity)
    requires BucketValid(s.bucket) && NotStored(s, id)
    requires step.WriteTuples? ==> forall t :: t in step.batch ==> t.id != id
    ensures NotStored(Apply(s, step).0, id)
  {
    if step.WriteTuples? && Apply(s, step).1 == Done {
      WriteEffect(s, step.tid, step.batch, step.now);
      assert BatchStored(s.bucket.tuples, Apply(s, step).0.bucket.tuples, step.tid, step.batch, step.now);
    } else if step.DeleteTuple? && Apply(s, step).1 == Done {
      DeleteEffect(s, step.tid, step.identity, step.now);
    }
  }

  /** ... and stays invisible until a write grants it again, whatever else happens. */
  lemma {:induction false} HiddenUntilGranted(s: Slot, run: seq<Step>, tid: string, id: Identity, when: Time)
    requires BucketValid(s.bucket) && NotStored(s, id)
    requires forall step :: step in run && step.tid == tid && step.WriteTuples? ==> forall t :: t in step.batch ==> t.id != id
    ensures BucketValid(Later(s, run, tid).bucket) && NotStored(Later(s, run, tid), id)
    ensures id !in LiveIds(Later(s, run, tid).bucket.tuples, when)
  {
    if run != [] {
      var init, last := run[..|run| - 1], run[|run| - 1];
      HiddenUntilGranted(s, init, tid, id, when);
      if last.tid == tid {
        ApplyKeepsValid(Later(s, init, tid), last);
        StepKeepsAway(Later(s, init, tid), last, id);
      }
    }
  }

  /** An external entry is appended as given, under the tenant, with the next number and a time if it has none. */
  lemma {:induction false} AppendEffect(s: Slot, tid: string, entry: Entry, now: Time)
    requires BucketValid(s.bucket) && Apply(s, AppendChangelog(tid, entry, now)).1 == Done
    ensures var (b, b') := (s.bucket, Apply(s, AppendChangelog(tid, entry, now)).0.bucket);
            && |b'.changelog| == |b.changelog| + 1 && b.changelog <= b'.changelog
            && (var e := b'.changelog[|b.changelog|];
                && e.op == entry.op && e.tuple == entry.tuple && e.source == entry.source
                && e.tenantId == tid && e.sequence == |b.changelog| + 1
                && e.timestamp == if entry.timestamp == ZERO_TIME then now else entry.timestamp)
            && b'.tuples == b.tuples && b'.objAttrs == b.objAttrs && b'.subAttrs == b.subAttrs
  {
  }
}
