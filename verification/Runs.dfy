/**
 The store as a state machine: every operation is one step (the source holds one lock for each
 method body), and a run is a sequence of steps, each with its own clock reading.
 */
module Runs {
  import opened Wrappers
  import opened Tuples
  import opened Keys
  import opened Tenants
  import opened StoreSpec

  // One tenant: its record, if created, and its data.
  datatype Slot = Slot(tenant: Option<Tenant>, bucket: Bucket)

  const NO_TENANT := Slot(None, EMPTY_BUCKET)

  datatype Step =
    | Create(tid: string, displayName: string, mode: SchemaMode, now: Time)
    | Activate(tid: string, now: Time)
    | Suspend(tid: string, now: Time)
    | DeleteTenant(tid: string, now: Time)
    | WriteTuples(tid: string, batch: seq<Tuple>, now: Time)
    | DeleteTuple(tid: string, identity: Identity, now: Time)
    | AppendChangelog(tid: string, entry: Entry, now: Time)
    | PurgeTenantData(tid: string)
    | SetObjectAttributes(tid: string, typ: string, id: string, attrs: Attrs)
    | SetSubjectAttributes(tid: string, typ: string, id: string, attrs: Attrs)
    | CheckDirect(tid: string, identity: Identity, now: Time)
    | ListSubjects(tid: string, typ: string, id: string, relation: string, now: Time)
    | ListRelatedObjects(tid: string, typ: string, id: string, relation: string, now: Time)
    | ReadChangelog(tid: string, since: nat, limit: int)
    | LatestSequence(tid: string)

  datatype Reply =
    | Done
    | Failed(error: StoreError)
    | InvalidTenantId
    | InvalidTransition
    | Found(found: bool)
    | SubjectList(subjects: seq<SubjectRef>)
    | ObjectList(objects: seq<ObjectRef>)
    | EntryList(entries: seq<Entry>)
    | Sequence(sequence: nat)

  predicate IsLowerOrDigit(c: char) {
    'a' <= c <= 'z' || '0' <= c <= '9'
  }

  // ^[a-z0-9][a-z0-9-]{0,126}[a-z0-9]$
  predicate ValidTenantId(id: string) {
    && 2 <= |id| <= 128
    && IsLowerOrDigit(id[0]) && IsLowerOrDigit(id[|id| - 1])
    && forall i :: 0 <= i < |id| ==> IsLowerOrDigit(id[i]) || id[i] == '-'
  }

  function CheckWritable(tenant: Option<Tenant>): Option<StoreError> {
    if tenant.None? then Some(TenantNotFound)
    else
      match tenant.value.status
      case Deleted => Some(TenantDeleted)
      case Suspended => Some(TenantSuspended)
      case Pending => Some(TenantSuspended)
      case Active => None
  }

  function CheckReadable(tenant: Option<Tenant>): Option<StoreError> {
    if tenant.None? then Some(TenantNotFound)
    else if tenant.value.status == Deleted then Some(TenantDeleted)
    else None
  }

  // What the engine sees of a tenant at one moment.
  function ViewOf(s: Slot, now: Time): View {
    View(CheckReadable(s.tenant), LiveIds(s.bucket.tuples, now), s.bucket.objAttrs, s.bucket.subAttrs)
  }

  // The context of a request, loaded from the tenant's record (pkg/tenant/context.go).
  function ContextOf(s: Slot, tid: string): Option<TenantContext> {
    if s.tenant.None? then None else Some(TenantContext(tid, s.tenant.value))
  }

  function NewTenant(tid: string, displayName: string, mode: SchemaMode, now: Time): Tenant {
    Tenant(tid, if displayName == "" then tid else displayName, Pending, mode, "", now, now)
  }

  // A record with a new status, as read, changed and written back.
  function WithStatus(s: Slot, status: TenantStatus, now: Time): Slot
    requires s.tenant.Some?
  {
    s.(tenant := Some(s.tenant.value.(status := status, updatedAt := now)))
  }

  ghost function Apply(s: Slot, step: Step): (Slot, Reply) {
    match step
    case Create(tid, displayName, mode, now) =>
      if !ValidTenantId(tid) then (s, InvalidTenantId)
      else if s.tenant.Some? then (s, Failed(TenantExists))
      else (s.(tenant := Some(NewTenant(tid, displayName, mode, now))), Done)
    case Activate(_, now) =>
      if s.tenant.None? then (s, Failed(TenantNotFound))
      else if s.tenant.value.status == Deleted then (s, Failed(TenantDeleted))
      else (WithStatus(s, Active, now), Done)
    case Suspend(_, now) =>
      if s.tenant.None? then (s, Failed(TenantNotFound))
      else if s.tenant.value.status != Active then (s, InvalidTransition)
      else (WithStatus(s, Suspended, now), Done)
    case DeleteTenant(_, now) =>
      if s.tenant.None? then (s, Failed(TenantNotFound))
      else if s.tenant.value.status == Deleted then (s, Failed(TenantDeleted))
      else (WithStatus(s, Deleted, now), Done)
    case PurgeTenantData(_) => (s.(bucket := EMPTY_BUCKET), Done)
    case _ =>
      if IsWrite(step) then
        if CheckWritable(s.tenant).Some? then (s, Failed(CheckWritable(s.tenant).value)) else ApplyWrite(s, step)
      else
        if CheckReadable(s.tenant).Some? then (s, Failed(CheckReadable(s.tenant).value)) else (s, Answered(s, step))
  }

  predicate IsWrite(step: Step) {
    step.WriteTuples? || step.DeleteTuple? || step.AppendChangelog? || step.SetObjectAttributes? || step.SetSubjectAttributes?
  }

  lemma {:induction false} ReadAnswers(s: Slot, step: Step)
    requires IsRead(step)
    ensures Apply(s, step) == (s, if CheckReadable(s.tenant).Some? then Failed(CheckReadable(s.tenant).value) else Answered(s, step))
  {
  }

  predicate IsRead(step: Step) {
    step.CheckDirect? || step.ListSubjects? || step.ListRelatedObjects? || step.ReadChangelog? || step.LatestSequence?
  }

  ghost function ApplyWrite(s: Slot, step: Step): (Slot, Reply)
    requires IsWrite(step)
  {
    var b := s.bucket;
    match step
    case WriteTuples(tid, batch, now) => Stored(s, WriteBatch(b, tid, batch, now))
    case DeleteTuple(tid, id, now) => Stored(s, DeleteFrom(b, tid, id, now))
    case AppendChangelog(tid, entry, now) => (s.(bucket := AppendEntry(b, tid, entry, now)), Done)
    case SetObjectAttributes(_, typ, id, attrs) => (s.(bucket := b.(objAttrs := b.objAttrs[typ + ":" + id := attrs])), Done)
    case SetSubjectAttributes(_, typ, id, attrs) => (s.(bucket := b.(subAttrs := b.subAttrs[typ + ":" + id := attrs])), Done)
  }

  function Stored(s: Slot, r: Result<Bucket, StoreError>): (Slot, Reply) {
    match r
    case Ok(b) => (s.(bucket := b), Done)
    case Err(x) => (s, Failed(x))
  }

  function Answered(s: Slot, step: Step): Reply {
    match step
    case CheckDirect(_, id, now) => Found(id in LiveIds(s.bucket.tuples, now))
    case ListSubjects(_, typ, id, relation, now) => SubjectList(Subjects(LiveIds(s.bucket.tuples, now), typ, id, relation))
    case ListRelatedObjects(_, typ, id, relation, now) =>
      ObjectList(Targets(Subjects(LiveIds(s.bucket.tuples, now), typ, id, relation)))
    case ReadChangelog(_, since, limit) => EntryList(Page(s.bucket.changelog, since, limit))
    case LatestSequence(_) => Sequence(s.bucket.seqCounter)
    case _ => Done
  }

  // All tenants. A tenant without an entry is one nobody has touched.
  type State = map<string, Slot>

  function Get(st: State, tid: string): Slot {
    if tid in st then st[tid] else NO_TENANT
  }

  ghost function Next(st: State, step: Step): State {
    st[step.tid := Apply(Get(st, step.tid), step).0]
  }

  // The state after a run from an empty store.
  ghost function After(run: seq<Step>): State {
    if run == [] then map[] else Next(After(run[..|run| - 1]), run[|run| - 1])
  }

  lemma {:induction false} AfterStep(run: seq<Step>, i: nat, tid: string)
    requires i < |run|
    ensures Get(After(run[..i + 1]), tid) ==
            if run[i].tid == tid then Apply(Get(After(run[..i]), tid), run[i]).0 else Get(After(run[..i]), tid)
  {
    assert run[..i + 1][..i] == run[..i];
  }

  // The reply to step i of a run.
  ghost function ReplyAt(run: seq<Step>, i: nat): Reply
    requires i < |run|
  {
    Apply(Get(After(run[..i]), run[i].tid), run[i]).1
  }

  // The replies tenant `tid` gets during a run.
  ghost function Replies(run: seq<Step>, tid: string): seq<Reply> {
    if run == [] then []
    else
      var init, last := run[..|run| - 1], run[|run| - 1];
      Replies(init, tid) + (if last.tid == tid then [Apply(Get(After(init), tid), last).1] else [])
  }

  // The run with every step of the other tenants deleted.
  function OnlyOf(run: seq<Step>, tid: string): seq<Step> {
    if run == [] then []
    else OnlyOf(run[..|run| - 1], tid) + (if run[|run| - 1].tid == tid then [run[|run| - 1]] else [])
  }

  /** Deleting all steps of other tenants changes neither a tenant's data nor any reply it sees. */
  lemma {:induction false} TenantsDoNotInterfere(run: seq<Step>, tid: string)
    ensures Get(After(run), tid) == Get(After(OnlyOf(run, tid)), tid)
    ensures Replies(run, tid) == Replies(OnlyOf(run, tid), tid)
  {
    if run != [] {
      var init, last := run[..|run| - 1], run[|run| - 1];
      TenantsDoNotInterfere(init, tid);
      if last.tid == tid {
        var own := OnlyOf(init, tid) + [last];
        assert own[..|own| - 1] == OnlyOf(init, tid) && own[|own| - 1] == last;
      } else {
        assert OnlyOf(init, tid) + [] == OnlyOf(init, tid);
      }
    }
  }

  lemma {:induction false} OnlyOfPrefix(run: seq<Step>, n: nat, tid: string)
    requires n <= |run|
    ensures |OnlyOf(run[..n], tid)| <= |OnlyOf(run, tid)|
    ensures OnlyOf(run, tid)[..|OnlyOf(run[..n], tid)|] == OnlyOf(run[..n], tid)
  {
    if n == |run| {
      assert run[..n] == run;
    } else {
      var init := run[..|run| - 1];
      assert init[..n] == run[..n];
      OnlyOfPrefix(init, n, tid);
    }
  }

  ghost predicate StateValid(st: State) {
    forall tid :: tid in st ==> BucketValid(st[tid].bucket)
  }

  lemma {:induction false} ApplyKeepsValid(s: Slot, step: Step)
    requires BucketValid(s.bucket)
    ensures BucketValid(Apply(s, step).0.bucket)
  {
    if IsWrite(step) {
      ApplyWriteKeepsValid(s, step);
    } else {
      OnlyPurgeEmpties(s, step);
    }
  }

  lemma {:induction false} OnlyPurgeEmpties(s: Slot, step: Step)
    requires !IsWrite(step)
    ensures Apply(s, step).0.bucket == if step.PurgeTenantData? then EMPTY_BUCKET else s.bucket
  {
  }

  lemma {:induction false} ApplyWriteKeepsValid(s: Slot, step: Step)
    requires BucketValid(s.bucket) && IsWrite(step)
    ensures BucketValid(ApplyWrite(s, step).0.bucket)
  {
    match step
    case WriteTuples(tid, batch, now) =>
      if !Clash(s.bucket.tuples, batch, now) {
        WriteKeepsValid(s.bucket, tid, batch, now);
      }
    case DeleteTuple(tid, id, now) =>
      if DeleteFrom(s.bucket, tid, id, now).Ok? {
        DeleteKeepsValid(s.bucket, tid, id, now);
      }
    case AppendChangelog(tid, entry, now) => AppendKeepsValid(s.bucket, tid, entry, now);
    case SetObjectAttributes(_, _, _, _) =>
    case SetSubjectAttributes(_, _, _, _) =>
  }

  /** In every reachable state, keys are distinct and each log is numbered 1, ..., seqCounter, purges and external appends included. */
  lemma {:induction false} ReachableValid(run: seq<Step>)
    ensures StateValid(After(run))
  {
    if run != [] {
      var init, last := run[..|run| - 1], run[|run| - 1];
      ReachableValid(init);
      ApplyKeepsValid(Get(After(init), last.tid), last);
    }
  }

  lemma {:induction false} ApplyReplays(s: Slot, step: Step)
    requires BucketValid(s.bucket) && Replayed(s.bucket) && !step.AppendChangelog?
    ensures Replayed(Apply(s, step).0.bucket)
  {
    match step
    case WriteTuples(tid, batch, now) =>
      if !Clash(s.bucket.tuples, batch, now) {
        WriteReplays(s.bucket, tid, batch, now);
      }
    case DeleteTuple(tid, id, now) =>
      if DeleteFrom(s.bucket, tid, id, now).Ok? {
        DeleteReplays(s.bucket, tid, id, now);
      }
    case _ =>
  }

  /** In every state reachable without external appends to a tenant's log, replaying the log gives exactly the tenant's stored tuples. */
  lemma {:induction false} ReachableReplays(run: seq<Step>, tid: string)
    requires forall step :: step in run && step.tid == tid ==> !step.AppendChangelog?
    ensures Replayed(Get(After(run), tid).bucket)
  {
    if run != [] {
      var init, last := run[..|run| - 1], run[|run| - 1];
      ReachableReplays(init, tid);
      ReachableValid(init);
      if last.tid == tid {
        ApplyReplays(Get(After(init), tid), last);
      }
    }
  }

  /** What CheckDirect answers after a run is decided by the tenant's log and the clock, whatever the fields contain. */
  lemma {:induction false} CheckDirectFromLog(run: seq<Step>, tid: string, id: Identity, now: Time)
    requires forall step :: step in run && step.tid == tid ==> !step.AppendChangelog?
    ensures var s := Get(After(run), tid);
            CheckReadable(s.tenant).None? ==>
              Apply(s, CheckDirect(tid, id, now)).1 == Found(LoggedAs(s.bucket.changelog, id, now))
  {
    ReachableReplays(run, tid);
    VisibleExactly(Get(After(run), tid).bucket, id, now);
  }

  // Whatever is live before a successful write is live after it, at any time not before the write.
  lemma {:induction false} WriteGrows(s: Slot, s': Slot, tid: string, batch: seq<Tuple>, w: Time, now: Time)
    requires BucketValid(s.bucket) && w <= now && Apply(s, WriteTuples(tid, batch, w)) == (s', Done)
    ensures forall id :: id in LiveIds(s.bucket.tuples, now) ==> id in LiveIds(s'.bucket.tuples, now)
  {
    assert s'.bucket == WriteBatch(s.bucket, tid, batch, w).value;
    WriteKeepsLive(s.bucket, tid, batch, w, now);
  }

  lemma {:induction false} DeleteShrinks(s: Slot, s': Slot, tid: string, id: Identity, w: Time, now: Time)
    requires BucketValid(s.bucket) && Apply(s, DeleteTuple(tid, id, w)) == (s', Done)
    ensures forall x :: x in LiveIds(s'.bucket.tuples, now) ==> x in LiveIds(s.bucket.tuples, now)
  {
    assert s'.bucket == DeleteFrom(s.bucket, tid, id, w).value;
    DeleteAddsNoLive(s.bucket, tid, id, w, now);
  }

  function Status(s: Slot): Option<TenantStatus> {
    if s.tenant.None? then None else Some(s.tenant.value.status)
  }

  // The moves of the tenant lifecycle.
  predicate Move(a: Option<TenantStatus>, b: Option<TenantStatus>) {
    || a == b
    || (a == None && b == Some(Pending))
    || (a == Some(Pending) && b == Some(Active))
    || (a == Some(Active) && b == Some(Suspended))
    || (a == Some(Suspended) && b == Some(Active))
    || (a.Some? && b == Some(Deleted))
  }

  /** Each step makes one lifecycle move, and leaves the data of a tenant that is not active alone, purging aside. */
  lemma {:induction false} StepFollowsLifecycle(s: Slot, step: Step)
    ensures Move(Status(s), Status(Apply(s, step).0))
    ensures Status(s) != Some(Active) && !step.PurgeTenantData? ==> Apply(s, step).0.bucket == s.bucket
    ensures IsRead(step) ==> Apply(s, step).0 == s
  {
  }

  // How tenant tid's slot develops over a run from slot s.
  ghost function Later(s: Slot, run: seq<Step>, tid: string): Slot {
    if run == [] then s
    else
      var before := Later(s, run[..|run| - 1], tid);
      if run[|run| - 1].tid == tid then Apply(before, run[|run| - 1]).0 else before
  }

  lemma {:induction false} AfterContinues(run: seq<Step>, more: seq<Step>, tid: string)
    ensures Get(After(run + more), tid) == Later(Get(After(run), tid), more, tid)
  {
    if more == [] {
      assert run + more == run;
    } else {
      assert (run + more)[..|run + more| - 1] == run + more[..|more| - 1];
      AfterContinues(run, more[..|more| - 1], tid);
    }
  }

  /** Deleted is absorbing: no run leaves it, and without a purge the data is retained as it was. */
  lemma {:induction false} DeletedIsAbsorbing(s: Slot, run: seq<Step>, tid: string)
    requires Status(s) == Some(Deleted)
    ensures Status(Later(s, run, tid)) == Some(Deleted)
    ensures (forall step :: step in run && step.tid == tid ==> !step.PurgeTenantData?) ==> Later(s, run, tid).bucket == s.bucket
  {
    if run != [] {
      DeletedIsAbsorbing(s, run[..|run| - 1], tid);
      StepFollowsLifecycle(Later(s, run[..|run| - 1], tid), run[|run| - 1]);
    }
  }

  /** Without an activation in between, a tenant that is not active keeps its data until purged. */
  lemma {:induction false} InactiveDataFrozen(s: Slot, run: seq<Step>, tid: string)
    requires Status(s) != Some(Active)
    requires forall step :: step in run && step.tid == tid ==> !step.PurgeTenantData? && !step.Activate?
    ensures Status(Later(s, run, tid)) != Some(Active) && Later(s, run, tid).bucket == s.bucket
  {
    if run != [] {
      InactiveDataFrozen(s, run[..|run| - 1], tid);
      StepFollowsLifecycle(Later(s, run[..|run| - 1], tid), run[|run| - 1]);
    }
  }

  // Each step other than a purge keeps the log as a prefix.
  lemma {:induction false} StepAppends(s: Slot, step: Step)
    requires !step.PurgeTenantData?
    ensures s.bucket.changelog <= Apply(s, step).0.bucket.changelog
  {
  }

  lemma {:induction false} LogGrows(s: Slot, run: seq<Step>, tid: string)
    requires forall step :: step in run && step.tid == tid ==> !step.PurgeTenantData?
    ensures s.bucket.changelog <= Later(s, run, tid).bucket.changelog
  {
    if run != [] {
      LogGrows(s, run[..|run| - 1], tid);
      if run[|run| - 1].tid == tid {
        StepAppends(Later(s, run[..|run| - 1], tid), run[|run| - 1]);
      }
    }
  }

  lemma {:induction false} LogGrowsBetween(run: seq<Step>, tid: string, i: nat, j: nat)
    requires i <= j <= |run|
    requires forall k :: i <= k < j && run[k].tid == tid ==> !run[k].PurgeTenantData?
    ensures Get(After(run[..i]), tid).bucket.changelog <= Get(After(run[..j]), tid).bucket.changelog
  {
    assert run[..j] == run[..i] + run[i..j];
    AfterContinues(run[..i], run[i..j], tid);
    forall step | step in run[i..j] && step.tid == tid
      ensures !step.PurgeTenantData?
    {
      var k :| i <= k < j && run[k] == step;
    }
    LogGrows(Get(After(run[..i]), tid), run[i..j], tid);
  }
}
