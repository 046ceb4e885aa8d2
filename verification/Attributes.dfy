/** Which attributes a condition sees after a run of the store. */
module Attributes {
  import opened Wrappers
  import opened Tuples
  import opened Keys
  import opened Tenants
  import opened StoreSpec
  import opened Runs

  // The attributes of the last accepted SetObjectAttributes step for the object since the last purge.
  ghost function LastObjectAttrs(run: seq<Step>, tid: string, typ: string, id: string): Attrs {
    if run == [] then map[]
    else
      var init, last := run[..|run| - 1], run[|run| - 1];
      if last.tid == tid && last.PurgeTenantData? then map[]
      else if last.tid == tid && last.SetObjectAttributes? && last.typ + ":" + last.id == typ + ":" + id
              && Apply(Get(After(init), tid), last).1 == Done then last.attrs
      else LastObjectAttrs(init, tid, typ, id)
  }

  ghost function LastSubjectAttrs(run: seq<Step>, tid: string, typ: string, id: string): Attrs {
    if run == [] then map[]
    else
      var init, last := run[..|run| - 1], run[|run| - 1];
      if last.tid == tid && last.PurgeTenantData? then map[]
      else if last.tid == tid && last.SetSubjectAttributes? && last.typ + ":" + last.id == typ + ":" + id
              && Apply(Get(After(init), tid), last).1 == Done then last.attrs
      else LastSubjectAttrs(init, tid, typ, id)
  }

  /** For types without ':' only steps for this very object or subject count. */
  lemma {:induction false} AttributeKeyInjective(typ: string, id: string, typ': string, id': string)
    requires ':' !in typ && ':' !in typ' && typ + ":" + id == typ' + ":" + id'
    ensures typ == typ' && id == id'
  {
    FirstSplit(typ, id, ':', typ', id');
  }

  function Entries(m: map<string, Attrs>, key: string): Attrs {
    if key in m then m[key] else map[]
  }

  lemma {:induction false} StoredAttrs(run: seq<Step>, tid: string, typ: string, id: string)
    ensures Entries(Get(After(run), tid).bucket.objAttrs, typ + ":" + id) == LastObjectAttrs(run, tid, typ, id)
    ensures Entries(Get(After(run), tid).bucket.subAttrs, typ + ":" + id) == LastSubjectAttrs(run, tid, typ, id)
  {
    if run != [] {
      var init, last := run[..|run| - 1], run[|run| - 1];
      StoredAttrs(init, tid, typ, id);
      if last.tid == tid {
        StepAttrs(Get(After(init), tid), last, typ + ":" + id);
      }
    }
  }

  // One step changes the attributes under a key only by setting them or by purging.
  lemma {:induction false} StepAttrs(s: Slot, step: Step, key: string)
    ensures Entries(Apply(s, step).0.bucket.objAttrs, key) ==
            if step.PurgeTenantData? then map[]
            else if step.SetObjectAttributes? && step.typ + ":" + step.id == key && Apply(s, step).1 == Done then step.attrs
            else Entries(s.bucket.objAttrs, key)
    ensures Entries(Apply(s, step).0.bucket.subAttrs, key) ==
            if step.PurgeTenantData? then map[]
            else if step.SetSubjectAttributes? && step.typ + ":" + step.id == key && Apply(s, step).1 == Done then step.attrs
            else Entries(s.bucket.subAttrs, key)
  {
  }

  /** After a run a condition sees, for an object and for a subject, what was last set for them since the last purge. */
  lemma {:induction false} AttrsFollowRun(run: seq<Step>, tid: string, typ: string, id: string, now: Time)
    requires CheckReadable(Get(After(run), tid).tenant).None?
    ensures ObjectAttrs(ViewOf(Get(After(run), tid), now), typ, id) == LastObjectAttrs(run, tid, typ, id)
    ensures SubjectAttrs(ViewOf(Get(After(run), tid), now), typ, id) == LastSubjectAttrs(run, tid, typ, id)
  {
    StoredAttrs(run, tid, typ, id);
  }

  // What a condition sees after n steps: nothing of a tenant that cannot be read.
  ghost function ObjectAttrsAfter(run: seq<Step>, tid: string, n: nat, typ: string, id: string): Attrs
    requires n <= |run|
  {
    if CheckReadable(Get(After(run[..n]), tid).tenant).Some? then map[] else LastObjectAttrs(run[..n], tid, typ, id)
  }

  ghost function SubjectAttrsAfter(run: seq<Step>, tid: string, n: nat, typ: string, id: string): Attrs
    requires n <= |run|
  {
    if CheckReadable(Get(After(run[..n]), tid).tenant).Some? then map[] else LastSubjectAttrs(run[..n], tid, typ, id)
  }

  lemma {:induction false} AttrsAfterSteps(run: seq<Step>, tid: string, n: nat, typ: string, id: string, now: Time)
    requires n <= |run|
    ensures ObjectAttrs(ViewOf(Get(After(run[..n]), tid), now), typ, id) == ObjectAttrsAfter(run, tid, n, typ, id)
    ensures SubjectAttrs(ViewOf(Get(After(run[..n]), tid), now), typ, id) == SubjectAttrsAfter(run, tid, n, typ, id)
  {
    if CheckReadable(Get(After(run[..n]), tid).tenant).None? {
      AttrsFollowRun(run[..n], tid, typ, id, now);
    }
  }
}
