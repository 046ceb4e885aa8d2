/** Whole checks on the engine: what they answer, when they fail, and what decides them. */
module Answers {
  import opened Wrappers
  import opened Tuples
  import opened Keys
  import opened Tenants
  import opened StoreSpec
  import opened Runs
  import opened Schemas
  import opened Registries
  import opened WalkSpec
  import opened Rules
  import opened Reach
  import opened Limits
  import opened Checks
  import opened Changes
  import opened Attributes
  import opened Service
  import opened Engine
  import Bracket
  import Compiler
  import Effects
  import Isolation

  predicate Readable(tc: TenantContext) {
    tc.tenant.status == Active || tc.tenant.status == Suspended
  }

  /**
   On an active and on a suspended tenant a check is decided by the schema last loaded for it, its walk and
   the condition of the root permission.
   */
  lemma {:induction false} ReadableCheckDecides(eng: Engine, loads: seq<Load>, tc: TenantContext, cs: Schema, req: Request)
    requires eng.Loads() == Loaded(loads) && LastServing(loads, tc) == Some(cs) && Readable(tc)
    ensures eng.CheckOutcome(Some(tc), req) == Decide(eng.EnvFor(cs), req).out
  {
    LastLoadDecides(loads, tc);
    ServedMode(loads, tc);
    assert eng.EnvFor(Schema(map[])).(schema := cs) == eng.EnvFor(cs);
  }

  lemma {:induction false} ServedMode(loads: seq<Load>, tc: TenantContext)
    ensures LastServing(loads, tc).Some? ==> !tc.tenant.mode.OtherMode?
  {
    if loads != [] {
      ServedMode(loads[..|loads| - 1], tc);
    }
  }

  // The faults of the gate, none of which a walk can raise.
  predicate GateFault(f: Fault) {
    f.UnknownPermission? || f.NoTenantContext? || f.TenantGone? || f.TenantNotReadable? || f.NoSchema? || f.UnknownSchemaMode?
  }

  lemma {:induction false} DecideFaults(e: Env, req: Request)
    ensures Decide(e, req).out == Fail(UnknownPermission) <==> e.schema.Def(req.Node()).None?
    ensures Decide(e, req).out.Fail? && GateFault(Decide(e, req).out.fault) ==> e.schema.Def(req.Node()).None?
    ensures e.schema.Def(req.Node()).None? ==> Decide(e, req).out == Fail(UnknownPermission)
  {
    if e.schema.Def(req.Node()).Some? {
      CheckExplained(e, req);
    }
  }

  /** Each fault of the gate occurs exactly in its case. */
  lemma {:induction false} GateFaults(eng: Engine, loads: seq<Load>, ctx: Option<TenantContext>, req: Request)
    requires eng.Loads() == Loaded(loads)
    ensures var out := eng.CheckOutcome(ctx, req);
            && (out == Fail(NoTenantContext) <==> ctx.None?)
            && (out == Fail(TenantGone) <==> ctx.Some? && ctx.value.tenant.status == Deleted)
            && (out == Fail(TenantNotReadable) <==> ctx.Some? && ctx.value.tenant.status == Pending)
            && (out == Fail(UnknownSchemaMode) <==> ctx.Some? && Readable(ctx.value) && ctx.value.tenant.mode.OtherMode?)
            && (out == Fail(NoSchema) <==>
                  ctx.Some? && Readable(ctx.value) && !ctx.value.tenant.mode.OtherMode? && LastServing(loads, ctx.value).None?)
            && (out == Fail(UnknownPermission) <==>
                  ctx.Some? && Readable(ctx.value) && LastServing(loads, ctx.value).Some? && LastServing(loads, ctx.value).value.Def(req.Node()).None?)
  {
    if ctx.Some? {
      LastLoadDecides(loads, ctx.value);
      ServedMode(loads, ctx.value);
      if Readable(ctx.value) && LastServing(loads, ctx.value).Some? {
        var cs := LastServing(loads, ctx.value).value;
        ReadableCheckDecides(eng, loads, ctx.value, cs, req);
        DecideFaults(eng.EnvFor(cs), req);
      }
    }
  }

  // What the condition of the root permission yields on these attributes; no condition allows.
  function RootVerdict(eng: Engine, pd: PermissionDef, objAttrs: Attrs, subAttrs: Attrs, context: Attrs): CondOutcome {
    match pd.condition
    case None => CondAllow
    case Some(text) => eng.holds(text, objAttrs, subAttrs, context)
  }

  /**
   After the walk: a deny or an error of the walk stands, and an allow becomes what the root condition says of
   the object's attributes, read first, the subject's, read next, and the context of the request.
   */
  lemma {:induction false} RootConditionDecides(eng: Engine, cs: Schema, req: Request)
    requires cs.Def(req.Node()).Some?
    ensures var e := eng.EnvFor(cs);
            var w := RootWalk(e, req);
            var verdict := RootVerdict(eng, cs.Def(req.Node()).value, ObjectAttrs(eng.feed.views(w.trail.calls), req.objType, req.objId),
                                       SubjectAttrs(eng.feed.views(w.trail.calls + 1), req.subType, req.subId), req.context);
            Decide(e, req).out == if !w.out.Allows() then w.out
                                  else match verdict case CondAllow => w.out case CondDeny => DENY case CondError => Fail(ConditionFault)
  {
  }

  /**
   Exactness of whole checks on a steady store: for an active or suspended tenant, an answer allows if and
   only if the schema loaded for it grants the request and the root condition allows.
   */
  lemma {:induction false} WholeCheckExact(eng: Engine, loads: seq<Load>, tc: TenantContext, cs: Schema, req: Request, nodes: iset<Node>)
    requires eng.Loads() == Loaded(loads) && LastServing(loads, tc) == Some(cs) && Readable(tc)
    requires var e := eng.EnvFor(cs); Steady(e) && Encloses(e, req, nodes) && Tame(e, FactsOf(e), req, nodes)
    requires eng.CheckOutcome(Some(tc), req).Answer?
    ensures var e := eng.EnvFor(cs);
            eng.CheckOutcome(Some(tc), req).allowed <==>
              && Granted(cs, FactsOf(e), req)
              && RootVerdict(eng, cs.Def(req.Node()).value, ObjectAttrs(e.views(0), req.objType, req.objId),
                             SubjectAttrs(e.views(0), req.subType, req.subId), req.context) == CondAllow
  {
    var e := eng.EnvFor(cs);
    ReadableCheckDecides(eng, loads, tc, cs, req);
    CheckExact(e, req, nodes);
    var c := RootWalk(e, req).trail.calls;
    assert e.views(c) == e.views(0) && e.views(c + 1) == e.views(0);
  }

  // What the log and the steps of a run say is in force for a tenant: the tuples whose identity the last entry
  // for their key inserted, unexpired, and conditions on the attributes last set.
  ghost function LoggedFacts(eng: Engine, run: seq<Step>, tid: string, now: Time): Facts {
    Facts(iset id | LoggedAs(Get(After(run), tid).bucket.changelog, id, now),
          (text: string, r: Request) => eng.holds(text, LastObjectAttrs(run, tid, r.objType, r.objId),
                                 LastSubjectAttrs(run, tid, r.subType, r.subId), r.context) == CondAllow)
  }

  lemma {:induction false} FactsAreLogged(eng: Engine, cs: Schema, run: seq<Step>, tid: string, now: Time)
    requires At(eng.EnvFor(cs), Get(After(run), tid), now) && CheckReadable(Get(After(run), tid).tenant).None?
    requires forall step :: step in run && step.tid == tid ==> !step.AppendChangelog?
    ensures SameFacts(FactsOf(eng.EnvFor(cs)), LoggedFacts(eng, run, tid, now))
  {
    var e, s := eng.EnvFor(cs), Get(After(run), tid);
    ReachableReplays(run, tid);
    forall id
      ensures id in FactsOf(e).tuples <==> id in LoggedFacts(eng, run, tid, now).tuples
    {
      VisibleExactly(s.bucket, id, now);
    }
    forall text, r: Request
      ensures FactsOf(e).cond(text, r) == LoggedFacts(eng, run, tid, now).cond(text, r)
    {
      AttrsFollowRun(run, tid, r.objType, r.objId, now);
      AttrsFollowRun(run, tid, r.subType, r.subId, now);
      assert e.views(0) == ViewOf(s, now) && e.views(0 + 1) == ViewOf(s, now);
    }
  }

  /** Facts that agree grant the same. */
  lemma {:induction false} SameFactsSameGrants(s: Schema, f: Facts, f': Facts, req: Request)
    requires SameFacts(f, f')
    ensures Granted(s, f, req) <==> Granted(s, f', req)
  {
    forall k: nat
      ensures Eval(s, f, f, k, req) == Eval(s, f', f', k, req)
    {
      EvalReordered(s, s, f, f', k, req);
    }
  }

  /**
   End to end: after any run of the store and any loads, an answered check of an active or suspended tenant
   allows exactly when, in an accepted schema that is linear in reach, the request follows by the rules from
   the tuples that the log last inserted, unexpired, and from the attributes last set, and the root condition
   allows on the attributes last set for object and subject.
   */
  lemma {:induction false} CheckDecidedByLog(eng: Engine, loads: seq<Load>, cs: Schema, raw: Compiler.RawSchema, run: seq<Step>, tid: string, now: Time,
                          req: Request, nodes: iset<Node>)
    requires Status(Get(After(run), tid)) == Some(Active) || Status(Get(After(run), tid)) == Some(Suspended)
    requires eng.Loads() == Loaded(loads) && LastServing(loads, TenantContext(tid, Get(After(run), tid).tenant.value)) == Some(cs)
    requires At(eng.EnvFor(cs), Get(After(run), tid), now)
    requires forall step :: step in run && step.tid == tid ==> !step.AppendChangelog?
    requires FromSource(eng.EnvFor(cs), raw) && PlainUsersets(Get(After(run), tid)) && ContextFree(eng.EnvFor(cs), nodes)
    requires cs.Def(req.Node()).Some? && req.Node() in nodes
    requires ClosedUnder(cs, LoggedFacts(eng, run, tid, now), nodes) && LinearFrom(cs, LoggedFacts(eng, run, tid, now), nodes, req)
    requires eng.CheckOutcome(ContextOf(Get(After(run), tid), tid), req).Answer?
    ensures eng.CheckOutcome(ContextOf(Get(After(run), tid), tid), req).allowed <==>
              && Granted(cs, LoggedFacts(eng, run, tid, now), req)
              && RootVerdict(eng, cs.Def(req.Node()).value, LastObjectAttrs(run, tid, req.objType, req.objId),
                             LastSubjectAttrs(run, tid, req.subType, req.subId), req.context) == CondAllow
  {
    var e, s := eng.EnvFor(cs), Get(After(run), tid);
    var f := LoggedFacts(eng, run, tid, now);
    KeysApart(e, raw, s, now);
    FactsAreLogged(eng, cs, run, tid, now);
    FewerTuplesLinear(cs, FactsOf(e), f, nodes, req);
    ClosedEncloses(e, req, nodes);
    WholeCheckExact(eng, loads, TenantContext(tid, s.tenant.value), cs, req, nodes);
    SameFactsSameGrants(cs, FactsOf(e), f, req);
    AttrsFollowRun(run, tid, req.objType, req.objId, now);
    AttrsFollowRun(run, tid, req.subType, req.subId, now);
  }

  // What a condition yields on the attributes as they are after n and after m steps.
  ghost function HoldsAfter(eng: Engine, run: seq<Step>, tid: string, n: nat, m: nat, text: string, r: Request): CondOutcome
    requires n <= |run| && m <= |run|
  {
    eng.holds(text, ObjectAttrsAfter(run, tid, n, r.objType, r.objId), SubjectAttrsAfter(run, tid, m, r.subType, r.subId), r.context)
  }

  lemma {:induction false} CondAfterSteps(eng: Engine, cs: Schema, run: seq<Step>, tid: string, at: nat -> nat, clock: nat -> Time, c: nat, text: string, r: Request)
    requires Isolation.Watches(eng.feed.views, run, tid, at, clock)
    ensures at(c) <= |run| && at(c + 1) <= |run|
    ensures CondAt(eng.EnvFor(cs), c, text, r) == HoldsAfter(eng, run, tid, at(c), at(c + 1), text, r)
  {
    AttrsAfterSteps(run, tid, at(c), r.objType, r.objId, clock(c));
    AttrsAfterSteps(run, tid, at(c + 1), r.subType, r.subId, clock(c + 1));
  }

  /** The tuples that bracket an overlapping check, in terms of the log. */
  lemma {:induction false} BracketTuplesLogged(eng: Engine, cs: Schema, run: seq<Step>, tid: string, at: nat -> nat, clock: nat -> Time, req: Request, id: Identity)
    requires Isolation.Watches(eng.feed.views, run, tid, at, clock) && cs.Def(req.Node()).Some?
    requires forall step :: step in run && step.tid == tid ==> !step.AppendChangelog?
    ensures forall c: nat :: at(c) <= |run|
    ensures var e := eng.EnvFor(cs); var n := RootWalk(e, req).trail.calls;
            && (id in Upper(e, req).tuples <==> exists c: nat :: c < n && LoggedAfter(run, tid, at(c), id, clock(c)))
            && (id in Lower(e, req).tuples <==> forall c: nat :: c < n ==> LoggedAfter(run, tid, at(c), id, clock(c)))
  {
    var e := eng.EnvFor(cs);
    SeenMeansLogged(e, run, tid, at, clock, id);
    assert id in Upper(e, req).tuples <==> SeenSometime(e, RootWalk(e, req).trail.calls, id);
    assert id in Lower(e, req).tuples <==> SeenAlways(e, RootWalk(e, req).trail.calls, id);
  }

  // The condition allows on the attributes as they are at calls c and c + 1.
  ghost predicate HeldAt(eng: Engine, run: seq<Step>, tid: string, at: nat -> nat, c: nat, text: string, r: Request) {
    at(c) <= |run| && at(c + 1) <= |run| && HoldsAfter(eng, run, tid, at(c), at(c + 1), text, r) == CondAllow
  }

  /** ... and its conditions, in terms of the attributes set. */
  lemma {:induction false} BracketConditionsSet(eng: Engine, cs: Schema, run: seq<Step>, tid: string, at: nat -> nat, clock: nat -> Time, req: Request,
                             text: string, r: Request)
    requires Isolation.Watches(eng.feed.views, run, tid, at, clock) && cs.Def(req.Node()).Some?
    ensures var e := eng.EnvFor(cs); var n := RootWalk(e, req).trail.calls;
            && (Upper(e, req).cond(text, r) <==> exists c: nat :: c + 1 < n && HeldAt(eng, run, tid, at, c, text, r))
            && (Lower(e, req).cond(text, r) <==> forall c: nat :: c + 1 < n ==> HeldAt(eng, run, tid, at, c, text, r))
  {
    var e := eng.EnvFor(cs);
    forall c: nat
      ensures CondAt(e, c, text, r) == CondAllow <==> HeldAt(eng, run, tid, at, c, text, r)
    {
      CondAfterSteps(eng, cs, run, tid, at, clock, c, text, r);
    }
    BoundsOfConditions(e, req, text, r);
  }

  lemma {:induction false} BoundsOfConditions(e: Env, req: Request, text: string, r: Request)
    requires e.schema.Def(req.Node()).Some?
    ensures var n := RootWalk(e, req).trail.calls;
            && (Upper(e, req).cond(text, r) <==> exists c: nat :: c + 1 < n && CondAt(e, c, text, r) == CondAllow)
            && (Lower(e, req).cond(text, r) <==> forall c: nat :: c + 1 < n ==> CondAt(e, c, text, r) == CondAllow)
  {
  }

  // The gate of an overlapping check, read at the two calls after its walk.
  ghost predicate GateAfter(eng: Engine, cs: Schema, run: seq<Step>, tid: string, at: nat -> nat, req: Request)
    requires cs.Def(req.Node()).Some? && forall c: nat :: at(c) <= |run|
  {
    var c := RootWalk(eng.EnvFor(cs), req).trail.calls;
    RootVerdict(eng, cs.Def(req.Node()).value, ObjectAttrsAfter(run, tid, at(c), req.objType, req.objId),
                SubjectAttrsAfter(run, tid, at(c + 1), req.subType, req.subId), req.context) == CondAllow
  }

  /**
   A whole check that overlaps a run of the store, its context loaded after `start` steps of an active or
   suspended tenant: an allow passes the gate and is derivable from what the log had last inserted, unexpired,
   at the moment of some call, and after a deny that passes the gate nothing derives the request from what
   the log held so at the moment of every call.
   */
  lemma {:induction false} OverlappingCheckBracketedByLog(eng: Engine, loads: seq<Load>, cs: Schema, raw: Compiler.RawSchema, run: seq<Step>, tid: string,
                                       start: nat, at: nat -> nat, clock: nat -> Time, req: Request, nodes: iset<Node>)
    requires start <= |run| && Get(After(run[..start]), tid).tenant.Some?
    requires Readable(TenantContext(tid, Get(After(run[..start]), tid).tenant.value))
    requires eng.Loads() == Loaded(loads) && LastServing(loads, TenantContext(tid, Get(After(run[..start]), tid).tenant.value)) == Some(cs)
    requires Isolation.Watches(eng.feed.views, run, tid, at, clock)
    requires forall step :: step in run && step.tid == tid ==> !step.AppendChangelog?
    requires FromSource(eng.EnvFor(cs), raw) && forall c: nat :: at(c) <= |run| && PlainUsersets(Get(After(run[..at(c)]), tid))
    requires var e := eng.EnvFor(cs); Encloses(e, req, nodes) && LinearFrom(cs, Upper(e, req), nodes, req) && ContextFree(e, nodes)
    ensures var (e, out) := (eng.EnvFor(cs), eng.CheckOutcome(ContextOf(Get(After(run[..start]), tid), tid), req));
            && (out.Allows() ==> GateAfter(eng, cs, run, tid, at, req) && exists k: nat :: Eval(cs, Upper(e, req), Lower(e, req), k, req))
            && (out.Denies() ==> !GateAfter(eng, cs, run, tid, at, req) || forall k: nat :: !Eval(cs, Lower(e, req), Upper(e, req), k, req))
  {
    var e := eng.EnvFor(cs);
    ReadableCheckDecides(eng, loads, TenantContext(tid, Get(After(run[..start]), tid).tenant.value), cs, req);
    UpperApart(e, raw, run, tid, at, clock, req);
    ConcurrentCheckBracketed(e, req, nodes);
    GateIsAfter(eng, cs, run, tid, at, clock, req);
  }

  lemma {:induction false} GateIsAfter(eng: Engine, cs: Schema, run: seq<Step>, tid: string, at: nat -> nat, clock: nat -> Time, req: Request)
    requires Isolation.Watches(eng.feed.views, run, tid, at, clock) && cs.Def(req.Node()).Some? && forall c: nat :: at(c) <= |run|
    ensures Gate(eng.EnvFor(cs), req) <==> GateAfter(eng, cs, run, tid, at, req)
  {
    var c := RootWalk(eng.EnvFor(cs), req).trail.calls;
    if cs.Def(req.Node()).value.condition.Some? {
      CondAfterSteps(eng, cs, run, tid, at, clock, c, cs.Def(req.Node()).value.condition.value, req);
    }
  }

  /** Once a delete of the tenant has succeeded, every check whose context is loaded later ends in the deleted error, whatever happens in between. */
  lemma {:induction false} DeletedNeverAllows(eng: Engine, run: seq<Step>, i: nat, n: nat, tid: string, now: Time, req: Request)
    requires i < n <= |run| && run[i] == DeleteTenant(tid, now) && ReplyAt(run, i) == Done
    ensures eng.CheckOutcome(ContextOf(Get(After(run[..n]), tid), tid), req) == Fail(TenantGone)
  {
    Effects.DeleteTenantEffect(Get(After(run[..i]), tid), tid, now);
    AfterStep(run, i, tid);
    assert run[..n] == run[..i + 1] + run[i + 1..n];
    AfterContinues(run[..i + 1], run[i + 1..n], tid);
    DeletedIsAbsorbing(Get(After(run[..i + 1]), tid), run[i + 1..n], tid);
  }

  /** A check of a tenant that was never activated never allows. */
  lemma {:induction false} NeverActivatedNeverAllows(eng: Engine, run: seq<Step>, tid: string, req: Request)
    requires forall step :: step in run && step.tid == tid ==> !step.Activate?
    ensures !eng.CheckOutcome(ContextOf(Get(After(run), tid), tid), req).Allows()
    ensures var st := Status(Get(After(run), tid)); st == None || st == Some(Pending) || st == Some(Deleted)
  {
    if run != [] {
      var init, last := run[..|run| - 1], run[|run| - 1];
      NeverActivatedNeverAllows(eng, init, tid, req);
      StepFollowsLifecycle(Get(After(init), last.tid), last);
      if last.tid == tid {
        OnlyActivateActivates(Get(After(init), tid), last);
      }
    }
  }

  lemma {:induction false} OnlyActivateActivates(s: Slot, step: Step)
    requires !step.Activate? && Status(s) != Some(Active)
    ensures Status(Apply(s, step).0) != Some(Active)
  {
  }
}
