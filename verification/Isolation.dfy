/** Checks that run while the store is being written: what they see, and what they cannot see. */
module Isolation {
  import opened Wrappers
  import opened Tuples
  import opened Tenants
  import opened Runs
  import opened Registries
  import opened WalkSpec
  import opened Limits
  import Engine
  import Schemas

  // Call c of the check is answered from tenant tid after at(c) steps of the run, at clock reading clock(c).
  ghost predicate Watches(views: nat -> View, run: seq<Step>, tid: string, at: nat -> nat, clock: nat -> Time) {
    forall c: nat :: at(c) <= |run| && views(c) == ViewOf(Get(After(run[..at(c)]), tid), clock(c))
  }

  // The place of step n of the run among tenant tid's own steps.
  function OwnPlace(run: seq<Step>, tid: string, n: nat): (place: nat)
    requires n <= |run|
    ensures place <= |OnlyOf(run, tid)|
  {
    OnlyOfPrefix(run, n, tid);
    |OnlyOf(run[..n], tid)|
  }

  lemma {:induction false} SameSlot(run: seq<Step>, tid: string, n: nat)
    requires n <= |run|
    ensures Get(After(OnlyOf(run, tid)[..OwnPlace(run, tid, n)]), tid) == Get(After(run[..n]), tid)
  {
    OnlyOfPrefix(run, n, tid);
    TenantsDoNotInterfere(run[..n], tid);
  }

  lemma {:induction false} DecideSame(e: Env, e': Env, req: Request)
    requires Raised(e, e') && e.maxDepth == e'.maxDepth
    ensures Decide(e, req) == Decide(e', req)
  {
    if e.schema.Def(req.Node()).Some? {
      PermissionLimit(e, e', req, e.schema.Def(req.Node()).value, START, 0);
      assert forall c: nat, text :: CondAt(e, c, text, req) == CondAt(e', c, text, req);
    }
  }

  lemma {:induction false} WholeCheckSame(r: Registry, r': Registry, e: Env, e': Env, ctx: Option<TenantContext>, req: Request)
    requires ctx.Some? ==> r.SchemaFor(ctx.value) == r'.SchemaFor(ctx.value)
    requires e'.maxDepth == e.maxDepth && e'.compiles == e.compiles && e'.holds == e.holds && forall c: nat :: e'.views(c) == e.views(c)
    ensures WholeCheck(r, e, ctx, req) == WholeCheck(r', e', ctx, req)
  {
    if ctx.Some? && r.SchemaFor(ctx.value).Ok? {
      var cs := r.SchemaFor(ctx.value).value;
      DecideSame(e.(schema := cs), e'.(schema := cs), req);
    }
  }

  /**
   Whole checks do not see other tenants. Delete every step of the others from the run and every schema
   loaded for them, and keep the loading of the context and each store call at its place among the
   tenant's own steps: the check answers the same, errors included.
   */
  lemma {:induction false} ChecksDoNotInterfere(eng: Engine.Engine, eng': Engine.Engine, run: seq<Step>, tid: string, start: nat,
                             at: nat -> nat, at': nat -> nat, clock: nat -> Time, loads: seq<Load>, req: Request)
    requires eng'.maxCheckDepth == eng.maxCheckDepth && eng'.compiles == eng.compiles && eng'.holds == eng.holds
    requires eng.Loads() == Loaded(loads) && eng'.Loads() == Loaded(LoadsOf(loads, tid))
    requires Watches(eng.feed.views, run, tid, at, clock) && Watches(eng'.feed.views, OnlyOf(run, tid), tid, at', clock)
    requires forall c: nat :: at(c) <= |run| && at'(c) == OwnPlace(run, tid, at(c))
    requires start <= |run|
    ensures eng.CheckOutcome(ContextOf(Get(After(run[..start]), tid), tid), req)
         == eng'.CheckOutcome(ContextOf(Get(After(OnlyOf(run, tid)[..OwnPlace(run, tid, start)]), tid), tid), req)
  {
    SameSlot(run, tid, start);
    var ctx := ContextOf(Get(After(run[..start]), tid), tid);
    if ctx.Some? {
      LoadsDoNotInterfere(loads, ctx.value);
    }
    forall c: nat
      ensures eng'.feed.views(c) == eng.feed.views(c)
    {
      SameSlot(run, tid, at(c));
    }
    var none := Schemas.Schema(map[]);
    WholeCheckSame(eng.Loads(), eng'.Loads(), eng.EnvFor(none), eng'.EnvFor(none), ctx, req);
  }
}
