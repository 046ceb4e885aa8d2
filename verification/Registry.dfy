/** Which schema a check uses, and the whole of a check around the walk (pkg/engine/engine.go). */
module Registries {
  import opened Wrappers
  import opened Tenants
  import opened Schemas
  import opened WalkSpec

  // The schemas loaded so far, by tenant and by shared reference.
  datatype Registry = Registry(schemas: map<string, Schema>, shared: map<string, Schema>) {
    function SchemaFor(tc: TenantContext): Result<Schema, Fault> {
      match tc.tenant.mode
      case Own => if tc.tenantId in schemas then Ok(schemas[tc.tenantId]) else Err(NoSchema)
      case Inherited => if tc.tenantId in schemas then Ok(schemas[tc.tenantId]) else Err(NoSchema)
      case Shared => if tc.tenant.sharedRef in shared then Ok(shared[tc.tenant.sharedRef]) else Err(NoSchema)
      case OtherMode(_) => Err(UnknownSchemaMode)
    }

    function With(load: Load): Registry {
      match load
      case ForTenant(tid, cs) => this.(schemas := schemas[tid := cs])
      case ForRef(ref, cs) => this.(shared := shared[ref := cs])
    }
  }

  datatype Load = ForTenant(tid: string, cs: Schema) | ForRef(ref: string, cs: Schema) {
    // Whether a check in this context looks where the load puts its schema.
    predicate Serves(tc: TenantContext) {
      match this
      case ForTenant(tid, _) => tc.tenantId == tid && tc.tenant.mode in {Own, Inherited}
      case ForRef(ref, _) => tc.tenant.mode == Shared && tc.tenant.sharedRef == ref
    }
  }

  function Loaded(loads: seq<Load>): Registry {
    if loads == [] then Registry(map[], map[]) else Loaded(loads[..|loads| - 1]).With(loads[|loads| - 1])
  }

  // The schema of the last load that serves the context.
  function LastServing(loads: seq<Load>, tc: TenantContext): Option<Schema> {
    if loads == [] then None
    else if loads[|loads| - 1].Serves(tc) then Some(loads[|loads| - 1].cs)
    else LastServing(loads[..|loads| - 1], tc)
  }

  /** A check uses the schema of the last load that serves its context, and there is no schema exactly when no load does. */
  lemma {:induction false} LastLoadDecides(loads: seq<Load>, tc: TenantContext)
    ensures tc.tenant.mode.OtherMode? ==> Loaded(loads).SchemaFor(tc) == Err(UnknownSchemaMode)
    ensures !tc.tenant.mode.OtherMode? ==>
              Loaded(loads).SchemaFor(tc) == match LastServing(loads, tc) case Some(cs) => Ok(cs) case None => Err(NoSchema)
  {
    if loads != [] {
      LastLoadDecides(loads[..|loads| - 1], tc);
    }
  }

  // The loads without those made for other tenants. Shared schemas belong to no tenant.
  function LoadsOf(loads: seq<Load>, tid: string): seq<Load> {
    if loads == [] then []
    else
      var init, last := LoadsOf(loads[..|loads| - 1], tid), loads[|loads| - 1];
      if last.ForTenant? && last.tid != tid then init else init + [last]
  }

  lemma {:induction false} LoadedLast(loads: seq<Load>, load: Load)
    ensures Loaded(loads + [load]) == Loaded(loads).With(load)
  {
    assert (loads + [load])[..|loads|] == loads;
  }

  lemma {:induction false} SameLoad(r: Registry, r': Registry, load: Load, tc: TenantContext)
    requires r.SchemaFor(tc) == r'.SchemaFor(tc)
    ensures r.With(load).SchemaFor(tc) == r'.With(load).SchemaFor(tc)
  {
  }

  lemma {:induction false} LoadForAnother(r: Registry, load: Load, tc: TenantContext)
    requires load.ForTenant? && load.tid != tc.tenantId
    ensures r.With(load).SchemaFor(tc) == r.SchemaFor(tc)
  {
  }

  /** The schemas loaded for other tenants do not change which schema a tenant's check uses. */
  lemma {:induction false} LoadsDoNotInterfere(loads: seq<Load>, tc: TenantContext)
    ensures Loaded(LoadsOf(loads, tc.tenantId)).SchemaFor(tc) == Loaded(loads).SchemaFor(tc)
  {
    if loads != [] {
      var init, last := loads[..|loads| - 1], loads[|loads| - 1];
      LoadsDoNotInterfere(init, tc);
      if last.ForTenant? && last.tid != tc.tenantId {
        LoadForAnother(Loaded(init), last, tc);
      } else {
        LoadedLast(LoadsOf(init, tc.tenantId), last);
        SameLoad(Loaded(LoadsOf(init, tc.tenantId)), Loaded(init), last, tc);
      }
    }
  }

  // A whole check: the tenant gate, the schema, then the decision. The environment's own schema plays no part.
  function WholeCheck(r: Registry, e: Env, ctx: Option<TenantContext>, req: Request): Outcome {
    match ctx
    case None => Fail(NoTenantContext)
    case Some(tc) =>
      if tc.tenant.status == Deleted then Fail(TenantGone)
      else if !tc.tenant.IsReadable() then Fail(TenantNotReadable)
      else
        match r.SchemaFor(tc)
        case Err(x) => Fail(x)
        case Ok(cs) => Decide(e.(schema := cs), req).out
  }
}
