/** Checks against the real store: accepted schemas, tenant status, and what each write does to decisions. */
module Service {
  import opened Wrappers
  import opened Tuples
  import opened Keys
  import opened Tenants
  import opened StoreSpec
  import opened Runs
  import opened Schemas
  import opened WalkSpec
  import opened Rules
  import opened Limits
  import opened Checks
  import opened Changes
  import Bracket
  import Compiler
  import Isolation

  // The environment of a check whose calls all see one tenant at one moment.
  ghost predicate At(e: Env, s: Slot, now: Time) {
    forall c: nat :: e.views(c) == ViewOf(s, now)
  }

  // The schema came out of Compile and Validate, and no type name contains ':', no permission name '#'.
  ghost predicate FromSource(e: Env, raw: Compiler.RawSchema) {
    && Compiler.Accepted(raw, e.schema, e.compiles)
    && forall typ :: typ in raw.types ==> ':' !in typ && forall p :: p in raw.types[typ].permissions ==> '#' !in p
  }

  // No stored userset has ':' in its type or '#' in its relation.
  ghost predicate PlainUsersets(s: Slot) {
    forall t :: t in s.bucket.tuples && t.id.subRel != "" ==> ':' !in t.id.subType && '#' !in t.id.subRel
  }

  /** On a readable tenant, a check of a known permission in an accepted schema fails only by the depth limit or a condition. */
  lemma {:induction false} AcceptedSchemaProgress(e: Env, raw: Compiler.RawSchema, s: Slot, now: Time, req: Request)
    requires Compiler.Accepted(raw, e.schema, e.compiles) && At(e, s, now) && CheckReadable(s.tenant).None?
    requires e.schema.Def(req.Node()).Some?
    ensures Expected(Decide(e, req).out)
  {
    Compiler.AcceptedWellFormed(raw, e.schema, e.compiles);
    OnlyExpectedFaults(e, req);
  }

  lemma {:induction false} KeysApart(e: Env, raw: Compiler.RawSchema, s: Slot, now: Time)
    requires FromSource(e, raw) && At(e, s, now) && PlainUsersets(s)
    ensures Steady(e) && Bracket.Apart(e.schema, FactsOf(e))
  {
    Compiler.AcceptedWellFormed(raw, e.schema, e.compiles);
    forall id | id in FactsOf(e).tuples && id.subRel != ""
      ensures SafeNode(Node(id.subType, id.subId, id.subRel))
    {
      assert id in LiveIds(s.bucket.tuples, now);
    }
  }

  // After n steps of the run the tenant is readable and the last log entry for the identity's key inserted it, unexpired.
  ghost predicate LoggedAfter(run: seq<Step>, tid: string, n: nat, id: Identity, now: Time)
    requires n <= |run|
  {
    var s := Get(After(run[..n]), tid);
    CheckReadable(s.tenant).None? && LoggedAs(s.bucket.changelog, id, now)
  }

  lemma {:induction false} SeenIsLogged(run: seq<Step>, tid: string, n: nat, id: Identity, now: Time)
    requires n <= |run| && forall step :: step in run && step.tid == tid ==> !step.AppendChangelog?
    ensures id in Seen(ViewOf(Get(After(run[..n]), tid), now)) <==> LoggedAfter(run, tid, n, id, now)
  {
    ReachableReplays(run[..n], tid);
    VisibleExactly(Get(After(run[..n]), tid).bucket, id, now);
  }

  lemma {:induction false} SeenMeansLogged(e: Env, run: seq<Step>, tid: string, at: nat -> nat, clock: nat -> Time, id: Identity)
    requires Isolation.Watches(e.views, run, tid, at, clock)
    requires forall step :: step in run && step.tid == tid ==> !step.AppendChangelog?
    ensures forall c: nat :: at(c) <= |run| && (id in Seen(e.views(c)) <==> LoggedAfter(run, tid, at(c), id, clock(c)))
  {
    forall c: nat
      ensures at(c) <= |run| && (id in Seen(e.views(c)) <==> LoggedAfter(run, tid, at(c), id, clock(c)))
    {
      SeenIsLogged(run, tid, at(c), id, clock(c));
    }
  }

  lemma {:induction false} UpperApart(e: Env, raw: Compiler.RawSchema, run: seq<Step>, tid: string, at: nat -> nat, clock: nat -> Time, req: Request)
    requires FromSource(e, raw) && e.schema.Def(req.Node()).Some? && Isolation.Watches(e.views, run, tid, at, clock)
    requires forall c: nat :: at(c) <= |run| && PlainUsersets(Get(After(run[..at(c)]), tid))
    ensures Bracket.Apart(e.schema, Upper(e, req))
  {
    Compiler.AcceptedWellFormed(raw, e.schema, e.compiles);
    forall id | id in Upper(e, req).tuples && id.subRel != ""
      ensures SafeNode(Node(id.subType, id.subId, id.subRel))
    {
      assert SeenSometime(e, RootWalk(e, req).trail.calls, id);
      var c: nat :| c < RootWalk(e, req).trail.calls && id in Seen(e.views(c));
      assert id in LiveIds(Get(After(run[..at(c)]), tid).bucket.tuples, clock(c));
    }
  }

  ghost predicate NothingExcluded(s: Schema, nodes: iset<Node>) {
    forall n: Node :: n in nodes && s.Def(n).Some? ==> !s.Def(n).value.operation.Exclusion?
  }

  // One schema and one set of conditions, two tenant states; the second one's tuples say what is in reach.
  ghost predicate Comparable(e: Env, e': Env, raw: Compiler.RawSchema, s: Slot, s': Slot, now: Time, now': Time,
                             req: Request, nodes: iset<Node>) {
    && FromSource(e, raw) && NothingExcluded(e.schema, nodes) && ContextFree(e, nodes)
    && req.Node() in nodes && ClosedUnder(e.schema, FactsOf(e'), nodes) && LinearFrom(e.schema, FactsOf(e'), nodes, req)
    && e'.schema == e.schema && e'.compiles == e.compiles && e'.holds == e.holds
    && At(e, s, now) && At(e', s', now') && PlainUsersets(s) && PlainUsersets(s')
    && CheckReadable(s.tenant) == CheckReadable(s'.tenant)
    && s.bucket.objAttrs == s'.bucket.objAttrs && s.bucket.subAttrs == s'.bucket.subAttrs
    && Decide(e, req).out.Answer? && Decide(e', req).out.Answer?
  }

  lemma {:induction false} FewerTuplesLinear(s: Schema, f: Facts, f': Facts, nodes: iset<Node>, root: Request)
    requires f.tuples <= f'.tuples && LinearFrom(s, f', nodes, root) && ClosedUnder(s, f', nodes)
    ensures LinearFrom(s, f, nodes, root) && ClosedUnder(s, f, nodes)
  {
    forall r, c | Leaf(s, f', r, c)
      ensures Leaf(s, f, r, c)
    {
    }
  }

  lemma {:induction false} MoreTuplesMoreGrants(e: Env, e': Env, raw: Compiler.RawSchema, s: Slot, s': Slot, now: Time, now': Time,
                             req: Request, nodes: iset<Node>)
    requires Comparable(e, e', raw, s, s', now, now', req, nodes)
    requires forall id :: id in LiveIds(s.bucket.tuples, now) ==> id in LiveIds(s'.bucket.tuples, now')
    ensures Decide(e, req).out.allowed ==> Decide(e', req).out.allowed
  {
    KeysApart(e, raw, s, now);
    KeysApart(e', raw, s', now');
    forall text, r
      ensures CondAt(e, 0, text, r) == CondAt(e', 0, text, r)
    {
      assert e.views(0 + 1) == ViewOf(s, now) && e'.views(0 + 1) == ViewOf(s', now');
    }
    FewerTuplesLinear(e.schema, FactsOf(e), FactsOf(e'), nodes, req);
    if Decide(e, req).out.allowed {
      GrantsMonotone(e, e', req, nodes, nodes);
    }
  }

  /** A successful write revokes nothing: whatever was allowed before it is allowed after it at the same clock reading. */
  lemma {:induction false} WriteRevokesNothing(e: Env, e': Env, raw: Compiler.RawSchema, s: Slot, s': Slot,
                            tid: string, batch: seq<Tuple>, w: Time, now: Time, req: Request, nodes: iset<Node>)
    requires BucketValid(s.bucket) && w <= now && Apply(s, WriteTuples(tid, batch, w)) == (s', Done)
    requires Comparable(e, e', raw, s, s', now, now, req, nodes)
    ensures Decide(e, req).out.allowed ==> Decide(e', req).out.allowed
  {
    WriteGrows(s, s', tid, batch, w, now);
    MoreTuplesMoreGrants(e, e', raw, s, s', now, now, req, nodes);
  }

  /** A delete grants nothing: whatever is allowed after it was allowed before. */
  lemma {:induction false} DeleteGrantsNothing(e: Env, e': Env, raw: Compiler.RawSchema, s: Slot, s': Slot,
                            tid: string, id: Identity, w: Time, now: Time, req: Request, nodes: iset<Node>)
    requires BucketValid(s.bucket) && Apply(s, DeleteTuple(tid, id, w)) == (s', Done)
    requires Comparable(e', e, raw, s', s, now, now, req, nodes)
    ensures Decide(e', req).out.allowed ==> Decide(e, req).out.allowed
  {
    DeleteShrinks(s, s', tid, id, w, now);
    MoreTuplesMoreGrants(e', e, raw, s', s, now, now, req, nodes);
  }

  /** Time grants nothing: with the data unchanged, whatever is allowed later is allowed now. */
  lemma {:induction false} TimeGrantsNothing(e: Env, e': Env, raw: Compiler.RawSchema, s: Slot, now: Time, later: Time, req: Request, nodes: iset<Node>)
    requires now <= later && Comparable(e', e, raw, s, s, later, now, req, nodes)
    ensures Decide(e', req).out.allowed ==> Decide(e, req).out.allowed
  {
    forall id | id in LiveIds(s.bucket.tuples, later)
      ensures id in LiveIds(s.bucket.tuples, now)
    {
      var t :| t in s.bucket.tuples && t.id == id && !ExpiredAt(t, later);
      assert !ExpiredAt(t, now);
    }
    MoreTuplesMoreGrants(e', e, raw, s, s, later, now, req, nodes);
  }
}
