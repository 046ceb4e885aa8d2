/** What a whole check decides. */
module Checks {
  import opened Wrappers
  import opened Tuples
  import opened Keys
  import opened Schemas
  import opened WalkSpec
  import opened Rules
  import opened Reach
  import opened Bracket
  import opened Complete
  import opened Roots
  import opened Limits

  ghost function RootWalk(e: Env, req: Request): Walk
    requires e.schema.Def(req.Node()).Some?
  {
    PermissionWalk(e, req, e.schema.Def(req.Node()).value, START, 0)
  }

  // The root permission's own condition, evaluated after the walk.
  ghost predicate Gate(e: Env, req: Request) {
    var pd := e.schema.Def(req.Node());
    pd.Some? && (pd.value.condition.Some? ==> CondAt(e, RootWalk(e, req).trail.calls, pd.value.condition.value, req) == CondAllow)
  }

  // The tuples visible, and the conditions allowed, at some / at every one of the first n calls.
  ghost predicate SeenSometime(e: Env, n: nat, id: Identity) {
    exists c: nat :: c < n && id in Seen(e.views(c))
  }

  ghost predicate SeenAlways(e: Env, n: nat, id: Identity) {
    forall c: nat :: c < n ==> id in Seen(e.views(c))
  }

  ghost function Sometime(e: Env, n: nat): Facts {
    Facts(iset id | SeenSometime(e, n, id),
          (text, r) => exists c: nat :: c + 1 < n && CondAt(e, c, text, r) == CondAllow)
  }

  ghost function Always(e: Env, n: nat): Facts {
    Facts(iset id | SeenAlways(e, n, id),
          (text, r) => forall c: nat :: c + 1 < n ==> CondAt(e, c, text, r) == CondAllow)
  }

  // The tuples in force, and conditions allowing, at some call of the walk of a check / at every call.
  ghost function Upper(e: Env, req: Request): Facts
    requires e.schema.Def(req.Node()).Some?
  {
    Sometime(e, RootWalk(e, req).trail.calls)
  }

  ghost function Lower(e: Env, req: Request): Facts
    requires e.schema.Def(req.Node()).Some?
  {
    Always(e, RootWalk(e, req).trail.calls)
  }

  // The check stays within the given nodes, whatever it finds in the store on its way.
  ghost predicate Encloses(e: Env, req: Request, nodes: iset<Node>) {
    && e.schema.Def(req.Node()).Some? && req.Node() in nodes
    && Closed(e, Window(0, RootWalk(e, req).trail.calls), nodes)
  }

  lemma {:induction false} DeclaredEncloses(e: Env, req: Request)
    requires e.schema.Def(req.Node()).Some?
    ensures Encloses(e, req, Declared(e.schema))
  {
  }

  ghost function WalkBounds(e: Env, req: Request, nodes: iset<Node>): Bounds
    requires e.schema.Def(req.Node()).Some?
  {
    Bounds(e, Window(0, RootWalk(e, req).trail.calls), Lower(e, req), Upper(e, req), nodes * Declared(e.schema))
  }

  lemma {:induction false} WalkCovered(e: Env, req: Request, nodes: iset<Node>)
    requires Encloses(e, req, nodes)
    ensures Covers(WalkBounds(e, req, nodes)) && Here(WalkBounds(e, req, nodes), req, e.schema.Def(req.Node()).value)
  {
    var n := RootWalk(e, req).trail.calls;
    forall c: nat | c < n
      ensures Always(e, n).tuples <= Seen(e.views(c)) <= Sometime(e, n).tuples
    {
      forall id | id in Seen(e.views(c))
        ensures SeenSometime(e, n, id)
      {
      }
    }
    forall c: nat, text, r | c + 1 < n
      ensures CondAt(e, c, text, r) == CondAllow ==> Sometime(e, n).cond(text, r)
      ensures Always(e, n).cond(text, r) ==> CondAt(e, c, text, r) == CondAllow
    {
    }
  }

  // When an allow can be trusted: there is no exclusion, or every excluded child in reach is a leaf and keys
  // tell nodes apart. Bases of exclusions and children of intersections are arbitrary.
  ghost predicate Sound(s: Schema, f: Facts, nodes: iset<Node>) {
    NoExclusion(s) || (TailsAreLeaves(s, f, nodes) && Apart(s, f))
  }

  /**
   Soundness while the store changes during the check: whatever the visited set and the depth limit do,
   an allow has a finite derivation from tuples each visible at some call, in which excluded children are
   read in the tuples visible at every call, and its path names one of them.
   */
  lemma {:induction false} AllowIsSound(e: Env, req: Request, nodes: iset<Node>)
    requires Decide(e, req).out.Allows() && Encloses(e, req, nodes) && Sound(e.schema, Upper(e, req), nodes)
    ensures Gate(e, req)
    ensures Eval(e.schema, Upper(e, req), Lower(e, req), Fuel(e, 0), req)
    ensures PathOk(WalkBounds(e, req, nodes), req, Decide(e, req).out)
  {
    WalkCovered(e, req, nodes);
    PermissionBracket(WalkBounds(e, req, nodes), req, e.schema.Def(req.Node()).value, START, 0, Fuel(e, 0), false);
  }

  /** Without exclusion the derivation needs no negative facts: the request is in a least fixed point. */
  lemma {:induction false} AllowIsDerived(e: Env, req: Request)
    requires NoExclusion(e.schema) && Decide(e, req).out.Allows()
    ensures Gate(e, req)
    ensures Granted(e.schema, Upper(e, req), req)
    ensures PathOk(WalkBounds(e, req, Declared(e.schema)), req, Decide(e, req).out)
  {
    DeclaredEncloses(e, req);
    AllowIsSound(e, req, Declared(e.schema));
    EvalPositive(e.schema, Upper(e, req), Lower(e, req), Upper(e, req), Fuel(e, 0), req);
  }

  /**
   All four operators, nested exclusions included, while the store changes: a run that meets no visited
   key is bracketed at every depth the limit allows and beyond.
   */
  lemma {:induction false} ConcurrentRevisitFreeBracketed(e: Env, req: Request, k: nat)
    requires e.schema.Def(req.Node()).Some? && Decide(e, req).trail.revisits == 0 && k >= Fuel(e, 0)
    ensures Decide(e, req).out.Allows() ==> Gate(e, req) && Eval(e.schema, Upper(e, req), Lower(e, req), k, req)
    ensures Decide(e, req).out.Denies() ==> !Gate(e, req) || !Eval(e.schema, Lower(e, req), Upper(e, req), k, req)
  {
    DeclaredEncloses(e, req);
    WalkCovered(e, req, Declared(e.schema));
    PermissionBracket(WalkBounds(e, req, Declared(e.schema)), req, e.schema.Def(req.Node()).value, START, 0, k, true);
  }

  // No inline condition in reach looks at the request context. Conditions of whole permissions may.
  ghost predicate ContextFree(e: Env, nodes: iset<Node>) {
    forall text, o, s, c, c' :: Inline(e.schema, nodes, text) ==> e.holds(text, o, s, c) == e.holds(text, o, s, c')
  }

  // The hypotheses under which the shared visited set does no harm to a check of `req` within `nodes`.
  ghost predicate Tame(e: Env, f: Facts, req: Request, nodes: iset<Node>) {
    LinearFrom(e.schema, f, nodes, req) && Apart(e.schema, f) && ContextFree(e, nodes)
  }

  lemma {:induction false} InlineWithin(s: Schema, nodes: iset<Node>, text: string)
    requires Inline(s, nodes * Declared(s), text)
    ensures Inline(s, nodes, text)
  {
  }

  lemma {:induction false} ContextIndependent(e: Env, req: Request, nodes: iset<Node>)
    requires e.schema.Def(req.Node()).Some? && ContextFree(e, nodes)
    ensures IgnoresContext(WalkBounds(e, req, nodes), Upper(e, req)) && IgnoresContext(WalkBounds(e, req, nodes), Lower(e, req))
  {
    forall text, r: Request, ctx | Inline(e.schema, nodes * Declared(e.schema), text)
      ensures Upper(e, req).cond(text, r) == Upper(e, req).cond(text, r.(context := ctx))
      ensures Lower(e, req).cond(text, r) == Lower(e, req).cond(text, r.(context := ctx))
    {
      InlineWithin(e.schema, nodes, text);
      var r' := r.(context := ctx);
      assert forall c: nat :: CondAt(e, c, text, r) == CondAt(e, c, text, r');
    }
  }

  lemma {:induction false} WalkReady(e: Env, req: Request, nodes: iset<Node>)
    requires Encloses(e, req, nodes) && Tame(e, Upper(e, req), req, nodes)
    ensures Ready(WalkBounds(e, req, nodes), req)
  {
    WalkCovered(e, req, nodes);
    ContextIndependent(e, req, nodes);
  }

  /**
   Checks concurrent with writes are bracketed, wherever the schema in reach is linear: an allow is derivable
   when positive facts are those visible at some call and excluded ones those visible at every call, and
   after an error-free deny of the walk nothing derives the request with the two exchanged.
   */
  lemma {:induction false} ConcurrentCheckBracketed(e: Env, req: Request, nodes: iset<Node>)
    requires Encloses(e, req, nodes) && Tame(e, Upper(e, req), req, nodes)
    ensures Decide(e, req).out.Allows() ==> Gate(e, req) && exists k: nat :: Eval(e.schema, Upper(e, req), Lower(e, req), k, req)
    ensures Decide(e, req).out.Denies() ==> !Gate(e, req) || forall k: nat :: !Eval(e.schema, Lower(e, req), Upper(e, req), k, req)
  {
    if RootWalk(e, req).out.Allows() {
      LinearFromTails(e.schema, Upper(e, req), nodes, req);
      if Decide(e, req).out.Allows() {
        AllowIsSound(e, req, nodes);
      }
    } else if RootWalk(e, req).out.Denies() {
      WalkReady(e, req, nodes);
      WalkCovered(e, req, nodes);
      forall k: nat
        ensures !Eval(e.schema, Lower(e, req), Upper(e, req), k, req)
      {
        RootRefuted(WalkBounds(e, req, nodes), req, e.schema.Def(req.Node()).value, k);
      }
    }
  }

  /** Without exclusion the bracket is between two least fixed points. */
  lemma {:induction false} ConcurrentPositiveCheckBracketed(e: Env, req: Request, nodes: iset<Node>)
    requires NoExclusion(e.schema) && Encloses(e, req, nodes) && Tame(e, Upper(e, req), req, nodes)
    ensures Decide(e, req).out.Allows() ==> Gate(e, req) && Granted(e.schema, Upper(e, req), req)
    ensures Decide(e, req).out.Denies() ==> !Gate(e, req) || !Granted(e.schema, Lower(e, req), req)
  {
    ConcurrentCheckBracketed(e, req, nodes);
    if Decide(e, req).out.Allows() {
      AllowIsDerived(e, req);
    }
    if Granted(e.schema, Lower(e, req), req) {
      var k: nat :| Eval(e.schema, Lower(e, req), Lower(e, req), k, req);
      EvalPositive(e.schema, Lower(e, req), Lower(e, req), Upper(e, req), k, req);
      assert Eval(e.schema, Lower(e, req), Upper(e, req), k, req);
      assert Decide(e, req).out.Denies() && Gate(e, req) ==> forall k: nat :: !Eval(e.schema, Lower(e, req), Upper(e, req), k, req);
    }
  }

  // No write, expiry or attribute change falls between the calls of the check.
  ghost predicate Steady(e: Env) {
    forall c: nat :: e.views(c) == e.views(0)
  }

  ghost function FactsOf(e: Env): Facts {
    Facts(Seen(e.views(0)), (text, r) => CondAt(e, 0, text, r) == CondAllow)
  }

  ghost function SteadyBounds(e: Env, req: Request, nodes: iset<Node>): Bounds
    requires e.schema.Def(req.Node()).Some?
  {
    Bounds(e, Window(0, RootWalk(e, req).trail.calls), FactsOf(e), FactsOf(e), nodes * Declared(e.schema))
  }

  lemma {:induction false} SteadyConditions(e: Env)
    requires Steady(e)
    ensures forall c: nat, text, r :: CondAt(e, c, text, r) == CondAt(e, 0, text, r)
  {
    forall c: nat, text, r
      ensures CondAt(e, c, text, r) == CondAt(e, 0, text, r)
    {
      assert e.views(c) == e.views(0) && e.views(c + 1) == e.views(0) && e.views(0 + 1) == e.views(0);
    }
  }

  lemma {:induction false} SteadyCovered(e: Env, req: Request, nodes: iset<Node>)
    requires Steady(e) && Encloses(e, req, nodes)
    ensures Covers(SteadyBounds(e, req, nodes)) && Here(SteadyBounds(e, req, nodes), req, e.schema.Def(req.Node()).value)
  {
    SteadyConditions(e);
    forall c: nat
      ensures Seen(e.views(c)) == FactsOf(e).tuples
    {
      assert e.views(c) == e.views(0);
    }
  }

  lemma {:induction false} SteadyReady(e: Env, req: Request, nodes: iset<Node>)
    requires Steady(e) && Encloses(e, req, nodes) && Tame(e, FactsOf(e), req, nodes)
    ensures Ready(SteadyBounds(e, req, nodes), req)
  {
    SteadyCovered(e, req, nodes);
    forall text, r: Request, ctx | Inline(e.schema, nodes * Declared(e.schema), text)
      ensures FactsOf(e).cond(text, r) == FactsOf(e).cond(text, r.(context := ctx))
    {
      InlineWithin(e.schema, nodes, text);
    }
  }

  /** On a steady store a trusted allow is granted. */
  lemma {:induction false} SteadyAllowIsSound(e: Env, req: Request, nodes: iset<Node>)
    requires Steady(e) && Encloses(e, req, nodes) && Sound(e.schema, FactsOf(e), nodes) && Decide(e, req).out.Allows()
    ensures Gate(e, req) && Granted(e.schema, FactsOf(e), req)
  {
    SteadyCovered(e, req, nodes);
    SteadyConditions(e);
    PermissionBracket(SteadyBounds(e, req, nodes), req, e.schema.Def(req.Node()).value, START, 0, Fuel(e, 0), false);
  }

  /**
   Exactness: over any finite store, cycles included, an error-free check allows if and only if the request
   is in the least fixed point of the rules and the root condition allows, provided the schema is linear on
   nodes that enclose the check. The root itself may have one non-leaf anywhere in an intersection and any
   base in an exclusion, and its condition may read the request context.
   */
  lemma {:induction false} CheckExact(e: Env, req: Request, nodes: iset<Node>)
    requires Steady(e) && Encloses(e, req, nodes) && Tame(e, FactsOf(e), req, nodes) && Decide(e, req).out.Answer?
    ensures Decide(e, req).out.allowed <==> Granted(e.schema, FactsOf(e), req) && Gate(e, req)
  {
    if RootWalk(e, req).out.Allows() {
      LinearFromTails(e.schema, FactsOf(e), nodes, req);
      SteadyCovered(e, req, nodes);
      PermissionBracket(SteadyBounds(e, req, nodes), req, e.schema.Def(req.Node()).value, START, 0, Fuel(e, 0), false);
    } else {
      SteadyReady(e, req, nodes);
      SteadyCovered(e, req, nodes);
      forall k: nat
        ensures !Eval(e.schema, FactsOf(e), FactsOf(e), k, req)
      {
        RootRefuted(SteadyBounds(e, req, nodes), req, e.schema.Def(req.Node()).value, k);
      }
    }
  }

  /** Schemas built from resolve and union are linear over any facts. */
  lemma {:induction false} UnionCheckExact(e: Env, req: Request)
    requires Steady(e) && UnionOnly(e.schema) && Apart(e.schema, FactsOf(e)) && ContextFree(e, Declared(e.schema))
    requires Decide(e, req).out.Answer?
    ensures Decide(e, req).out.allowed <==> Granted(e.schema, FactsOf(e), req) && Gate(e, req)
  {
    UnionOnlyIsLinear(e.schema, FactsOf(e));
    LinearIsLinearFrom(e.schema, FactsOf(e), Declared(e.schema), req);
    DeclaredEncloses(e, req);
    CheckExact(e, req, Declared(e.schema));
  }

  /**
   A run that never meets a visited key is exact for all four operators, nested exclusions included:
   its answer is that of plain recursive evaluation at every depth the limit allows and beyond.
   */
  lemma {:induction false} RevisitFreeExact(e: Env, req: Request, k: nat)
    requires Steady(e) && Decide(e, req).trail.revisits == 0 && Decide(e, req).out.Answer?
    requires k >= Fuel(e, 0)
    ensures Decide(e, req).out.allowed <==> Eval(e.schema, FactsOf(e), FactsOf(e), k, req) && Gate(e, req)
  {
    DeclaredEncloses(e, req);
    SteadyCovered(e, req, Declared(e.schema));
    PermissionBracket(SteadyBounds(e, req, Declared(e.schema)), req, e.schema.Def(req.Node()).value, START, 0, k, true);
  }

  /**
   With N keys reachable, a depth limit of N - 1 is never exceeded, at most N keys are expanded, each
   once (every expansion adds a fresh key), and raising the limit changes nothing: the walk ends
   without it.
   */
  lemma {:induction false} DepthLimitUnneeded(e: Env, req: Request, nodes: iset<Node>, n: nat, m: int)
    requires WellNamed(e.schema) && req.Node() in nodes
    requires Closed(e, Window(0, Decide(e, req).trail.calls), nodes)
    requires AtMost(KeysOf(nodes, req.subType, req.subId), n) && n - 1 <= e.maxDepth <= m
    ensures Decide(e, req).out != Fail(DepthExceeded)
    ensures |Decide(e, req).trail.visited| == Decide(e, req).trail.expanded <= n
    ensures Decide(e.(maxDepth := m), req) == Decide(e, req)
  {
    if e.schema.Def(req.Node()).Some? {
      var pd := e.schema.Def(req.Node()).value;
      var w := RootWalk(e, req);
      var keys := KeysOf(nodes, req.subType, req.subId);
      assert AtMost(keys, n) && n <= e.maxDepth + 1;
      PermissionStays(e, Window(0, w.trail.calls), nodes, req, pd, START, 0, true);
      PermissionLimit(e, e.(maxDepth := m), req, pd, START, 0);
      assert forall c: nat, text :: CondAt(e, c, text, req) == CondAt(e.(maxDepth := m), c, text, req);
    }
  }

  lemma {:induction false} FiniteKeys(nodes: set<Node>, subType: string, subId: string)
    ensures AtMost(KeysOf((iset n | n in nodes), subType, subId), |nodes|)
  {
    var keys := KeysOf((iset n | n in nodes), subType, subId);
    forall visited: set<string> | Within(visited, keys)
      ensures |visited| <= |nodes|
    {
      ImageSize(nodes, visited, subType, subId);
    }
  }

  lemma {:induction false} ImageSize(nodes: set<Node>, visited: set<string>, subType: string, subId: string)
    requires forall k :: k in visited ==> exists n :: n in nodes && NodeKey(n, subType, subId) == k
    ensures |visited| <= |nodes|
    decreases |visited|
  {
    if visited != {} {
      var k :| k in visited;
      var n :| n in nodes && NodeKey(n, subType, subId) == k;
      ImageSize(nodes - {n}, visited - {k}, subType, subId);
    }
  }

  // The nodes a check over a fixed store can ask about: the root, and every tuple subject with every permission name.
  ghost function Territories(live: seq<Identity>, perms: set<string>, root: Node): set<Node> {
    {root} + set id, p | id in live && p in perms :: Node(id.subType, id.subId, p)
  }

  lemma {:induction false} TerritorySize(live: seq<Identity>, perms: set<string>, root: Node)
    ensures |Territories(live, perms, root)| <= |live| * |perms| + 1
  {
    if live == [] {
      assert Territories(live, perms, root) == {root};
    } else {
      var last, rest := live[|live| - 1], live[..|live| - 1];
      assert live == rest + [last];
      TerritorySize(rest, perms, root);
      RowSize(perms, last);
      TerritoryStep(rest, last, perms, root);
      UnionSize(Territories(rest, perms, root), Row(perms, last));
      Distribute(|rest|, |perms|);
    }
  }

  ghost function Row(perms: set<string>, id: Identity): set<Node> {
    set p | p in perms :: Node(id.subType, id.subId, p)
  }

  lemma {:induction false} TerritoryStep(rest: seq<Identity>, last: Identity, perms: set<string>, root: Node)
    ensures Territories(rest + [last], perms, root) == Territories(rest, perms, root) + Row(perms, last)
  {
    forall id | id in rest + [last]
      ensures id in rest || id == last
    {
    }
  }

  lemma {:induction false} Distribute(a: int, b: int)
    ensures a * b + b == (a + 1) * b
  {
  }

  lemma {:induction false} UnionSize<T>(a: set<T>, b: set<T>)
    ensures |a + b| <= |a| + |b|
  {
    assert a + b == a + (b - a);
  }

  lemma {:induction false} RowSize(perms: set<string>, id: Identity)
    ensures |Row(perms, id)| <= |perms|
  {
    if perms != {} {
      var q :| q in perms;
      RowSize(perms - {q}, id);
      assert Row(perms, id) == Row(perms - {q}, id) + {Node(id.subType, id.subId, q)};
    }
  }

  /** A limit computed from the store and the schema alone: tuples times permission names. */
  lemma {:induction false} DepthLimitForStore(e: Env, req: Request, perms: set<string>)
    requires Steady(e) && WellNamed(e.schema) && forall n: Node :: e.schema.Def(n).Some? ==> n.perm in perms
    requires e.maxDepth >= |e.views(0).live| * |perms|
    ensures Decide(e, req).out != Fail(DepthExceeded)
  {
    var live := e.views(0).live;
    var finite := Territories(live, perms, req.Node());
    var nodes := iset n | n in finite;
    TerritorySize(live, perms, req.Node());
    FiniteKeys(finite, req.subType, req.subId);
    forall n, c: nat, id, m | n in nodes && id in Seen(e.views(c)) && Asks(e.schema, n, id, m)
      ensures m in nodes
    {
      assert e.views(c) == e.views(0);
      assert m == Node(id.subType, id.subId, m.perm);
    }
    DepthLimitUnneeded(e, req, nodes, |finite|, e.maxDepth);
  }

  /** On a readable tenant and a known permission, only the depth limit and conditions can fail. */
  lemma {:induction false} OnlyExpectedFaults(e: Env, req: Request)
    requires Serviceable(e) && e.schema.Def(req.Node()).Some?
    ensures Expected(Decide(e, req).out)
  {
    PermissionExplained(e, req, e.schema.Def(req.Node()).value, START, 0);
  }

  // The condition of the root permission, if it has one, compiles and fails on no attributes.
  ghost predicate RootConditionWorks(e: Env, req: Request) {
    var pd := e.schema.Def(req.Node());
    pd.Some? && pd.value.condition.Some? ==> !Broken(e, pd.value.condition.value)
  }

  /**
   Progress: with a readable store, operations and conditions that work and a depth limit that suffices for
   the keys in reach, every check of a known permission is answered.
   */
  lemma {:induction false} CheckAnswers(e: Env, req: Request, nodes: iset<Node>, n: nat)
    requires Serviceable(e) && e.schema.Def(req.Node()).Some? && WellNamed(e.schema) && req.Node() in nodes
    requires Closed(e, Window(0, Decide(e, req).trail.calls), nodes)
    requires AtMost(KeysOf(nodes, req.subType, req.subId), n) && n - 1 <= e.maxDepth
    requires RootConditionWorks(e, req) && forall text :: Written(e.schema, text) ==> !Broken(e, text)
    ensures Decide(e, req).out.Answer?
  {
    PermissionExplained(e, req, e.schema.Def(req.Node()).value, START, 0);
    DepthLimitUnneeded(e, req, nodes, n, e.maxDepth);
  }

  /** Errors have causes: without a broken condition, a refusing store or an unnamed operation none of them occurs. */
  lemma {:induction false} CheckExplained(e: Env, req: Request)
    requires e.schema.Def(req.Node()).Some?
    ensures RootConditionWorks(e, req) ==> Explained(e, Decide(e, req).out)
    ensures Decide(e, req).out.Fail? ==> Caused(e, Decide(e, req).out.fault) || Decide(e, req).out.fault.ConditionFault?
  {
    PermissionExplained(e, req, e.schema.Def(req.Node()).value, START, 0);
  }

  // The outcome of an error in the first child.
  ghost predicate FirstFails(e: Env, req: Request, child: PermissionRef, fault: Fault) {
    match child.Kind()
    case RelationKind => e.views(0).fault.Some? && fault == StoreFault(e.views(0).fault.value)
    case ArrowKind => e.views(0).fault.Some? && fault == StoreFault(e.views(0).fault.value)
    case ConditionKind =>
      && fault == ConditionFault
      && (!e.compiles(child.conditionExpr)
          || e.holds(child.conditionExpr, ObjectAttrs(e.views(0), req.objType, req.objId),
                     SubjectAttrs(e.views(1), req.subType, req.subId), req.context) == CondError)
  }

  /** An error of the store or of a condition is reported, not taken for a deny; so is an operation without a name. */
  lemma {:induction false} ErrorsSurface(e: Env, req: Request, pd: PermissionDef, fault: Fault)
    requires e.schema.Def(req.Node()) == Some(pd) && e.maxDepth >= 0
    requires if pd.operation.OtherOp? then fault == UnknownOperation
             else pd.children != [] && FirstFails(e, req, pd.children[0], fault)
    ensures Decide(e, req).out == Fail(fault)
  {
    if !pd.operation.OtherOp? {
      var t := START.Enter(VisitKey(req.objType, req.objId, pd.name, req.subType, req.subId));
      assert ChildWalk(e, req, pd.children[0], t, 0).out == Fail(fault) by {
        match pd.children[0].Kind()
        case RelationKind => assert RelationWalk(e, req, pd.children[0].relationRef, t, 0).out == Fail(fault);
        case ArrowKind => assert ArrowWalk(e, req, pd.children[0].arrowRef, pd.children[0].arrowPermission, t, 0).out == Fail(fault);
        case ConditionKind =>
      }
      var w := ChildWalk(e, req, pd.children[0], t, 0);
      assert ListWalk(e, req, pd.children, true, t, 0) == w && ListWalk(e, req, pd.children, false, t, 0) == w;
      assert PermissionWalk(e, req, pd, START, 0) == w;
    }
  }

  /** ... but for the lookup of a userset that names no permission, whose error counts as no tuple. */
  lemma {:induction false} LookupErrorSkipped(e: Env, sub: Request, rest: seq<Request>, t: Trail, depth: nat)
    requires depth <= e.maxDepth && sub.perm != "" && e.schema.Def(sub.Node()).None? && sub.Key() !in t.visited
    requires e.views(t.calls).fault.Some?
    ensures SubWalk(e, [sub] + rest, true, t, depth) == SubWalk(e, rest, true, t.Called(1), depth)
  {
    assert ([sub] + rest)[0] == sub && ([sub] + rest)[1..] == rest;
  }

  function PathText(id: Identity): string {
    id.objType + (":" + (id.objId + ("#" + (id.relation + ("@" + (id.subType + (":" + id.subId)))))))
  }

  // The path is the one text of a direct tuple for the requested subject, live at some call of the walk.
  ghost predicate NamesTuple(e: Env, req: Request, path: seq<string>)
    requires e.schema.Def(req.Node()).Some?
  {
    exists c: nat, id :: && c < RootWalk(e, req).trail.calls && id in Seen(e.views(c))
                    && id.subType == req.subType && id.subId == req.subId && id.subRel == "" && path == [PathText(id)]
  }

  lemma {:induction false} PathIsText(b: Bounds, req: Request, out: Outcome)
    requires b.x.start == 0 && PathOk(b, req, out) && out.Allows() && out.path != []
    ensures exists c: nat, id :: && c < b.x.end && id in Seen(b.e.views(c))
                            && id.subType == req.subType && id.subId == req.subId && id.subRel == "" && out.path == [PathText(id)]
  {
    var c: nat, id :| b.x.start <= c < b.x.end && id in Seen(b.e.views(c)) && id.subType == req.subType && id.subId == req.subId
                   && id.subRel == "" && out.path == [DirectPath(id)];
    VisitKeyText(id.objType, id.objId, id.relation, id.subType, id.subId);
  }

  /**
   Where only tuples can allow, every allow names one: its path is the one text type:id#relation@type:id of a
   direct tuple for the requested subject, live at some call.
   */
  lemma {:induction false} AllowNamesTuple(e: Env, req: Request)
    requires PathGiving(e.schema) && Decide(e, req).out.Allows()
    ensures NamesTuple(e, req, Decide(e, req).out.path)
  {
    PermissionExplained(e, req, e.schema.Def(req.Node()).value, START, 0);
    assert NoExclusion(e.schema);
    AllowIsDerived(e, req);
    PathIsText(WalkBounds(e, req, Declared(e.schema)), req, Decide(e, req).out);
  }
}
