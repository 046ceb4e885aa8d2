/** What changes to the store and to the schema do to decisions. */
module Changes {
  import opened Wrappers
  import opened Tuples
  import opened Keys
  import opened Schemas
  import opened WalkSpec
  import opened Rules
  import opened Reach
  import opened Bracket
  import opened Checks

  // Weaker rules for the same permission: more ways in a union, fewer demands in an intersection.
  ghost predicate Loosened(pd: PermissionDef, pd': PermissionDef) {
    && pd.condition == pd'.condition
    && match pd.operation
       case Union => pd'.operation in {Union, DirectOp} && forall c :: c in pd.children ==> c in pd'.children
       case DirectOp => pd'.operation in {Union, DirectOp} && forall c :: c in pd.children ==> c in pd'.children
       case Intersect => pd'.operation.Intersect? && (pd.children != [] ==> pd'.children != []) && forall c :: c in pd'.children ==> c in pd.children
       case Exclusion => false
       case OtherOp(_) => true
  }

  // The same permissions, with weaker rules on the given nodes.
  ghost predicate SchemaWithin(s: Schema, s': Schema, nodes: iset<Node>) {
    && (forall n: Node :: s.Def(n).Some? == s'.Def(n).Some?)
    && forall n: Node :: n in nodes && s.Def(n).Some? ==> Loosened(s.Def(n).value, s'.Def(n).value)
  }

  // Every node a member of `nodes` can ask about because of a tuple in force is a member too.
  ghost predicate ClosedUnder(s: Schema, f: Facts, nodes: iset<Node>) {
    forall n, id, m :: n in nodes && id in f.tuples && Asks(s, n, id, m) ==> m in nodes
  }

  lemma {:induction false} ClosedEncloses(e: Env, req: Request, nodes: iset<Node>)
    requires Steady(e) && ClosedUnder(e.schema, FactsOf(e), nodes) && req.Node() in nodes && e.schema.Def(req.Node()).Some?
    ensures Encloses(e, req, nodes)
  {
    forall n, c: nat, id, m | n in nodes && id in Seen(e.views(c)) && Asks(e.schema, n, id, m)
      ensures m in nodes
    {
      assert e.views(c) == e.views(0);
    }
  }

  // Inside a closed set of nodes, a child only reads what lies inside.
  lemma {:induction false} ChildInside(s: Schema, f: Facts, nodes: iset<Node>, req: Request, child: PermissionRef, p: Request -> bool, q: Request -> bool)
    requires ClosedUnder(s, f, nodes) && req.Node() in nodes && s.Def(req.Node()).Some? && child in s.Def(req.Node()).value.children
    requires forall r: Request :: p(r) && r.Node() in nodes ==> q(r)
    requires ChildHolds(s, f, req, child, p)
    ensures ChildHolds(s, f, req, child, q)
  {
    match child.Kind()
    case RelationKind =>
      if req.Grant(child.relationRef) !in f.tuples {
        var u :| Related(f, req, child.relationRef, u) && SubHolds(s, f, req.Userset(u), true, p);
        if s.Def(req.Userset(u).Node()).Some? {
          var id := Identity(req.objType, req.objId, child.relationRef, u.typ, u.id, u.relation);
          assert Asks(s, req.Node(), id, req.Userset(u).Node());
        }
        assert SubHolds(s, f, req.Userset(u), true, q);
      }
    case ArrowKind =>
      var u :| Related(f, req, child.arrowRef, u) && SubHolds(s, f, req.Arrow(ObjectRef(u.typ, u.id), child.arrowPermission), false, p);
      var sub := req.Arrow(ObjectRef(u.typ, u.id), child.arrowPermission);
      var id := Identity(req.objType, req.objId, child.arrowRef, u.typ, u.id, u.relation);
      assert Asks(s, req.Node(), id, sub.Node());
      assert SubHolds(s, f, sub, false, q);
    case ConditionKind =>
  }

  lemma {:induction false} EvalGrowsWithFacts(s: Schema, s': Schema, f: Facts, f': Facts, nodes: iset<Node>, k: nat, req: Request)
    requires SchemaWithin(s, s', nodes) && FactsWithin(f, f') && ClosedUnder(s, f, nodes) && req.Node() in nodes
    requires Eval(s, f, f, k, req)
    ensures Eval(s', f', f', k, req)
    decreases k
  {
    var p, p' := Upto(s, f, f, k - 1), Upto(s', f', f', k - 1);
    forall r: Request | p(r) && r.Node() in nodes
      ensures p'(r)
    {
      EvalGrowsWithFacts(s, s', f, f', nodes, k - 1, r);
    }
    var pd, pd' := s.Def(req.Node()).value, s'.Def(req.Node()).value;
    assert Loosened(pd, pd');
    forall c | c in pd.children && ChildHolds(s, f, req, c, p)
      ensures ChildHolds(s', f', req, c, p')
    {
      ChildInside(s, f, nodes, req, c, p, p');
      ChildMono(s, f, f', req, c, p', p');
      ChildSchema(s, s', f', req, c, p');
    }
    EvalUnionOrIntersect(s, f, f, k, req, pd);
    EvalUnionOrIntersect(s', f', f', k, req, pd');
  }

  // A child's value depends on the schema only through which nodes are permissions.
  lemma {:induction false} ChildSchema(s: Schema, s': Schema, f: Facts, req: Request, child: PermissionRef, p: Request -> bool)
    requires (forall n: Node :: s.Def(n).Some? == s'.Def(n).Some?) && ChildHolds(s, f, req, child, p)
    ensures ChildHolds(s', f, req, child, p)
  {
    match child.Kind()
    case RelationKind =>
      if req.Grant(child.relationRef) !in f.tuples {
        var u :| Related(f, req, child.relationRef, u) && u.relation != "" && SubHolds(s, f, req.Userset(u), true, p);
        assert SubHolds(s', f, req.Userset(u), true, p);
      }
    case ArrowKind =>
      var u :| Related(f, req, child.arrowRef, u) && SubHolds(s, f, req.Arrow(ObjectRef(u.typ, u.id), child.arrowPermission), false, p);
      assert SubHolds(s', f, req.Arrow(ObjectRef(u.typ, u.id), child.arrowPermission), false, p);
    case ConditionKind =>
  }

  /**
   Grants are monotone wherever checks are exact and nothing in reach is excluded: adding tuples, or
   loosening rules, never revokes an allow, so deleting or expiring tuples never creates one.
   */
  lemma {:induction false} GrantsMonotone(e: Env, e': Env, req: Request, nodes: iset<Node>, nodes': iset<Node>)
    requires Steady(e) && ClosedUnder(e.schema, FactsOf(e), nodes) && req.Node() in nodes && Tame(e, FactsOf(e), req, nodes)
    requires Steady(e') && ClosedUnder(e'.schema, FactsOf(e'), nodes') && req.Node() in nodes' && Tame(e', FactsOf(e'), req, nodes')
    requires SchemaWithin(e.schema, e'.schema, nodes) && FactsWithin(FactsOf(e), FactsOf(e'))
    requires Decide(e, req).out.Allows() && Decide(e', req).out.Answer?
    ensures Decide(e', req).out.allowed
  {
    ClosedEncloses(e, req, nodes);
    ClosedEncloses(e', req, nodes');
    CheckExact(e, req, nodes);
    CheckExact(e', req, nodes');
    var k: nat :| Eval(e.schema, FactsOf(e), FactsOf(e), k, req);
    EvalGrowsWithFacts(e.schema, e'.schema, FactsOf(e), FactsOf(e'), nodes, k, req);
    GateGrows(e, e', req);
  }

  lemma {:induction false} GateGrows(e: Env, e': Env, req: Request)
    requires Steady(e) && Steady(e') && e.schema.Def(req.Node()).Some? && e'.schema.Def(req.Node()).Some?
    requires e.schema.Def(req.Node()).value.condition == e'.schema.Def(req.Node()).value.condition
    requires FactsWithin(FactsOf(e), FactsOf(e')) && Gate(e, req)
    ensures Gate(e', req)
  {
    SteadyConditions(e);
    SteadyConditions(e');
    var pd := e.schema.Def(req.Node()).value;
    if pd.condition.Some? {
      assert FactsOf(e).cond(pd.condition.value, req);
      assert FactsOf(e').cond(pd.condition.value, req);
    }
  }

  ghost predicate SameElements(a: seq<PermissionRef>, b: seq<PermissionRef>) {
    forall c :: c in a <==> c in b
  }

  // The same rule with its children in another order, or repeated. The base of an exclusion keeps its place.
  ghost predicate Reordered(pd: PermissionDef, pd': PermissionDef) {
    && pd.condition == pd'.condition && SameElements(pd.children, pd'.children)
    && match pd.operation
       case Union => pd'.operation in {Union, DirectOp}
       case DirectOp => pd'.operation in {Union, DirectOp}
       case Intersect => pd'.operation.Intersect?
       case Exclusion =>
         && pd'.operation.Exclusion?
         && (pd.children != [] && pd'.children != [] ==>
               pd.children[0] == pd'.children[0] && SameElements(pd.children[1..], pd'.children[1..]))
       case OtherOp(_) => pd'.operation.OtherOp?
  }

  ghost predicate SchemaReordered(s: Schema, s': Schema) {
    forall n: Node :: s.Def(n).Some? == s'.Def(n).Some? && (s.Def(n).Some? ==> Reordered(s.Def(n).value, s'.Def(n).value))
  }

  ghost predicate SameFacts(f: Facts, f': Facts) {
    f.tuples == f'.tuples && forall x, r :: f.cond(x, r) == f'.cond(x, r)
  }

  lemma {:induction false} ChildSame(s: Schema, s': Schema, f: Facts, f': Facts, req: Request, child: PermissionRef, p: Request -> bool, p': Request -> bool)
    requires (forall n: Node :: s.Def(n).Some? == s'.Def(n).Some?) && SameFacts(f, f') && forall r :: p(r) == p'(r)
    ensures ChildHolds(s, f, req, child, p) == ChildHolds(s', f', req, child, p')
  {
    if ChildHolds(s, f, req, child, p) {
      ChildMono(s, f, f', req, child, p, p');
      ChildSchema(s, s', f', req, child, p');
    }
    if ChildHolds(s', f', req, child, p') {
      ChildMono(s', f', f, req, child, p', p);
      ChildSchema(s', s, f, req, child, p);
    }
  }

  lemma {:induction false} EvalReordered(s: Schema, s': Schema, f: Facts, f': Facts, k: nat, req: Request)
    requires SchemaReordered(s, s') && SameFacts(f, f')
    ensures Eval(s, f, f, k, req) == Eval(s', f', f', k, req)
    decreases k
  {
    if k > 0 && s.Def(req.Node()).Some? {
      var p, p' := Upto(s, f, f, k - 1), Upto(s', f', f', k - 1);
      forall r
        ensures p(r) == p'(r)
      {
        EvalReordered(s, s', f, f', k - 1, r);
      }
      forall c
        ensures ChildHolds(s, f, req, c, p) == ChildHolds(s', f', req, c, p')
      {
        ChildSame(s, s', f, f', req, c, p, p');
      }
      RuleReordered(s, s', f, f', k, req, s.Def(req.Node()).value, s'.Def(req.Node()).value, p, p');
    }
  }

  lemma {:induction false} RuleReordered(s: Schema, s': Schema, f: Facts, f': Facts, k: nat, req: Request, pd: PermissionDef, pd': PermissionDef,
                      p: Request -> bool, p': Request -> bool)
    requires k > 0 && s.Def(req.Node()) == Some(pd) && s'.Def(req.Node()) == Some(pd') && Reordered(pd, pd')
    requires p == Upto(s, f, f, k - 1) && p' == Upto(s', f', f', k - 1)
    requires forall c :: ChildHolds(s, f, req, c, p) == ChildHolds(s', f', req, c, p')
    ensures Eval(s, f, f, k, req) == Eval(s', f', f', k, req)
  {
    SameEmptiness(pd.children, pd'.children);
    if pd.operation.Exclusion? {
      if pd.children != [] {
        EvalExclusion(s, f, f, k, req, pd);
        EvalExclusion(s', f', f', k, req, pd');
      }
    } else {
      EvalUnionOrIntersect(s, f, f, k, req, pd);
      EvalUnionOrIntersect(s', f', f', k, req, pd');
    }
  }

  lemma {:induction false} SameEmptiness(a: seq<PermissionRef>, b: seq<PermissionRef>)
    requires SameElements(a, b)
    ensures a == [] <==> b == []
  {
    if a != [] {
      assert a[0] in b;
    }
    if b != [] {
      assert b[0] in a;
    }
  }

  /**
   Wherever checks are exact, exclusion included, the order of children and of stored tuples does not
   matter, nor do repetitions among them.
   */
  lemma {:induction false} OrderIndependent(e: Env, e': Env, req: Request, nodes: iset<Node>, nodes': iset<Node>)
    requires Steady(e) && Encloses(e, req, nodes) && Tame(e, FactsOf(e), req, nodes)
    requires Steady(e') && Encloses(e', req, nodes') && Tame(e', FactsOf(e'), req, nodes')
    requires SchemaReordered(e.schema, e'.schema) && SameFacts(FactsOf(e), FactsOf(e'))
    requires Decide(e, req).out.Answer? && Decide(e', req).out.Answer?
    ensures Decide(e, req).out.allowed == Decide(e', req).out.allowed
  {
    CheckExact(e, req, nodes);
    CheckExact(e', req, nodes');
    forall k: nat
      ensures Eval(e.schema, FactsOf(e), FactsOf(e), k, req) == Eval(e'.schema, FactsOf(e'), FactsOf(e'), k, req)
    {
      EvalReordered(e.schema, e'.schema, FactsOf(e), FactsOf(e'), k, req);
    }
    if Gate(e, req) {
      GateGrows(e, e', req);
    }
    if Gate(e', req) {
      GateGrows(e', e, req);
    }
  }
}
