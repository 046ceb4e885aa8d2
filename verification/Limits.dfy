/**
 What the depth limit can change, and which errors a walk can end in.
 */
module Limits {
  import opened Wrappers
  import opened Tuples
  import opened Keys
  import opened Schemas
  import opened WalkSpec
  import opened Rules

  // The same environment, call by call, with at least the same depth limit.
  ghost predicate Raised(e: Env, e': Env) {
    && e'.schema == e.schema && e.maxDepth <= e'.maxDepth && e'.compiles == e.compiles && e'.holds == e.holds
    && forall c: nat :: e'.views(c) == e.views(c)
  }

  // A walk that does not hit the depth limit is the same walk under every higher limit,
  // and any walk is the same under an equal one.
  ghost predicate SameUnder(e: Env, e': Env, w: Walk, w': Walk) {
    w.out != Fail(DepthExceeded) || e'.maxDepth == e.maxDepth ==> w' == w
  }

  lemma {:induction false} PermissionLimit(e: Env, e': Env, req: Request, pd: PermissionDef, t: Trail, depth: nat)
    requires Raised(e, e')
    ensures SameUnder(e, e', PermissionWalk(e, req, pd, t, depth), PermissionWalk(e', req, pd, t, depth))
    decreases Fuel(e, depth), 3, 0
  {
    var key := VisitKey(req.objType, req.objId, pd.name, req.subType, req.subId);
    if depth <= e.maxDepth && key !in t.visited {
      var t1 := t.Enter(key);
      match pd.operation
      case Union => ListLimit(e, e', req, pd.children, true, t1, depth);
      case DirectOp => ListLimit(e, e', req, pd.children, true, t1, depth);
      case Intersect => ListLimit(e, e', req, pd.children, false, t1, depth);
      case Exclusion =>
        if pd.children != [] {
          ChildLimit(e, e', req, pd.children[0], t1, depth);
          ListLimit(e, e', req, pd.children[1..], true, ChildWalk(e, req, pd.children[0], t1, depth).trail, depth);
        }
      case OtherOp(_) =>
    }
  }

  lemma {:induction false} ListLimit(e: Env, e': Env, req: Request, children: seq<PermissionRef>, stop: bool, t: Trail, depth: nat)
    requires depth <= e.maxDepth && Raised(e, e')
    ensures SameUnder(e, e', ListWalk(e, req, children, stop, t, depth), ListWalk(e', req, children, stop, t, depth))
    decreases Fuel(e, depth), 2, |children|
  {
    if children != [] {
      ChildLimit(e, e', req, children[0], t, depth);
      ListLimit(e, e', req, children[1..], stop, ChildWalk(e, req, children[0], t, depth).trail, depth);
    }
  }

  lemma {:induction false} ChildLimit(e: Env, e': Env, req: Request, child: PermissionRef, t: Trail, depth: nat)
    requires depth <= e.maxDepth && Raised(e, e')
    ensures SameUnder(e, e', ChildWalk(e, req, child, t, depth), ChildWalk(e', req, child, t, depth))
    decreases Fuel(e, depth), 1, 0
  {
    match child.Kind()
    case RelationKind =>
      var v := e.views(t.calls + 1);
      SubLimit(e, e', Usersets(req, Subjects(v.live, req.objType, req.objId, child.relationRef)), true, t.Called(2), depth);
      assert SameUnder(e, e', RelationWalk(e, req, child.relationRef, t, depth), RelationWalk(e', req, child.relationRef, t, depth));
    case ArrowKind =>
      var v := e.views(t.calls);
      SubLimit(e, e', Arrows(req, Targets(Subjects(v.live, req.objType, req.objId, child.arrowRef)), child.arrowPermission),
               false, t.Called(1), depth);
      assert SameUnder(e, e', ArrowWalk(e, req, child.arrowRef, child.arrowPermission, t, depth),
                       ArrowWalk(e', req, child.arrowRef, child.arrowPermission, t, depth));
    case ConditionKind =>
      assert CondAt(e, t.calls, child.conditionExpr, req) == CondAt(e', t.calls, child.conditionExpr, req);
  }

  lemma {:induction false} SubLimit(e: Env, e': Env, subs: seq<Request>, userset: bool, t: Trail, depth: nat)
    requires depth <= e.maxDepth && Raised(e, e')
    ensures SameUnder(e, e', SubWalk(e, subs, userset, t, depth), SubWalk(e', subs, userset, t, depth))
    decreases Fuel(e, depth), 0, |subs|
  {
    if subs != [] {
      var sub := subs[0];
      if Skipped(sub, userset) {
        SubLimit(e, e', subs[1..], userset, t, depth);
      } else if sub.Key() in t.visited {
        SubLimit(e, e', subs[1..], userset, t.Revisit(), depth);
      } else {
        match e.schema.GetPermission(sub.objType, sub.perm)
        case None =>
          SubLimit(e, e', subs[1..], userset, if userset then t.Called(1) else t, depth);
        case Some(pd) =>
          PermissionLimit(e, e', sub, pd, t, depth + 1);
          SubLimit(e, e', subs[1..], userset, PermissionWalk(e, sub, pd, t, depth + 1).trail, depth);
      }
    }
  }

  // The inline condition texts of a schema.
  ghost predicate Written(s: Schema, text: string) {
    Inline(s, Declared(s), text)
  }

  // Unions over relations and arrows only, at every permission.
  ghost predicate PathGiving(s: Schema) {
    UnionOnly(s) && forall text :: !Written(s, text)
  }

  // Every error has its cause in the store, the schema or a condition, and where nothing else than tuples can
  // allow, an allow names one.
  ghost predicate Explained(e: Env, out: Outcome) {
    match out
    case Answer(allowed, path) => allowed && PathGiving(e.schema) ==> path != []
    case Fail(fault) => Caused(e, fault)
  }

  ghost predicate Caused(e: Env, fault: Fault) {
    match fault
    case DepthExceeded => true
    case UnknownOperation => exists n: Node :: e.schema.Def(n).Some? && e.schema.Def(n).value.operation.OtherOp?
    case ConditionFault => exists text :: Written(e.schema, text) && Broken(e, text)
    case StoreFault(x) => exists c: nat :: e.views(c).fault == Some(x)
    case _ => false
  }

  // A condition that does not compile, or fails on some attributes.
  ghost predicate Broken(e: Env, text: string) {
    !e.compiles(text) || exists o, s, c :: e.holds(text, o, s, c) == CondError
  }

  lemma {:induction false} PermissionExplained(e: Env, req: Request, pd: PermissionDef, t: Trail, depth: nat)
    requires e.schema.Def(req.Node()) == Some(pd)
    ensures Explained(e, PermissionWalk(e, req, pd, t, depth).out)
    decreases Fuel(e, depth), 3, 0
  {
    var key := VisitKey(req.objType, req.objId, pd.name, req.subType, req.subId);
    if depth <= e.maxDepth && key !in t.visited {
      var t1 := t.Enter(key);
      match pd.operation
      case Union => ListExplained(e, req, pd, pd.children, true, t1, depth);
      case DirectOp => ListExplained(e, req, pd, pd.children, true, t1, depth);
      case Intersect => ListExplained(e, req, pd, pd.children, false, t1, depth);
      case Exclusion =>
        if pd.children != [] {
          ChildExplained(e, req, pd, pd.children[0], t1, depth);
          ListExplained(e, req, pd, pd.children[1..], true, ChildWalk(e, req, pd.children[0], t1, depth).trail, depth);
        }
      case OtherOp(_) =>
    }
  }

  lemma {:induction false} ListExplained(e: Env, req: Request, pd: PermissionDef, children: seq<PermissionRef>, stop: bool, t: Trail, depth: nat)
    requires depth <= e.maxDepth && e.schema.Def(req.Node()) == Some(pd) && forall c :: c in children ==> c in pd.children
    requires PathGiving(e.schema) ==> stop
    ensures Explained(e, ListWalk(e, req, children, stop, t, depth).out)
    decreases Fuel(e, depth), 2, |children|
  {
    if children != [] {
      ChildExplained(e, req, pd, children[0], t, depth);
      ListExplained(e, req, pd, children[1..], stop, ChildWalk(e, req, children[0], t, depth).trail, depth);
    }
  }

  lemma {:induction false} ChildExplained(e: Env, req: Request, pd: PermissionDef, child: PermissionRef, t: Trail, depth: nat)
    requires depth <= e.maxDepth && e.schema.Def(req.Node()) == Some(pd) && child in pd.children
    ensures Explained(e, ChildWalk(e, req, child, t, depth).out)
    decreases Fuel(e, depth), 1, 0
  {
    match child.Kind()
    case RelationKind =>
      var v := e.views(t.calls + 1);
      SubExplained(e, Usersets(req, Subjects(v.live, req.objType, req.objId, child.relationRef)), true, t.Called(2), depth);
      assert Explained(e, RelationWalk(e, req, child.relationRef, t, depth).out);
    case ArrowKind =>
      var v := e.views(t.calls);
      SubExplained(e, Arrows(req, Targets(Subjects(v.live, req.objType, req.objId, child.arrowRef)), child.arrowPermission),
                   false, t.Called(1), depth);
      assert Explained(e, ArrowWalk(e, req, child.arrowRef, child.arrowPermission, t, depth).out);
    case ConditionKind =>
      assert Written(e.schema, child.conditionExpr);
      if e.compiles(child.conditionExpr) && CondAt(e, t.calls, child.conditionExpr, req) == CondError {
        assert Broken(e, child.conditionExpr);
      }
  }

  lemma {:induction false} SubExplained(e: Env, subs: seq<Request>, userset: bool, t: Trail, depth: nat)
    requires depth <= e.maxDepth
    ensures Explained(e, SubWalk(e, subs, userset, t, depth).out)
    decreases Fuel(e, depth), 0, |subs|
  {
    if subs != [] {
      var sub := subs[0];
      if Skipped(sub, userset) {
        SubExplained(e, subs[1..], userset, t, depth);
      } else if sub.Key() in t.visited {
        SubExplained(e, subs[1..], userset, t.Revisit(), depth);
      } else {
        match e.schema.GetPermission(sub.objType, sub.perm)
        case None =>
          SubExplained(e, subs[1..], userset, if userset then t.Called(1) else t, depth);
        case Some(pd) =>
          assert e.schema.Def(sub.Node()) == Some(pd);
          PermissionExplained(e, sub, pd, t, depth + 1);
          SubExplained(e, subs[1..], userset, PermissionWalk(e, sub, pd, t, depth + 1).trail, depth);
      }
    }
  }

  // The store answers every call and every permission has one of the four operations.
  ghost predicate Serviceable(e: Env) {
    && (forall c: nat :: e.views(c).fault.None?)
    && (forall n: Node :: e.schema.Def(n).Some? ==> !e.schema.Def(n).value.operation.OtherOp?)
  }

  ghost predicate Expected(out: Outcome) {
    out.Fail? ==> out.fault.DepthExceeded? || out.fault.ConditionFault?
  }
}
