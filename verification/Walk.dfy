/**
 The check walk as a function (pkg/engine/check.go). `Trail` is what the walkers share and
 change: the visited set and how many store calls have been made. Call number c sees
 `e.views(c)`, so writers may change the store between any two calls of one check.
 */
module WalkSpec {
  import opened Wrappers
  import opened Tuples
  import opened Keys
  import opened Schemas

  datatype Request = Request(objType: string, objId: string, perm: string, subType: string, subId: string, context: Attrs) {
    function Node(): Node {
      Keys.Node(objType, objId, perm)
    }

    function Key(): string {
      VisitKey(objType, objId, perm, subType, subId)
    }

    // The tuple that grants `relation` on this object to this subject directly.
    function Grant(relation: string): Identity {
      Identity(objType, objId, relation, subType, subId, "")
    }

    // The request context is dropped on usersets ...
    function Userset(u: SubjectRef): Request {
      Request(u.typ, u.id, u.relation, subType, subId, map[])
    }

    // ... and kept on arrows.
    function Arrow(o: ObjectRef, permission: string): Request {
      Request(o.typ, o.id, permission, subType, subId, context)
    }
  }

  datatype CondOutcome = CondAllow | CondDeny | CondError

  datatype Fault =
    | DepthExceeded
    | UnknownOperation
    | UnknownPermission
    | ConditionFault
    | StoreFault(error: StoreError)
    | NoTenantContext
    | TenantGone
    | TenantNotReadable
    | NoSchema
    | UnknownSchemaMode

  datatype Outcome = Answer(allowed: bool, path: seq<string>) | Fail(fault: Fault) {
    predicate Allows() {
      Answer? && allowed
    }

    predicate Denies() {
      Answer? && !allowed
    }
  }

  const DENY := Answer(false, [])
  const ALLOW := Answer(true, [])

  // `compiles` and `holds` stand for the expression language: whether a condition text
  // compiles, and what it yields on object attributes, subject attributes and request context.
  datatype Env = Env(schema: Schema, maxDepth: int, views: nat -> View,
                     compiles: string -> bool, holds: (string, Attrs, Attrs, Attrs) -> CondOutcome)

  // `revisits` counts successful visited lookups and `expanded` the keys added.
  datatype Trail = Trail(visited: set<string>, calls: nat, revisits: nat, expanded: nat) {
    function Called(n: nat): Trail {
      this.(calls := calls + n)
    }

    function Revisit(): Trail {
      this.(revisits := revisits + 1)
    }

    function Enter(key: string): Trail {
      this.(visited := visited + {key}, expanded := expanded + 1)
    }
  }

  datatype Walk = Walk(out: Outcome, trail: Trail)

  ghost predicate Extends(t: Trail, t': Trail) {
    && t.visited <= t'.visited
    && t.calls <= t'.calls
    && t.revisits <= t'.revisits
    && |t'.visited| - |t.visited| == t'.expanded - t.expanded
  }

  function DirectPath(id: Identity): string {
    VisitKey(id.objType, id.objId, id.relation, id.subType, id.subId)
  }

  // The outcome of a condition whose two attribute reads are calls c and c + 1.
  function CondAt(e: Env, c: nat, text: string, req: Request): CondOutcome {
    e.holds(text, ObjectAttrs(e.views(c), req.objType, req.objId),
            SubjectAttrs(e.views(c + 1), req.subType, req.subId), req.context)
  }

  function OfCondition(o: CondOutcome): (r: Outcome)
    ensures r.Allows() <==> o == CondAllow
    ensures r.Denies() <==> o == CondDeny
  {
    match o
    case CondAllow => ALLOW
    case CondDeny => DENY
    case CondError => Fail(ConditionFault)
  }

  function Usersets(req: Request, us: seq<SubjectRef>): (subs: seq<Request>)
    ensures |subs| == |us| && forall i :: 0 <= i < |us| ==> subs[i] == req.Userset(us[i])
  {
    seq(|us|, i requires 0 <= i < |us| => req.Userset(us[i]))
  }

  function Arrows(req: Request, os: seq<ObjectRef>, permission: string): (subs: seq<Request>)
    ensures |subs| == |os| && forall i :: 0 <= i < |os| ==> subs[i] == req.Arrow(os[i], permission)
  {
    seq(|os|, i requires 0 <= i < |os| => req.Arrow(os[i], permission))
  }

  // Among the subjects of a relation, those without a relation of their own are not usersets.
  predicate Skipped(sub: Request, userset: bool) {
    userset && sub.perm == ""
  }

  // How many levels the depth limit still allows.
  function Fuel(e: Env, depth: nat): nat {
    if depth > e.maxDepth then 0 else e.maxDepth - depth + 1
  }

  function PermissionWalk(e: Env, req: Request, pd: PermissionDef, t: Trail, depth: nat): (w: Walk)
    ensures Extends(t, w.trail)
    ensures w.out.Denies() ==> w.out == DENY
    decreases Fuel(e, depth), 3, 0
  {
    if depth > e.maxDepth then Walk(Fail(DepthExceeded), t)
    else
      var key := VisitKey(req.objType, req.objId, pd.name, req.subType, req.subId);
      if key in t.visited then Walk(DENY, t.Revisit())
      else
        var t1 := t.Enter(key);
        match pd.operation
        case Union => ListWalk(e, req, pd.children, true, t1, depth)
        case DirectOp => ListWalk(e, req, pd.children, true, t1, depth)
        case Intersect =>
          if pd.children == [] then Walk(DENY, t1) else ListWalk(e, req, pd.children, false, t1, depth)
        case Exclusion =>
          if pd.children == [] then Walk(DENY, t1)
          else
            var base := ChildWalk(e, req, pd.children[0], t1, depth);
            if !base.out.Allows() then base
            else
              var rest := ListWalk(e, req, pd.children[1..], true, base.trail, depth);
              if rest.out.Fail? then rest
              else Walk(if rest.out.allowed then DENY else ALLOW, rest.trail)
        case OtherOp(_) => Walk(Fail(UnknownOperation), t1)
  }

  // Walks the children in order until one answers `stop`.
  function ListWalk(e: Env, req: Request, children: seq<PermissionRef>, stop: bool, t: Trail, depth: nat): (w: Walk)
    requires depth <= e.maxDepth
    ensures Extends(t, w.trail)
    ensures w.out.Denies() ==> w.out == DENY
    decreases Fuel(e, depth), 2, |children|
  {
    if children == [] then Walk(Answer(!stop, []), t)
    else
      var w := ChildWalk(e, req, children[0], t, depth);
      if w.out.Fail? || w.out.allowed == stop then w
      else ListWalk(e, req, children[1..], stop, w.trail, depth)
  }

  function ChildWalk(e: Env, req: Request, child: PermissionRef, t: Trail, depth: nat): (w: Walk)
    requires depth <= e.maxDepth
    ensures Extends(t, w.trail)
    ensures w.out.Denies() ==> w.out == DENY
    decreases Fuel(e, depth), 1, 0
  {
    match child.Kind()
    case RelationKind => RelationWalk(e, req, child.relationRef, t, depth)
    case ArrowKind => ArrowWalk(e, req, child.arrowRef, child.arrowPermission, t, depth)
    case ConditionKind =>
      if !e.compiles(child.conditionExpr) then Walk(Fail(ConditionFault), t)
      else Walk(OfCondition(CondAt(e, t.calls, child.conditionExpr, req)), t.Called(2))
  }

  function RelationWalk(e: Env, req: Request, relation: string, t: Trail, depth: nat): (w: Walk)
    requires depth <= e.maxDepth
    ensures Extends(t, w.trail)
    ensures w.out.Denies() ==> w.out == DENY
    decreases Fuel(e, depth), 0, 1
  {
    match LookupDirect(e.views(t.calls), req.Grant(relation))
    case Err(x) => Walk(Fail(StoreFault(x)), t.Called(1))
    case Ok(direct) =>
      if direct then Walk(Answer(true, [DirectPath(req.Grant(relation))]), t.Called(1))
      else
        match LookupSubjects(e.views(t.calls + 1), req.objType, req.objId, relation)
        case Err(x) => Walk(Fail(StoreFault(x)), t.Called(2))
        case Ok(us) => SubWalk(e, Usersets(req, us), true, t.Called(2), depth)
  }

  function ArrowWalk(e: Env, req: Request, relation: string, permission: string, t: Trail, depth: nat): (w: Walk)
    requires depth <= e.maxDepth
    ensures Extends(t, w.trail)
    ensures w.out.Denies() ==> w.out == DENY
    decreases Fuel(e, depth), 0, 1
  {
    match LookupTargets(e.views(t.calls), req.objType, req.objId, relation)
    case Err(x) => Walk(Fail(StoreFault(x)), t.Called(1))
    case Ok(os) => SubWalk(e, Arrows(req, os, permission), false, t.Called(1), depth)
  }

  // Walks sub-requests until one allows. `userset` says what a sub-request that names no
  // permission means: one direct lookup for a userset, nothing for an arrow target.
  function SubWalk(e: Env, subs: seq<Request>, userset: bool, t: Trail, depth: nat): (w: Walk)
    requires depth <= e.maxDepth
    ensures Extends(t, w.trail)
    ensures w.out.Denies() ==> w.out == DENY
    decreases Fuel(e, depth), 0, 0, |subs|
  {
    if subs == [] then Walk(DENY, t)
    else
      var sub := subs[0];
      if Skipped(sub, userset) then SubWalk(e, subs[1..], userset, t, depth)
      else if sub.Key() in t.visited then SubWalk(e, subs[1..], userset, t.Revisit(), depth)
      else
        match e.schema.GetPermission(sub.objType, sub.perm)
        case None =>
          if !userset then SubWalk(e, subs[1..], userset, t, depth)
          else if LookupDirect(e.views(t.calls), sub.Grant(sub.perm)) == Ok(true)
          then Walk(Answer(true, [DirectPath(sub.Grant(sub.perm))]), t.Called(1))
          else SubWalk(e, subs[1..], userset, t.Called(1), depth)
        case Some(pd) =>
          var w := PermissionWalk(e, sub, pd, t, depth + 1);
          if w.out.Fail? || w.out.allowed then w
          else SubWalk(e, subs[1..], userset, w.trail, depth)
  }

  // What one sub-request contributes: an allow or an error ends the walk over sub-requests, a deny goes on.
  function SubStep(e: Env, sub: Request, userset: bool, t: Trail, depth: nat): Walk
    requires depth <= e.maxDepth
  {
    if Skipped(sub, userset) then Walk(DENY, t)
    else if sub.Key() in t.visited then Walk(DENY, t.Revisit())
    else
      match e.schema.GetPermission(sub.objType, sub.perm)
      case None =>
        if !userset then Walk(DENY, t)
        else if LookupDirect(e.views(t.calls), sub.Grant(sub.perm)) == Ok(true)
        then Walk(Answer(true, [DirectPath(sub.Grant(sub.perm))]), t.Called(1))
        else Walk(DENY, t.Called(1))
      case Some(pd) => PermissionWalk(e, sub, pd, t, depth + 1)
  }

  lemma {:induction false} SubWalkAt(e: Env, subs: seq<Request>, userset: bool, t: Trail, depth: nat, i: nat)
    requires depth <= e.maxDepth && i < |subs|
    ensures var w := SubStep(e, subs[i], userset, t, depth);
            SubWalk(e, subs[i..], userset, t, depth) ==
            if w.out.Fail? || w.out.allowed then w else SubWalk(e, subs[i + 1..], userset, w.trail, depth)
  {
    assert subs[i..][0] == subs[i] && subs[i..][1..] == subs[i + 1..];
  }

  // Without a direct tuple, a relation walk is the walk over the listed usersets.
  lemma {:induction false} UsersetsWalked(e: Env, req: Request, relation: string, t: Trail, depth: nat)
    requires depth <= e.maxDepth
    requires LookupDirect(e.views(t.calls), req.Grant(relation)) == Ok(false) && e.views(t.calls + 1).fault.None?
    ensures RelationWalk(e, req, relation, t, depth) ==
            SubWalk(e, Usersets(req, Subjects(e.views(t.calls + 1).live, req.objType, req.objId, relation)), true, t.Called(2), depth)
  {
  }

  lemma {:induction false} SubWalkExtends(e: Env, subs: seq<Request>, t: Trail, depth: nat)
    requires depth <= e.maxDepth
    ensures t.calls <= SubWalk(e, subs, true, t, depth).trail.calls
  {
    assert Extends(t, SubWalk(e, subs, true, t, depth).trail);
  }

  // A denying relation walk saw no direct tuple and then listed the usersets.
  lemma {:induction false} RelationDenied(e: Env, req: Request, relation: string, t: Trail, depth: nat)
    requires depth <= e.maxDepth && RelationWalk(e, req, relation, t, depth).out.Denies()
    ensures LookupDirect(e.views(t.calls), req.Grant(relation)) == Ok(false) && e.views(t.calls + 1).fault.None?
  {
  }

  const START := Trail({}, 0, 0, 0)

  // A check once its schema is known (pkg/engine/engine.go:133-155): the walk from an empty
  // visited set, then the root permission's own condition.
  function Decide(e: Env, req: Request): Walk {
    match e.schema.GetPermission(req.objType, req.perm)
    case None => Walk(Fail(UnknownPermission), START)
    case Some(pd) =>
      var w := PermissionWalk(e, req, pd, START, 0);
      if !w.out.Allows() || pd.condition.None? then w
      else
        match CondAt(e, w.trail.calls, pd.condition.value, req)
        case CondAllow => Walk(w.out, w.trail.Called(2))
        case CondDeny => Walk(DENY, w.trail.Called(2))
        case CondError => Walk(Fail(ConditionFault), w.trail.Called(2))
  }

  /** Since usersets drop the request context, a relation decides the same whatever context the request brings. */
  lemma {:induction false} RelationIgnoresContext(e: Env, req: Request, context: Attrs, relation: string, t: Trail, depth: nat)
    requires depth <= e.maxDepth
    ensures RelationWalk(e, req.(context := context), relation, t, depth) == RelationWalk(e, req, relation, t, depth)
  {
    var other := req.(context := context);
    forall us: seq<SubjectRef>
      ensures Usersets(other, us) == Usersets(req, us)
    {
    }
  }
}
