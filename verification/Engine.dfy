/**
 The check engine (pkg/engine/check.go, pkg/engine/engine.go) in its own shape: seven walkers that
 share one mutable visited set, each proved against the walk functions.
 */
module Engine {
  import opened Wrappers
  import opened Tuples
  import opened Keys
  import opened Schemas
  import opened WalkSpec
  import opened Tenants
  import opened Registries

  // The store as one check sees it: call number `calls` is answered from the view of that moment.
  class Feed {
    const views: nat -> View
    var calls: nat

    constructor (views: nat -> View)
      ensures this.views == views && calls == 0
    {
      this.views := views;
      calls := 0;
    }

    method CheckDirect(id: Identity) returns (r: Result<bool, StoreError>)
      modifies this
      ensures calls == old(calls) + 1
      ensures r == LookupDirect(views(old(calls)), id)
    {
      r := LookupDirect(views(calls), id);
      calls := calls + 1;
    }

    method ListSubjects(objType: string, objId: string, relation: string) returns (r: Result<seq<SubjectRef>, StoreError>)
      modifies this
      ensures calls == old(calls) + 1
      ensures r == LookupSubjects(views(old(calls)), objType, objId, relation)
    {
      r := LookupSubjects(views(calls), objType, objId, relation);
      calls := calls + 1;
    }

    method ListRelatedObjects(objType: string, objId: string, relation: string) returns (r: Result<seq<ObjectRef>, StoreError>)
      modifies this
      ensures calls == old(calls) + 1
      ensures r == LookupTargets(views(old(calls)), objType, objId, relation)
    {
      r := LookupTargets(views(calls), objType, objId, relation);
      calls := calls + 1;
    }

    method GetObjectAttributes(typ: string, id: string) returns (attrs: Attrs)
      modifies this
      ensures calls == old(calls) + 1
      ensures attrs == ObjectAttrs(views(old(calls)), typ, id)
    {
      attrs := ObjectAttrs(views(calls), typ, id);
      calls := calls + 1;
    }

    method GetSubjectAttributes(typ: string, id: string) returns (attrs: Attrs)
      modifies this
      ensures calls == old(calls) + 1
      ensures attrs == SubjectAttrs(views(old(calls)), typ, id)
    {
      attrs := SubjectAttrs(views(calls), typ, id);
      calls := calls + 1;
    }
  }

  // The visited set of one check; the source's map only ever holds true, so its keys are a set.
  // The two ghost counters record revisits and expansions.
  class VisitedSet {
    var keys: set<string>
    ghost var revisits: nat
    ghost var expanded: nat

    constructor ()
      ensures keys == {} && revisits == 0 && expanded == 0
    {
      keys := {};
      revisits, expanded := 0, 0;
    }

    method Has(key: string) returns (found: bool)
      modifies this`revisits
      ensures found == (key in keys)
      ensures revisits == old(revisits) + if found then 1 else 0
    {
      found := key in keys;
      if found {
        revisits := revisits + 1;
      }
    }

    method Add(key: string)
      modifies this`keys, this`expanded
      ensures keys == old(keys) + {key}
      ensures expanded == old(expanded) + 1
    {
      keys := keys + {key};
      expanded := expanded + 1;
    }
  }

  ghost function TrailOf(visited: VisitedSet, feed: Feed): Trail
    reads visited, feed
  {
    Trail(visited.keys, feed.calls, visited.revisits, visited.expanded)
  }

  class Engine {
    const feed: Feed
    const maxCheckDepth: int
    const compiles: string -> bool
    const holds: (string, Attrs, Attrs, Attrs) -> CondOutcome
    var schemas: map<string, Schema>
    var sharedSchemas: map<string, Schema>

    constructor (feed: Feed, maxCheckDepth: int, compiles: string -> bool, holds: (string, Attrs, Attrs, Attrs) -> CondOutcome)
      ensures this.feed == feed && this.maxCheckDepth == maxCheckDepth && this.compiles == compiles && this.holds == holds
      ensures schemas == map[] && sharedSchemas == map[]
    {
      this.feed, this.maxCheckDepth, this.compiles, this.holds := feed, maxCheckDepth, compiles, holds;
      schemas, sharedSchemas := map[], map[];
    }

    ghost function EnvFor(cs: Schema): Env {
      Env(cs, maxCheckDepth, feed.views, compiles, holds)
    }

    function Loads(): Registry
      reads this`schemas, this`sharedSchemas
    {
      Registry(schemas, sharedSchemas)
    }

    // From now on the tenant's own checks use the new schema, and all others what they used before.
    method LoadSchema(tenantId: string, cs: Schema)
      modifies this`schemas
      ensures Loads() == old(Loads()).With(ForTenant(tenantId, cs))
      ensures forall tc :: SchemaForTenant(tc) == if ForTenant(tenantId, cs).Serves(tc) then Ok(cs) else old(SchemaForTenant(tc))
    {
      schemas := schemas[tenantId := cs];
    }

    method LoadSharedSchema(ref: string, cs: Schema)
      modifies this`sharedSchemas
      ensures Loads() == old(Loads()).With(ForRef(ref, cs))
      ensures forall tc :: SchemaForTenant(tc) == if ForRef(ref, cs).Serves(tc) then Ok(cs) else old(SchemaForTenant(tc))
    {
      sharedSchemas := sharedSchemas[ref := cs];
    }

    function SchemaForTenant(tc: TenantContext): Result<Schema, Fault>
      reads this`schemas, this`sharedSchemas
    {
      Loads().SchemaFor(tc)
    }

    ghost function CheckOutcome(ctx: Option<TenantContext>, req: Request): Outcome
      reads this`schemas, this`sharedSchemas
    {
      WholeCheck(Loads(), EnvFor(Schema(map[])), ctx, req)
    }

    method Check(ctx: Option<TenantContext>, req: Request) returns (r: Outcome)
      requires feed.calls == 0
      modifies feed
      ensures r == CheckOutcome(ctx, req)
    {
      if ctx.None? {
        return Fail(NoTenantContext);
      }
      var tc := ctx.value;
      if tc.tenant.status == Deleted {
        return Fail(TenantGone);
      }
      if !tc.tenant.IsReadable() {
        return Fail(TenantNotReadable);
      }
      var found := SchemaForTenant(tc);
      if found.Err? {
        return Fail(found.error);
      }
      var cs := found.value;
      assert EnvFor(Schema(map[])).(schema := cs) == EnvFor(cs);
      var permDef := cs.GetPermission(req.objType, req.perm);
      if permDef.None? {
        return Fail(UnknownPermission);
      }
      var visited := new VisitedSet();
      assert TrailOf(visited, feed) == START;
      r := WalkPermission(req, cs, permDef.value, visited, 0);
      if r.Fail? {
        return;
      }
      if r.allowed && permDef.value.condition.Some? {
        var o := EvaluateCondition(req, permDef.value.condition.value, cs, visited);
        match o
        case CondError => return Fail(ConditionFault);
        case CondDeny => return DENY;
        case CondAllow =>
      }
    }

    // Reads the attributes of object and subject, then runs the condition.
    method EvaluateCondition(req: Request, text: string, ghost cs: Schema, ghost visited: VisitedSet) returns (o: CondOutcome)
      modifies feed
      ensures o == CondAt(EnvFor(cs), old(feed.calls), text, req)
      ensures TrailOf(visited, feed) == old(TrailOf(visited, feed)).Called(2)
    {
      var objAttrs := feed.GetObjectAttributes(req.objType, req.objId);
      var subAttrs := feed.GetSubjectAttributes(req.subType, req.subId);
      o := holds(text, objAttrs, subAttrs, req.context);
    }

    method WalkPermission(req: Request, cs: Schema, permDef: PermissionDef, visited: VisitedSet, depth: nat) returns (r: Outcome)
      modifies visited, feed
      ensures Walk(r, TrailOf(visited, feed)) == PermissionWalk(EnvFor(cs), req, permDef, old(TrailOf(visited, feed)), depth)
      decreases Fuel(EnvFor(cs), depth), 3, 0
    {
      if depth > maxCheckDepth {
        return Fail(DepthExceeded);
      }
      var key := VisitKey(req.objType, req.objId, permDef.name, req.subType, req.subId);
      var seen := visited.Has(key);
      if seen {
        return DENY;
      }
      visited.Add(key);
      match permDef.operation
      case Union => r := WalkUnion(req, cs, permDef, visited, depth);
      case DirectOp => r := WalkUnion(req, cs, permDef, visited, depth);
      case Intersect => r := WalkIntersect(req, cs, permDef, visited, depth);
      case Exclusion => r := WalkExclusion(req, cs, permDef, visited, depth);
      case OtherOp(_) => r := Fail(UnknownOperation);
    }

    method WalkUnion(req: Request, cs: Schema, permDef: PermissionDef, visited: VisitedSet, depth: nat) returns (r: Outcome)
      requires depth <= maxCheckDepth
      modifies visited, feed
      ensures Walk(r, TrailOf(visited, feed)) == ListWalk(EnvFor(cs), req, permDef.children, true, old(TrailOf(visited, feed)), depth)
      decreases Fuel(EnvFor(cs), depth), 2, 0
    {
      var i := 0;
      while i < |permDef.children|
        invariant 0 <= i <= |permDef.children|
        invariant ListWalk(EnvFor(cs), req, permDef.children, true, old(TrailOf(visited, feed)), depth)
               == ListWalk(EnvFor(cs), req, permDef.children[i..], true, TrailOf(visited, feed), depth)
      {
        r := WalkChild(req, cs, permDef.children[i], visited, depth);
        assert permDef.children[i..][1..] == permDef.children[i + 1..];
        if r.Fail? || r.allowed {
          return;
        }
        i := i + 1;
      }
      return DENY;
    }

    method WalkIntersect(req: Request, cs: Schema, permDef: PermissionDef, visited: VisitedSet, depth: nat) returns (r: Outcome)
      requires depth <= maxCheckDepth
      modifies visited, feed
      ensures Walk(r, TrailOf(visited, feed)) ==
              if permDef.children == [] then Walk(DENY, old(TrailOf(visited, feed)))
              else ListWalk(EnvFor(cs), req, permDef.children, false, old(TrailOf(visited, feed)), depth)
      decreases Fuel(EnvFor(cs), depth), 2, 0
    {
      if |permDef.children| == 0 {
        return DENY;
      }
      var i := 0;
      while i < |permDef.children|
        invariant 0 <= i <= |permDef.children|
        invariant ListWalk(EnvFor(cs), req, permDef.children, false, old(TrailOf(visited, feed)), depth)
               == ListWalk(EnvFor(cs), req, permDef.children[i..], false, TrailOf(visited, feed), depth)
      {
        r := WalkChild(req, cs, permDef.children[i], visited, depth);
        assert permDef.children[i..][1..] == permDef.children[i + 1..];
        if r.Fail? {
          return;
        }
        if !r.allowed {
          return DENY;
        }
        i := i + 1;
      }
      return ALLOW;
    }

    method WalkExclusion(req: Request, cs: Schema, permDef: PermissionDef, visited: VisitedSet, depth: nat) returns (r: Outcome)
      requires depth <= maxCheckDepth
      modifies visited, feed
      ensures var t := old(TrailOf(visited, feed));
              Walk(r, TrailOf(visited, feed)) ==
              if permDef.children == [] then Walk(DENY, t)
              else
                var base := ChildWalk(EnvFor(cs), req, permDef.children[0], t, depth);
                if !base.out.Allows() then base
                else
                  var rest := ListWalk(EnvFor(cs), req, permDef.children[1..], true, base.trail, depth);
                  if rest.out.Fail? then rest
                  else Walk(if rest.out.allowed then DENY else ALLOW, rest.trail)
      decreases Fuel(EnvFor(cs), depth), 2, 0
    {
      if |permDef.children| == 0 {
        return DENY;
      }
      r := WalkChild(req, cs, permDef.children[0], visited, depth);
      if r.Fail? || !r.allowed {
        return;
      }
      ghost var t1 := TrailOf(visited, feed);
      var i := 1;
      while i < |permDef.children|
        invariant 1 <= i <= |permDef.children|
        invariant ListWalk(EnvFor(cs), req, permDef.children[1..], true, t1, depth)
               == ListWalk(EnvFor(cs), req, permDef.children[i..], true, TrailOf(visited, feed), depth)
      {
        r := WalkChild(req, cs, permDef.children[i], visited, depth);
        assert permDef.children[i..][1..] == permDef.children[i + 1..];
        if r.Fail? {
          return;
        }
        if r.allowed {
          return DENY;
        }
        i := i + 1;
      }
      return ALLOW;
    }

    method WalkChild(req: Request, cs: Schema, child: PermissionRef, visited: VisitedSet, depth: nat) returns (r: Outcome)
      requires depth <= maxCheckDepth
      modifies visited, feed
      ensures Walk(r, TrailOf(visited, feed)) == ChildWalk(EnvFor(cs), req, child, old(TrailOf(visited, feed)), depth)
      decreases Fuel(EnvFor(cs), depth), 1, 0
    {
      match child.Kind()
      case RelationKind => r := WalkRelation(req, cs, child.relationRef, visited, depth);
      case ArrowKind => r := WalkArrow(req, cs, child.arrowRef, child.arrowPermission, visited, depth);
      case ConditionKind =>
        if !compiles(child.conditionExpr) {
          return Fail(ConditionFault);
        }
        var o := EvaluateCondition(req, child.conditionExpr, cs, visited);
        match o
        case CondError => r := Fail(ConditionFault);
        case CondAllow => r := ALLOW;
        case CondDeny => r := DENY;
    }

    method WalkRelation(req: Request, cs: Schema, relation: string, visited: VisitedSet, depth: nat) returns (r: Outcome)
      requires depth <= maxCheckDepth
      modifies visited, feed
      ensures Walk(r, TrailOf(visited, feed)) == RelationWalk(EnvFor(cs), req, relation, old(TrailOf(visited, feed)), depth)
      decreases Fuel(EnvFor(cs), depth), 0, 1
    {
      ghost var t := TrailOf(visited, feed);
      var direct := feed.CheckDirect(req.Grant(relation));
      if direct.Err? {
        return Fail(StoreFault(direct.error));
      }
      if direct.value {
        return Answer(true, [DirectPath(req.Grant(relation))]);
      }
      var listed := feed.ListSubjects(req.objType, req.objId, relation);
      assert TrailOf(visited, feed) == t.Called(2);
      if listed.Err? {
        return Fail(StoreFault(listed.error));
      }
      assert RelationWalk(EnvFor(cs), req, relation, t, depth)
          == SubWalk(EnvFor(cs), Usersets(req, listed.value), true, t.Called(2), depth);
      r := WalkSubjects(req, cs, listed.value, visited, depth);
    }

    // The loop of WalkRelation over the listed subjects.
    method WalkSubjects(req: Request, cs: Schema, subjects: seq<SubjectRef>, visited: VisitedSet, depth: nat) returns (r: Outcome)
      requires depth <= maxCheckDepth
      modifies visited, feed
      ensures Walk(r, TrailOf(visited, feed)) == SubWalk(EnvFor(cs), Usersets(req, subjects), true, old(TrailOf(visited, feed)), depth)
      decreases Fuel(EnvFor(cs), depth), 0, 0
    {
      ghost var subs := Usersets(req, subjects);
      var i := 0;
      while i < |subjects|
        invariant 0 <= i <= |subjects|
        invariant SubWalk(EnvFor(cs), subs, true, old(TrailOf(visited, feed)), depth)
               == SubWalk(EnvFor(cs), subs[i..], true, TrailOf(visited, feed), depth)
      {
        var subj := subjects[i];
        SubWalkAt(EnvFor(cs), subs, true, TrailOf(visited, feed), depth, i);
        ghost var step := SubStep(EnvFor(cs), req.Userset(subj), true, TrailOf(visited, feed), depth);
        if subj.relation != "" {
          var subReq := req.Userset(subj);
          var seen := visited.Has(subReq.Key());
          if !seen {
            var subPermDef := cs.GetPermission(subj.typ, subj.relation);
            if subPermDef.None? {
              var subOk := feed.CheckDirect(subReq.Grant(subj.relation));
              if subOk == Ok(true) {
                return Answer(true, [DirectPath(subReq.Grant(subj.relation))]);
              }
            } else {
              r := WalkPermission(subReq, cs, subPermDef.value, visited, depth + 1);
              if r.Fail? || r.allowed {
                return;
              }
            }
          }
        }
        assert step == Walk(DENY, TrailOf(visited, feed));
        i := i + 1;
      }
      return DENY;
    }

    method WalkArrow(req: Request, cs: Schema, relation: string, permission: string, visited: VisitedSet, depth: nat) returns (r: Outcome)
      requires depth <= maxCheckDepth
      modifies visited, feed
      ensures Walk(r, TrailOf(visited, feed)) == ArrowWalk(EnvFor(cs), req, relation, permission, old(TrailOf(visited, feed)), depth)
      decreases Fuel(EnvFor(cs), depth), 0, 1
    {
      var listed := feed.ListRelatedObjects(req.objType, req.objId, relation);
      if listed.Err? {
        return Fail(StoreFault(listed.error));
      }
      r := WalkTargets(req, cs, listed.value, permission, visited, depth);
    }

    // The loop of WalkArrow over the related objects.
    method WalkTargets(req: Request, cs: Schema, targets: seq<ObjectRef>, permission: string, visited: VisitedSet, depth: nat)
      returns (r: Outcome)
      requires depth <= maxCheckDepth
      modifies visited, feed
      ensures Walk(r, TrailOf(visited, feed)) ==
              SubWalk(EnvFor(cs), Arrows(req, targets, permission), false, old(TrailOf(visited, feed)), depth)
      decreases Fuel(EnvFor(cs), depth), 0, 0
    {
      ghost var subs := Arrows(req, targets, permission);
      var i := 0;
      while i < |targets|
        invariant 0 <= i <= |targets|
        invariant SubWalk(EnvFor(cs), subs, false, old(TrailOf(visited, feed)), depth)
               == SubWalk(EnvFor(cs), subs[i..], false, TrailOf(visited, feed), depth)
      {
        var subReq := req.Arrow(targets[i], permission);
        SubWalkAt(EnvFor(cs), subs, false, TrailOf(visited, feed), depth, i);
        ghost var step := SubStep(EnvFor(cs), subReq, false, TrailOf(visited, feed), depth);
        var seen := visited.Has(subReq.Key());
        if !seen {
          var permDef := cs.GetPermission(subReq.objType, permission);
          if permDef.Some? {
            r := WalkPermission(subReq, cs, permDef.value, visited, depth + 1);
            if r.Fail? || r.allowed {
              return;
            }
          }
        }
        assert step == Walk(DENY, TrailOf(visited, feed));
        i := i + 1;
      }
      return DENY;
    }
  }
}
