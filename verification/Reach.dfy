/**
 Which keys a walk can visit, how deep it can go, and what the depth limit can change.
 */
module Reach {
  import opened Wrappers
  import opened Tuples
  import opened Keys
  import opened Schemas
  import opened WalkSpec

  // The walk reads the store during calls start, ..., end - 1.
  datatype Window = Window(start: nat, end: nat) {
    predicate Contains(t: Trail, w: Walk) {
      start <= t.calls && w.trail.calls <= end
    }
  }

  // Node n asks about node m because of stored tuple id.
  ghost predicate Asks(s: Schema, n: Node, id: Identity, m: Node) {
    && s.Def(n).Some? && s.Def(m).Some?
    && id.objType == n.objType && id.objId == n.objId && m.objType == id.subType && m.objId == id.subId
    && exists child :: child in s.Def(n).value.children && match child.Kind()
       case RelationKind => child.relationRef == id.relation && id.subRel != "" && m.perm == id.subRel
       case ArrowKind => child.arrowRef == id.relation && m.perm == child.arrowPermission
       case ConditionKind => false
  }

  // Every node a member of `nodes` can ask about during the window is a member too.
  ghost predicate Closed(e: Env, x: Window, nodes: iset<Node>) {
    forall n, c: nat, id, m :: n in nodes && x.start <= c < x.end && id in Seen(e.views(c)) && Asks(e.schema, n, id, m) ==> m in nodes
  }

  ghost function KeysOf(nodes: iset<Node>, subType: string, subId: string): iset<string> {
    iset n | n in nodes :: NodeKey(n, subType, subId)
  }

  ghost predicate Within(visited: set<string>, keys: iset<string>) {
    forall k :: k in visited ==> k in keys
  }

  ghost predicate AtMost(keys: iset<string>, n: nat) {
    forall visited: set<string> :: Within(visited, keys) ==> |visited| <= n
  }

  // The keys reachable from `nodes` are few enough for the depth limit.
  ghost predicate Roomy(e: Env, keys: iset<string>) {
    exists n: nat :: AtMost(keys, n) && n <= e.maxDepth + 1
  }

  // Everything the four walkers need to know about the set they stay in.
  ghost predicate Territory(e: Env, x: Window, req: Request, nodes: iset<Node>, t: Trail) {
    && WellNamed(e.schema)
    && Closed(e, x, nodes)
    && Within(t.visited, KeysOf(nodes, req.subType, req.subId))
  }

  ghost predicate Stays(e: Env, req: Request, nodes: iset<Node>, w: Walk, roomy: bool) {
    && Within(w.trail.visited, KeysOf(nodes, req.subType, req.subId))
    && (roomy ==> w.out != Fail(DepthExceeded))
  }

  lemma {:induction false} PermissionStays(e: Env, x: Window, nodes: iset<Node>, req: Request, pd: PermissionDef, t: Trail, depth: nat, roomy: bool)
    requires Territory(e, x, req, nodes, t) && req.Node() in nodes && e.schema.Def(req.Node()) == Some(pd)
    requires x.Contains(t, PermissionWalk(e, req, pd, t, depth))
    requires roomy ==> Roomy(e, KeysOf(nodes, req.subType, req.subId)) && depth <= |t.visited| && req.Key() !in t.visited
    ensures Stays(e, req, nodes, PermissionWalk(e, req, pd, t, depth), roomy)
    decreases Fuel(e, depth), 3, 0
  {
    var keys := KeysOf(nodes, req.subType, req.subId);
    assert req.Key() == NodeKey(req.Node(), req.subType, req.subId);
    assert req.Key() in keys;
    var t1 := t.Enter(req.Key());
    assert Within(t1.visited, keys);
    if roomy {
      RoomLeft(e, keys, t, req.Key(), depth);
    }
    if depth <= e.maxDepth && req.Key() !in t.visited {
      match pd.operation
      case Union => ListStays(e, x, nodes, req, pd, pd.children, true, t1, depth, roomy);
      case DirectOp => ListStays(e, x, nodes, req, pd, pd.children, true, t1, depth, roomy);
      case Intersect =>
        if pd.children != [] {
          ListStays(e, x, nodes, req, pd, pd.children, false, t1, depth, roomy);
        }
      case Exclusion =>
        if pd.children != [] {
          ExclusionStays(e, x, nodes, req, pd, t1, depth, roomy);
        }
      case OtherOp(_) =>
    }
  }

  // While there is room, a fresh key leaves the depth within the limit.
  lemma {:induction false} RoomLeft(e: Env, keys: iset<string>, t: Trail, key: string, depth: nat)
    requires Roomy(e, keys) && key !in t.visited && depth <= |t.visited|
    requires Within(t.Enter(key).visited, keys)
    ensures depth <= e.maxDepth && depth + 1 <= |t.Enter(key).visited|
  {
    assert |t.Enter(key).visited| == |t.visited| + 1;
    var n: nat :| AtMost(keys, n) && n <= e.maxDepth + 1;
    assert |t.Enter(key).visited| <= n;
  }

  lemma {:induction false} ExclusionStays(e: Env, x: Window, nodes: iset<Node>, req: Request, pd: PermissionDef, t: Trail, depth: nat, roomy: bool)
    requires depth <= e.maxDepth && pd.children != []
    requires Territory(e, x, req, nodes, t) && req.Node() in nodes && e.schema.Def(req.Node()) == Some(pd)
    requires var base := ChildWalk(e, req, pd.children[0], t, depth);
             x.Contains(t, if base.out.Allows() then ListWalk(e, req, pd.children[1..], true, base.trail, depth) else base)
    requires roomy ==> Roomy(e, KeysOf(nodes, req.subType, req.subId)) && depth + 1 <= |t.visited|
    ensures var base := ChildWalk(e, req, pd.children[0], t, depth);
            Stays(e, req, nodes, if base.out.Allows() then ListWalk(e, req, pd.children[1..], true, base.trail, depth) else base, roomy)
    decreases Fuel(e, depth), 2, |pd.children|
  {
    var base := ChildWalk(e, req, pd.children[0], t, depth);
    if base.out.Allows() {
      var rest := ListWalk(e, req, pd.children[1..], true, base.trail, depth);
      assert Extends(base.trail, rest.trail);
      ChildStays(e, x, nodes, req, pd, pd.children[0], t, depth, roomy);
      CardinalityMono(t.visited, base.trail.visited);
      ListStays(e, x, nodes, req, pd, pd.children[1..], true, base.trail, depth, roomy);
    } else {
      ChildStays(e, x, nodes, req, pd, pd.children[0], t, depth, roomy);
    }
  }

  lemma {:induction false} ListStays(e: Env, x: Window, nodes: iset<Node>, req: Request, pd: PermissionDef, children: seq<PermissionRef>,
                                     stop: bool, t: Trail, depth: nat, roomy: bool)
    requires depth <= e.maxDepth
    requires Territory(e, x, req, nodes, t) && req.Node() in nodes && e.schema.Def(req.Node()) == Some(pd)
    requires forall c :: c in children ==> c in pd.children
    requires x.Contains(t, ListWalk(e, req, children, stop, t, depth))
    requires roomy ==> Roomy(e, KeysOf(nodes, req.subType, req.subId)) && depth + 1 <= |t.visited|
    ensures Stays(e, req, nodes, ListWalk(e, req, children, stop, t, depth), roomy)
    decreases Fuel(e, depth), 2, |children|
  {
    if children != [] {
      var w := ChildWalk(e, req, children[0], t, depth);
      if !w.out.Fail? && w.out.allowed != stop {
        var rest := ListWalk(e, req, children[1..], stop, w.trail, depth);
        assert Extends(w.trail, rest.trail);
        ChildStays(e, x, nodes, req, pd, children[0], t, depth, roomy);
        CardinalityMono(t.visited, w.trail.visited);
        ListStays(e, x, nodes, req, pd, children[1..], stop, w.trail, depth, roomy);
      } else {
        ChildStays(e, x, nodes, req, pd, children[0], t, depth, roomy);
      }
    }
  }

  lemma {:induction false} ChildStays(e: Env, x: Window, nodes: iset<Node>, req: Request, pd: PermissionDef, child: PermissionRef,
                                      t: Trail, depth: nat, roomy: bool)
    requires depth <= e.maxDepth
    requires Territory(e, x, req, nodes, t) && req.Node() in nodes && e.schema.Def(req.Node()) == Some(pd)
    requires child in pd.children
    requires x.Contains(t, ChildWalk(e, req, child, t, depth))
    requires roomy ==> Roomy(e, KeysOf(nodes, req.subType, req.subId)) && depth + 1 <= |t.visited|
    ensures Stays(e, req, nodes, ChildWalk(e, req, child, t, depth), roomy)
    decreases Fuel(e, depth), 1, 0
  {
    match child.Kind()
    case RelationKind => RelationStays(e, x, nodes, req, pd, child, t, depth, roomy);
    case ArrowKind => ArrowStays(e, x, nodes, req, pd, child, t, depth, roomy);
    case ConditionKind =>
  }

  lemma {:induction false} RelationStays(e: Env, x: Window, nodes: iset<Node>, req: Request, pd: PermissionDef, child: PermissionRef,
                                         t: Trail, depth: nat, roomy: bool)
    requires depth <= e.maxDepth && child.Kind().RelationKind?
    requires Territory(e, x, req, nodes, t) && req.Node() in nodes && e.schema.Def(req.Node()) == Some(pd) && child in pd.children
    requires x.Contains(t, RelationWalk(e, req, child.relationRef, t, depth))
    requires roomy ==> Roomy(e, KeysOf(nodes, req.subType, req.subId)) && depth + 1 <= |t.visited|
    ensures Stays(e, req, nodes, RelationWalk(e, req, child.relationRef, t, depth), roomy)
    decreases Fuel(e, depth), 0, 1
  {
    var v := e.views(t.calls + 1);
    if LookupDirect(e.views(t.calls), req.Grant(child.relationRef)) == Ok(false) && v.fault.None? {
      var us := Subjects(v.live, req.objType, req.objId, child.relationRef);
      var w := SubWalk(e, Usersets(req, us), true, t.Called(2), depth);
      assert RelationWalk(e, req, child.relationRef, t, depth) == w;
      assert Extends(t.Called(2), w.trail);
      UsersetsAsked(e, x, nodes, req, child, t.calls + 1, us);
      SubStays(e, x, nodes, req, Usersets(req, us), true, t.Called(2), depth, roomy);
    }
  }

  lemma {:induction false} ArrowStays(e: Env, x: Window, nodes: iset<Node>, req: Request, pd: PermissionDef, child: PermissionRef,
                                      t: Trail, depth: nat, roomy: bool)
    requires depth <= e.maxDepth && child.Kind().ArrowKind?
    requires Territory(e, x, req, nodes, t) && req.Node() in nodes && e.schema.Def(req.Node()) == Some(pd) && child in pd.children
    requires x.Contains(t, ArrowWalk(e, req, child.arrowRef, child.arrowPermission, t, depth))
    requires roomy ==> Roomy(e, KeysOf(nodes, req.subType, req.subId)) && depth + 1 <= |t.visited|
    ensures Stays(e, req, nodes, ArrowWalk(e, req, child.arrowRef, child.arrowPermission, t, depth), roomy)
    decreases Fuel(e, depth), 0, 1
  {
    var v := e.views(t.calls);
    if v.fault.None? {
      var us := Subjects(v.live, req.objType, req.objId, child.arrowRef);
      var subs := Arrows(req, Targets(us), child.arrowPermission);
      var w := SubWalk(e, subs, false, t.Called(1), depth);
      assert ArrowWalk(e, req, child.arrowRef, child.arrowPermission, t, depth) == w;
      assert Extends(t.Called(1), w.trail);
      ArrowsAsked(e, x, nodes, req, child, t.calls, us);
      SubStays(e, x, nodes, req, subs, false, t.Called(1), depth, roomy);
    }
  }

  ghost predicate Inside(e: Env, req: Request, nodes: iset<Node>, subs: seq<Request>, userset: bool) {
    forall sub :: sub in subs ==>
      && sub.subType == req.subType && sub.subId == req.subId
      && (!Skipped(sub, userset) && e.schema.Def(sub.Node()).Some? ==> sub.Node() in nodes)
  }

  lemma {:induction false} UsersetsAsked(e: Env, x: Window, nodes: iset<Node>, req: Request, child: PermissionRef, c: nat, us: seq<SubjectRef>)
    requires Closed(e, x, nodes) && req.Node() in nodes && x.start <= c < x.end && e.views(c).fault.None?
    requires e.schema.Def(req.Node()).Some? && child in e.schema.Def(req.Node()).value.children && child.Kind().RelationKind?
    requires us == Subjects(e.views(c).live, req.objType, req.objId, child.relationRef)
    ensures Inside(e, req, nodes, Usersets(req, us), true)
  {
    forall sub | sub in Usersets(req, us) && !Skipped(sub, true) && e.schema.Def(sub.Node()).Some?
      ensures sub.Node() in nodes
    {
      var i :| 0 <= i < |us| && Usersets(req, us)[i] == sub;
      assert us[i] in us;
      var id := Identity(req.objType, req.objId, child.relationRef, us[i].typ, us[i].id, us[i].relation);
      assert id in Seen(e.views(c));
      assert Asks(e.schema, req.Node(), id, sub.Node());
    }
  }

  lemma {:induction false} ArrowsAsked(e: Env, x: Window, nodes: iset<Node>, req: Request, child: PermissionRef, c: nat, us: seq<SubjectRef>)
    requires Closed(e, x, nodes) && req.Node() in nodes && x.start <= c < x.end && e.views(c).fault.None?
    requires e.schema.Def(req.Node()).Some? && child in e.schema.Def(req.Node()).value.children && child.Kind().ArrowKind?
    requires us == Subjects(e.views(c).live, req.objType, req.objId, child.arrowRef)
    ensures Inside(e, req, nodes, Arrows(req, Targets(us), child.arrowPermission), false)
  {
    forall sub | sub in Arrows(req, Targets(us), child.arrowPermission) && e.schema.Def(sub.Node()).Some?
      ensures sub.Node() in nodes
    {
      var i :| 0 <= i < |us| && Arrows(req, Targets(us), child.arrowPermission)[i] == sub;
      assert us[i] in us;
      var id := Identity(req.objType, req.objId, child.arrowRef, us[i].typ, us[i].id, us[i].relation);
      assert id in Seen(e.views(c));
      assert Asks(e.schema, req.Node(), id, sub.Node());
    }
  }

  lemma {:induction false} SubStays(e: Env, x: Window, nodes: iset<Node>, req: Request, subs: seq<Request>, userset: bool,
                                    t: Trail, depth: nat, roomy: bool)
    requires depth <= e.maxDepth
    requires Territory(e, x, req, nodes, t)
    requires Inside(e, req, nodes, subs, userset)
    requires x.Contains(t, SubWalk(e, subs, userset, t, depth))
    requires roomy ==> Roomy(e, KeysOf(nodes, req.subType, req.subId)) && depth + 1 <= |t.visited|
    ensures Stays(e, req, nodes, SubWalk(e, subs, userset, t, depth), roomy)
    ensures roomy ==> depth + 1 <= |SubWalk(e, subs, userset, t, depth).trail.visited|
    decreases Fuel(e, depth), 0, 0, |subs|
  {
    if subs != [] {
      var sub, next, goOn := subs[0], t, true;
      if Skipped(sub, userset) {
      } else if sub.Key() in t.visited {
        next := t.Revisit();
      } else if e.schema.Def(sub.Node()).None? {
        if userset {
          next, goOn := t.Called(1), LookupDirect(e.views(t.calls), sub.Grant(sub.perm)) != Ok(true);
        }
      } else {
        var pd := e.schema.Def(sub.Node()).value;
        var w := PermissionWalk(e, sub, pd, t, depth + 1);
        next, goOn := w.trail, w.out.Denies();
        if goOn {
          assert Extends(w.trail, SubWalk(e, subs[1..], userset, w.trail, depth).trail);
        }
        DeclaredStays(e, x, nodes, req, sub, pd, t, depth, roomy);
      }
      if goOn {
        assert SubWalk(e, subs, userset, t, depth) == SubWalk(e, subs[1..], userset, next, depth);
        SubStays(e, x, nodes, req, subs[1..], userset, next, depth, roomy);
      }
    }
  }

  // One sub-request that names a permission.
  lemma {:induction false} DeclaredStays(e: Env, x: Window, nodes: iset<Node>, req: Request, sub: Request, pd: PermissionDef,
                                         t: Trail, depth: nat, roomy: bool)
    requires depth <= e.maxDepth && Territory(e, x, req, nodes, t)
    requires sub.subType == req.subType && sub.subId == req.subId && sub.Node() in nodes
    requires e.schema.Def(sub.Node()) == Some(pd) && sub.Key() !in t.visited
    requires x.Contains(t, PermissionWalk(e, sub, pd, t, depth + 1))
    requires roomy ==> Roomy(e, KeysOf(nodes, req.subType, req.subId)) && depth + 1 <= |t.visited|
    ensures Stays(e, req, nodes, PermissionWalk(e, sub, pd, t, depth + 1), roomy)
    ensures roomy ==> depth + 1 <= |PermissionWalk(e, sub, pd, t, depth + 1).trail.visited|
    decreases Fuel(e, depth), 0, 0, 0
  {
    PermissionStays(e, x, nodes, sub, pd, t, depth + 1, roomy);
    CardinalityMono(t.visited, PermissionWalk(e, sub, pd, t, depth + 1).trail.visited);
  }

  lemma {:induction false} CardinalityMono<T>(a: set<T>, b: set<T>)
    requires a <= b
    ensures |a| <= |b|
  {
    if a != {} {
      var y :| y in a;
      CardinalityMono(a - {y}, b - {y});
    }
  }
}
