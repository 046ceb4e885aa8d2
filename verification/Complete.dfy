/**
 The shared visited set never causes a wrong deny on linear schemas.

 An allow inside the walk always propagates to the root there, so while a walk is denying,
 every finished key is refuted: no rule derives it from nodes outside the visited set.
 */
module Complete {
  import opened Wrappers
  import opened Tuples
  import opened Keys
  import opened Schemas
  import opened WalkSpec
  import opened Rules
  import opened Reach
  import opened Bracket

  // Requests about this subject outside `visited` (and any request about another subject).
  ghost function Unvisited(subject: Request, visited: set<string>): Request -> bool {
    (r: Request) => r.subType == subject.subType && r.subId == subject.subId ==> r.Key() !in visited
  }

  // No rule derives r from requests outside `visited`.
  ghost predicate Refuted(b: Bounds, r: Request, visited: set<string>) {
    !Holds(b.e.schema, b.lo, b.hi, r, Unvisited(r, visited), Unvisited(r, visited))
  }

  // Every key finished between `before` and `after` is refuted.
  ghost predicate NewRefuted(b: Bounds, req: Request, before: set<string>, after: set<string>) {
    forall r: Request ::
      (r.subType == req.subType && r.subId == req.subId && r.Node() in b.nodes && r.Key() in after && r.Key() !in before)
      ==> Refuted(b, r, after)
  }

  // The inline conditions in reach do not look at the request context.
  ghost predicate IgnoresContext(b: Bounds, f: Facts) {
    forall text, r: Request, c :: Inline(b.e.schema, b.nodes, text) ==> f.cond(text, r) == f.cond(text, r.(context := c))
  }

  ghost predicate UnvisitedLinear(b: Bounds, req: Request, visited: set<string>) {
    forall r: Request :: (r.subType == req.subType && r.subId == req.subId && r.Node() in b.nodes && r.Key() !in visited
                          && b.e.schema.Def(r.Node()).Some?)
      ==> LinearDef(b.e.schema, b.hi, r, b.e.schema.Def(r.Node()).value)
  }

  // What a denying walk relies on: nodes not yet visited are linear, visited ones have leaves for excluded children.
  ghost predicate Setting(b: Bounds, req: Request, t: Trail) {
    && Covers(b) && Apart(b.e.schema, b.hi) && TailsAreLeaves(b.e.schema, b.hi, b.nodes)
    && IgnoresContext(b, b.lo) && IgnoresContext(b, b.hi)
    && Within(t.visited, b.KeysFor(req)) && UnvisitedLinear(b, req, t.visited)
  }

  lemma {:induction false} RefutedGrows(b: Bounds, r: Request, small: set<string>, large: set<string>)
    requires r.Node() in b.nodes && TailsAreLeaves(b.e.schema, b.hi, b.nodes) && small <= large && Refuted(b, r, small)
    ensures Refuted(b, r, large)
  {
    if !Refuted(b, r, large) {
      HoldsMono(b.e.schema, b.lo, b.hi, r, Unvisited(r, large), Unvisited(r, small), Unvisited(r, large), Unvisited(r, small));
    }
  }

  lemma {:induction false} NewRefutedChain(b: Bounds, req: Request, v0: set<string>, v1: set<string>, v2: set<string>)
    requires TailsAreLeaves(b.e.schema, b.hi, b.nodes) && v1 <= v2
    requires NewRefuted(b, req, v0, v1) && NewRefuted(b, req, v1, v2)
    ensures NewRefuted(b, req, v0, v2)
  {
    forall r: Request | r.subType == req.subType && r.subId == req.subId && r.Node() in b.nodes
                     && r.Key() in v2 && r.Key() !in v0
      ensures Refuted(b, r, v2)
    {
      if r.Key() in v1 {
        RefutedGrows(b, r, v1, v2);
      }
    }
  }

  // A child that the rules cannot derive from nodes outside a set stays so as the set grows.
  lemma {:induction false} ChildRefutedGrows(b: Bounds, req: Request, child: PermissionRef, small: set<string>, large: set<string>)
    requires small <= large && !ChildHolds(b.e.schema, b.lo, req, child, Unvisited(req, small))
    ensures !ChildHolds(b.e.schema, b.lo, req, child, Unvisited(req, large))
  {
    if ChildHolds(b.e.schema, b.lo, req, child, Unvisited(req, large)) {
      ChildMono(b.e.schema, b.lo, b.lo, req, child, Unvisited(req, large), Unvisited(req, small));
    }
  }

  // The visit key carries no request context, so refutations must not depend on it.
  lemma {:induction false} RefutedIgnoresContext(b: Bounds, r: Request, r': Request, visited: set<string>)
    requires IgnoresContext(b, b.lo) && IgnoresContext(b, b.hi)
    requires r.Node() in b.nodes && r' == r.(context := r'.context)
    ensures Refuted(b, r, visited) == Refuted(b, r', visited)
  {
    if b.e.schema.Def(r.Node()).Some? {
      forall f, c | (f == b.lo || f == b.hi) && c in b.e.schema.Def(r.Node()).value.children
        ensures ChildHolds(b.e.schema, f, r, c, Unvisited(r, visited)) == ChildHolds(b.e.schema, f, r', c, Unvisited(r', visited))
      {
        ChildContextFree(b, f, r, r', c, visited);
      }
    }
  }

  lemma {:induction false} ChildContextFree(b: Bounds, f: Facts, r: Request, r': Request, child: PermissionRef, visited: set<string>)
    requires IgnoresContext(b, f) && r' == r.(context := r'.context)
    requires r.Node() in b.nodes && b.e.schema.Def(r.Node()).Some? && child in b.e.schema.Def(r.Node()).value.children
    ensures ChildHolds(b.e.schema, f, r, child, Unvisited(r, visited)) == ChildHolds(b.e.schema, f, r', child, Unvisited(r', visited))
  {
    var s := b.e.schema;
    var p, p' := Unvisited(r, visited), Unvisited(r', visited);
    assert forall x :: p(x) == p'(x);
    match child.Kind()
    case RelationKind =>
      forall u
        ensures Related(f, r, child.relationRef, u) == Related(f, r', child.relationRef, u)
        ensures r.Userset(u) == r'.Userset(u)
      {
      }
    case ArrowKind =>
      forall u
        ensures Related(f, r, child.arrowRef, u) == Related(f, r', child.arrowRef, u)
        ensures SubHolds(s, f, r.Arrow(ObjectRef(u.typ, u.id), child.arrowPermission), false, p)
             == SubHolds(s, f, r'.Arrow(ObjectRef(u.typ, u.id), child.arrowPermission), false, p')
      {
      }
    case ConditionKind =>
      assert Inline(s, b.nodes, child.conditionExpr);
  }

  lemma {:induction false} PermissionComplete(b: Bounds, req: Request, pd: PermissionDef, t: Trail, depth: nat)
    requires Setting(b, req, t) && Here(b, req, pd)
    requires b.x.Contains(t, PermissionWalk(b.e, req, pd, t, depth))
    requires PermissionWalk(b.e, req, pd, t, depth).out.Denies()
    ensures var after := PermissionWalk(b.e, req, pd, t, depth).trail.visited;
            req.Key() in after && NewRefuted(b, req, t.visited, after)
    decreases Fuel(b.e, depth), 3, 0
  {
    var w := PermissionWalk(b.e, req, pd, t, depth);
    var key := req.Key();
    if key !in t.visited {
      var t1 := t.Enter(key);
      assert key == NodeKey(req.Node(), req.subType, req.subId);
      assert LinearDef(b.e.schema, b.hi, req, pd);
      match pd.operation {
        case Union => ListComplete(b, req, pd, pd.children, true, t1, depth);
        case DirectOp => ListComplete(b, req, pd, pd.children, true, t1, depth);
        case Intersect =>
          if pd.children != [] {
            ListComplete(b, req, pd, pd.children, false, t1, depth);
          }
        case Exclusion =>
          if pd.children != [] {
            ExclusionComplete(b, req, pd, t1, depth);
          }
        case OtherOp(_) =>
      }
      assert Refuted(b, req, w.trail.visited);
      EntryRefuted(b, req, t.visited, w.trail.visited);
    }
  }

  // A refuted entry completes what was refuted below it, whatever contexts its key stands for.
  lemma {:induction false} EntryRefuted(b: Bounds, req: Request, before: set<string>, after: set<string>)
    requires b.nodes <= Declared(b.e.schema) && SafeNames(b.e.schema) && IgnoresContext(b, b.lo) && IgnoresContext(b, b.hi)
    requires req.Node() in b.nodes && Refuted(b, req, after) && NewRefuted(b, req, before + {req.Key()}, after)
    ensures NewRefuted(b, req, before, after)
  {
    forall r: Request | r.subType == req.subType && r.subId == req.subId && r.Node() in b.nodes
                     && r.Key() in after && r.Key() !in before
      ensures Refuted(b, r, after)
    {
      if r.Key() == req.Key() {
        VisitKeyInjective(r.Node(), req.Node(), req.subType, req.subId);
        RefutedIgnoresContext(b, req, r, after);
      }
    }
  }

  lemma {:induction false} ExclusionComplete(b: Bounds, req: Request, pd: PermissionDef, t: Trail, depth: nat)
    requires depth <= b.e.maxDepth && Setting(b, req, t) && Here(b, req, pd)
    requires pd.operation.Exclusion? && pd.children != [] && LinearDef(b.e.schema, b.hi, req, pd)
    requires var base := ChildWalk(b.e, req, pd.children[0], t, depth);
             if base.out.Allows() then
               var rest := ListWalk(b.e, req, pd.children[1..], true, base.trail, depth);
               b.x.Contains(t, rest) && rest.out.Allows()
             else b.x.Contains(t, base) && base.out.Denies()
    ensures var base := ChildWalk(b.e, req, pd.children[0], t, depth);
            var after := if base.out.Allows()
                         then ListWalk(b.e, req, pd.children[1..], true, base.trail, depth).trail.visited
                         else base.trail.visited;
            Refuted(b, req, after) && after == t.visited
    decreases Fuel(b.e, depth), 2, |pd.children| + 1
  {
    var s := b.e.schema;
    var base := ChildWalk(b.e, req, pd.children[0], t, depth);
    assert Leaf(s, b.hi, req, pd.children[0]);
    if base.out.Allows() {
      var rest := ListWalk(b.e, req, pd.children[1..], true, base.trail, depth);
      assert Extends(base.trail, rest.trail);
      LeafKeeps(b, req, pd.children[0], t, depth);
      LeavesKeep(b, req, pd.children[1..], true, base.trail, depth);
      var k := Fuel(b.e, depth + 1);
      ListBracket(b, req, pd, pd.children[1..], true, base.trail, depth, k, false);
      var c :| c in pd.children[1..] && Up(b, req, c, k);
      LeafIgnores(s, b.hi, req, c, Upto(s, b.hi, b.lo, k), Unvisited(req, t.visited));
    } else {
      LeafKeeps(b, req, pd.children[0], t, depth);
      ChildComplete(b, req, pd, pd.children[0], t, depth);
    }
  }

  lemma {:induction false} ListComplete(b: Bounds, req: Request, pd: PermissionDef, children: seq<PermissionRef>, stop: bool, t: Trail, depth: nat)
    requires depth <= b.e.maxDepth && Setting(b, req, t) && Here(b, req, pd)
    requires forall c :: c in children ==> c in pd.children
    requires !stop && children != [] ==> forall c :: c in children[..|children| - 1] ==> Leaf(b.e.schema, b.hi, req, c)
    requires b.x.Contains(t, ListWalk(b.e, req, children, stop, t, depth))
    requires ListWalk(b.e, req, children, stop, t, depth).out.Denies()
    ensures var after := ListWalk(b.e, req, children, stop, t, depth).trail.visited;
            && NewRefuted(b, req, t.visited, after)
            && (stop ==> forall c :: c in children ==> !ChildHolds(b.e.schema, b.lo, req, c, Unvisited(req, after)))
            && (!stop ==> exists c :: c in children && !ChildHolds(b.e.schema, b.lo, req, c, Unvisited(req, after)))
    decreases Fuel(b.e, depth), 2, |children|
  {
    if children != [] {
      var w := ChildWalk(b.e, req, children[0], t, depth);
      if w.out.allowed == stop {
        ChildComplete(b, req, pd, children[0], t, depth);
      } else {
        var rest := ListWalk(b.e, req, children[1..], stop, w.trail, depth);
        assert Extends(w.trail, rest.trail);
        assert children == [children[0]] + children[1..];
        ChildStays(b.e, b.x, b.nodes, req, pd, children[0], t, depth, false);
        if stop {
          ChildComplete(b, req, pd, children[0], t, depth);
          ListComplete(b, req, pd, children[1..], stop, w.trail, depth);
          NewRefutedChain(b, req, t.visited, w.trail.visited, rest.trail.visited);
          ChildRefutedGrows(b, req, children[0], w.trail.visited, rest.trail.visited);
        } else {
          assert |children| > 1;
          assert children[0] in children[..|children| - 1];
          LeafKeeps(b, req, children[0], t, depth);
          ListComplete(b, req, pd, children[1..], stop, w.trail, depth);
        }
      }
    }
  }

  lemma {:induction false} ChildComplete(b: Bounds, req: Request, pd: PermissionDef, child: PermissionRef, t: Trail, depth: nat)
    requires depth <= b.e.maxDepth && Setting(b, req, t) && Here(b, req, pd) && child in pd.children
    requires b.x.Contains(t, ChildWalk(b.e, req, child, t, depth))
    requires ChildWalk(b.e, req, child, t, depth).out.Denies()
    ensures var after := ChildWalk(b.e, req, child, t, depth).trail.visited;
            NewRefuted(b, req, t.visited, after) && !ChildHolds(b.e.schema, b.lo, req, child, Unvisited(req, after))
    decreases Fuel(b.e, depth), 1, 0
  {
    match child.Kind()
    case RelationKind => RelationComplete(b, req, pd, child, t, depth);
    case ArrowKind => ArrowComplete(b, req, pd, child, t, depth);
    case ConditionKind =>
      var o := CondAt(b.e, t.calls, child.conditionExpr, req);
  }

  lemma {:induction false} RelationComplete(b: Bounds, req: Request, pd: PermissionDef, child: PermissionRef, t: Trail, depth: nat)
    requires depth <= b.e.maxDepth && Setting(b, req, t) && child.Kind().RelationKind? && Here(b, req, pd) && child in pd.children
    requires b.x.Contains(t, RelationWalk(b.e, req, child.relationRef, t, depth))
    requires RelationWalk(b.e, req, child.relationRef, t, depth).out.Denies()
    ensures var after := RelationWalk(b.e, req, child.relationRef, t, depth).trail.visited;
            NewRefuted(b, req, t.visited, after) && !RelationHolds(b.e.schema, b.lo, req, child.relationRef, Unvisited(req, after))
    decreases Fuel(b.e, depth), 0, 1
  {
    var us := Subjects(b.e.views(t.calls + 1).live, req.objType, req.objId, child.relationRef);
    var subs := Usersets(req, us);
    var w := SubWalk(b.e, subs, true, t.Called(2), depth);
    RelationDenied(b.e, req, child.relationRef, t, depth);
    UsersetsWalked(b.e, req, child.relationRef, t, depth);
    SubWalkExtends(b.e, subs, t.Called(2), depth);
    UsersetsInReach(b, req, pd, child, t, t.calls + 1);
    SubComplete(b, req, subs, true, t.Called(2), depth);
    RelationRefuted(b, req, child.relationRef, t, Unvisited(req, w.trail.visited));
  }

  // Neither a direct tuple at this call nor a userset listed at the next one yields the relation.
  lemma {:induction false} RelationRefuted(b: Bounds, req: Request, relation: string, t: Trail, p: Request -> bool)
    requires Setting(b, req, t) && b.x.start <= t.calls && t.calls + 1 < b.x.end && b.e.views(t.calls + 1).fault.None?
    requires LookupDirect(b.e.views(t.calls), req.Grant(relation)) == Ok(false)
    requires var us := Subjects(b.e.views(t.calls + 1).live, req.objType, req.objId, relation);
             forall sub :: sub in Usersets(req, us) ==> !SubHolds(b.e.schema, b.lo, sub, true, p)
    ensures !RelationHolds(b.e.schema, b.lo, req, relation, p)
  {
    var c := t.calls;
    NotDirect(b, req.Grant(relation), c);
    RelationFromSubs(b, req, relation, c + 1, p, p);
  }

  lemma {:induction false} ArrowComplete(b: Bounds, req: Request, pd: PermissionDef, child: PermissionRef, t: Trail, depth: nat)
    requires depth <= b.e.maxDepth && Setting(b, req, t) && child.Kind().ArrowKind? && Here(b, req, pd) && child in pd.children
    requires b.x.Contains(t, ArrowWalk(b.e, req, child.arrowRef, child.arrowPermission, t, depth))
    requires ArrowWalk(b.e, req, child.arrowRef, child.arrowPermission, t, depth).out.Denies()
    ensures var after := ArrowWalk(b.e, req, child.arrowRef, child.arrowPermission, t, depth).trail.visited;
            && NewRefuted(b, req, t.visited, after)
            && !ArrowHolds(b.e.schema, b.lo, req, child.arrowRef, child.arrowPermission, Unvisited(req, after))
    decreases Fuel(b.e, depth), 0, 1
  {
    var us := Subjects(b.e.views(t.calls).live, req.objType, req.objId, child.arrowRef);
    var subs := Arrows(req, Targets(us), child.arrowPermission);
    var w := SubWalk(b.e, subs, false, t.Called(1), depth);
    assert ArrowWalk(b.e, req, child.arrowRef, child.arrowPermission, t, depth) == w;
    assert Extends(t.Called(1), w.trail);
    ArrowsAsked(b.e, b.x, b.nodes, req, child, t.calls, us);
    SubComplete(b, req, subs, false, t.Called(1), depth);
    forall u | Related(b.lo, req, child.arrowRef, u)
      ensures req.Arrow(ObjectRef(u.typ, u.id), child.arrowPermission) in subs
    {
      ArrowListed(req, us, u, child.arrowPermission);
    }
  }

  lemma {:induction false} UsersetsInReach(b: Bounds, req: Request, pd: PermissionDef, child: PermissionRef, t: Trail, c: nat)
    requires Setting(b, req, t) && Here(b, req, pd) && child in pd.children && child.Kind().RelationKind?
    requires b.x.start <= c < b.x.end && b.e.views(c).fault.None?
    ensures var us := Subjects(b.e.views(c).live, req.objType, req.objId, child.relationRef);
            && Inside(b.e, req, b.nodes, Usersets(req, us), true)
            && forall sub :: sub in Usersets(req, us) && !Skipped(sub, true) ==> SafeNode(sub.Node())
  {
    var us := Subjects(b.e.views(c).live, req.objType, req.objId, child.relationRef);
    UsersetsAsked(b.e, b.x, b.nodes, req, child, c, us);
    forall sub | sub in Usersets(req, us) && !Skipped(sub, true)
      ensures SafeNode(sub.Node())
    {
      var i :| 0 <= i < |us| && Usersets(req, us)[i] == sub;
      assert us[i] in us;
      assert Identity(req.objType, req.objId, child.relationRef, us[i].typ, us[i].id, us[i].relation) in Seen(b.e.views(c));
    }
  }

  lemma {:induction false} SubComplete(b: Bounds, req: Request, subs: seq<Request>, userset: bool, t: Trail, depth: nat)
    requires depth <= b.e.maxDepth && Setting(b, req, t)
    requires Inside(b.e, req, b.nodes, subs, userset)
    requires userset ==> forall sub :: sub in subs && !Skipped(sub, userset) ==> SafeNode(sub.Node())
    requires b.x.Contains(t, SubWalk(b.e, subs, userset, t, depth))
    requires SubWalk(b.e, subs, userset, t, depth).out.Denies()
    ensures var after := SubWalk(b.e, subs, userset, t, depth).trail.visited;
            && NewRefuted(b, req, t.visited, after)
            && forall sub :: sub in subs ==> !SubHolds(b.e.schema, b.lo, sub, userset, Unvisited(req, after))
    decreases Fuel(b.e, depth), 0, 0, |subs|
  {
    if subs != [] {
      var s, sub := b.e.schema, subs[0];
      assert subs == [sub] + subs[1..];
      if Skipped(sub, userset) {
        SubComplete(b, req, subs[1..], userset, t, depth);
      } else if sub.Key() in t.visited {
        var rest := SubWalk(b.e, subs[1..], userset, t.Revisit(), depth);
        assert Extends(t.Revisit(), rest.trail);
        SubComplete(b, req, subs[1..], userset, t.Revisit(), depth);
        if s.Def(sub.Node()).None? && userset {
          KeyInReach(b, req, sub, t.visited);
        }
      } else if s.Def(sub.Node()).None? {
        if !userset {
          SubComplete(b, req, subs[1..], userset, t, depth);
        } else {
          assert Extends(t.Called(1), SubWalk(b.e, subs[1..], userset, t.Called(1), depth).trail);
          SubComplete(b, req, subs[1..], userset, t.Called(1), depth);
          assert sub.Grant(sub.perm) !in b.lo.tuples;
        }
      } else {
        var pd := s.Def(sub.Node()).value;
        var w := PermissionWalk(b.e, sub, pd, t, depth + 1);
        var rest := SubWalk(b.e, subs[1..], userset, w.trail, depth);
        assert Extends(w.trail, rest.trail);
        PermissionComplete(b, sub, pd, t, depth + 1);
        PermissionStays(b.e, b.x, b.nodes, sub, pd, t, depth + 1, false);
        SubComplete(b, req, subs[1..], userset, w.trail, depth);
        assert NewRefuted(b, req, t.visited, w.trail.visited);
        NewRefutedChain(b, req, t.visited, w.trail.visited, rest.trail.visited);
      }
    }
  }

  // Evaluating a leaf does not change the visited set.
  lemma {:induction false} LeafKeeps(b: Bounds, req: Request, child: PermissionRef, t: Trail, depth: nat)
    requires depth <= b.e.maxDepth && Covers(b) && Leaf(b.e.schema, b.hi, req, child)
    requires b.x.Contains(t, ChildWalk(b.e, req, child, t, depth))
    ensures ChildWalk(b.e, req, child, t, depth).trail.visited == t.visited
  {
    var w := ChildWalk(b.e, req, child, t, depth);
    if child.Kind().RelationKind? {
      var v := b.e.views(t.calls + 1);
      assert w == RelationWalk(b.e, req, child.relationRef, t, depth);
      if LookupDirect(b.e.views(t.calls), req.Grant(child.relationRef)) == Ok(false) && v.fault.None? {
        var us := Subjects(v.live, req.objType, req.objId, child.relationRef);
        var subs := Usersets(req, us);
        assert w == SubWalk(b.e, subs, true, t.Called(2), depth);
        assert Extends(t.Called(2), w.trail);
        forall sub | sub in subs && !Skipped(sub, true)
          ensures b.e.schema.Def(sub.Node()).None?
        {
          var i :| 0 <= i < |us| && subs[i] == sub;
          assert us[i] in us;
          assert Identity(req.objType, req.objId, child.relationRef, us[i].typ, us[i].id, us[i].relation) in Seen(v);
          assert Related(b.hi, req, child.relationRef, us[i]);
        }
        UndeclaredKeep(b.e, subs, t.Called(2), depth);
      }
    }
  }

  lemma {:induction false} LeavesKeep(b: Bounds, req: Request, children: seq<PermissionRef>, stop: bool, t: Trail, depth: nat)
    requires depth <= b.e.maxDepth && Covers(b) && forall c :: c in children ==> Leaf(b.e.schema, b.hi, req, c)
    requires b.x.Contains(t, ListWalk(b.e, req, children, stop, t, depth))
    ensures ListWalk(b.e, req, children, stop, t, depth).trail.visited == t.visited
    decreases |children|
  {
    if children != [] {
      var w := ChildWalk(b.e, req, children[0], t, depth);
      if !w.out.Fail? && w.out.allowed != stop {
        assert Extends(w.trail, ListWalk(b.e, req, children[1..], stop, w.trail, depth).trail);
        LeafKeeps(b, req, children[0], t, depth);
        LeavesKeep(b, req, children[1..], stop, w.trail, depth);
      } else {
        LeafKeeps(b, req, children[0], t, depth);
      }
    }
  }

  lemma {:induction false} UndeclaredKeep(e: Env, subs: seq<Request>, t: Trail, depth: nat)
    requires depth <= e.maxDepth && forall sub :: sub in subs && !Skipped(sub, true) ==> e.schema.Def(sub.Node()).None?
    ensures SubWalk(e, subs, true, t, depth).trail.visited == t.visited
    decreases |subs|
  {
    if subs != [] {
      assert Skipped(subs[0], true) || e.schema.Def(subs[0].Node()).None?;
      if Skipped(subs[0], true) {
        UndeclaredKeep(e, subs[1..], t, depth);
      } else if subs[0].Key() in t.visited {
        UndeclaredKeep(e, subs[1..], t.Revisit(), depth);
      } else if LookupDirect(e.views(t.calls), subs[0].Grant(subs[0].perm)) != Ok(true) {
        UndeclaredKeep(e, subs[1..], t.Called(1), depth);
      }
    }
  }

  lemma {:induction false} EvalDeclared(s: Schema, pos: Facts, neg: Facts, k: nat, r: Request)
    requires Eval(s, pos, neg, k, r)
    ensures s.Def(r.Node()).Some?
  {
  }

  // Nothing in a set whose members all refute each other is derivable.
  lemma {:induction false} RefutedUnderivable(b: Bounds, req: Request, visited: set<string>, k: nat, r: Request)
    requires b.nodes <= Declared(b.e.schema) && TailsAreLeaves(b.e.schema, b.hi, b.nodes) && SafeNames(b.e.schema)
    requires Within(visited, b.KeysFor(req)) && NewRefuted(b, req, {}, visited)
    requires r.subType == req.subType && r.subId == req.subId && r.Node() in b.nodes && r.Key() in visited
    ensures !Eval(b.e.schema, b.lo, b.hi, k, r)
    decreases k
  {
    if k > 0 {
      var p, q := Upto(b.e.schema, b.lo, b.hi, k - 1), Unvisited(r, visited);
      forall x | p(x)
        ensures q(x)
      {
        if x.subType == req.subType && x.subId == req.subId && x.Key() in visited {
          EvalDeclared(b.e.schema, b.lo, b.hi, k - 1, x);
          KeyInReach(b, req, x, visited);
          RefutedUnderivable(b, req, visited, k - 1, x);
        }
      }
      assert Refuted(b, r, visited);
      if Holds(b.e.schema, b.lo, b.hi, r, p, Upto(b.e.schema, b.hi, b.lo, k - 1)) {
        HoldsMono(b.e.schema, b.lo, b.hi, r, p, q, Upto(b.e.schema, b.hi, b.lo, k - 1), q);
      }
    }
  }
}
