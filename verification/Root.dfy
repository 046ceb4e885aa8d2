/**
 The root of a check may be less regular than the nodes below it: nothing is visited before its children,
 so an allow of one of them can only be followed by leaves.
 */
module Roots {
  import opened Wrappers
  import opened Tuples
  import opened Keys
  import opened Schemas
  import opened WalkSpec
  import opened Rules
  import opened Reach
  import opened Bracket
  import opened Complete

  ghost predicate Ready(b: Bounds, req: Request) {
    && Covers(b) && Apart(b.e.schema, b.hi) && LinearFrom(b.e.schema, b.hi, b.nodes, req)
    && IgnoresContext(b, b.lo) && IgnoresContext(b, b.hi)
  }

  lemma {:induction false} RootSetting(b: Bounds, req: Request, pd: PermissionDef)
    requires Ready(b, req) && Here(b, req, pd)
    ensures Setting(b, req, START.Enter(req.Key()))
  {
    LinearFromTails(b.e.schema, b.hi, b.nodes, req);
    assert req.Key() == NodeKey(req.Node(), req.subType, req.subId);
  }

  // Every answer takes at least one store call.
  lemma {:induction false} ChildCalls(e: Env, req: Request, child: PermissionRef, t: Trail, depth: nat)
    requires depth <= e.maxDepth && ChildWalk(e, req, child, t, depth).out.Answer?
    ensures t.calls < ChildWalk(e, req, child, t, depth).trail.calls
  {
    match child.Kind()
    case RelationKind => assert t.calls < RelationWalk(e, req, child.relationRef, t, depth).trail.calls;
    case ArrowKind => assert t.calls < ArrowWalk(e, req, child.arrowRef, child.arrowPermission, t, depth).trail.calls;
    case ConditionKind =>
  }

  lemma {:induction false} LeafBelow(b: Bounds, req: Request, child: PermissionRef)
    requires Covers(b) && b.x.start < b.x.end && Leaf(b.e.schema, b.hi, req, child)
    ensures Leaf(b.e.schema, b.lo, req, child)
  {
    assert b.lo.tuples <= Seen(b.e.views(b.x.start)) <= b.hi.tuples;
  }

  lemma {:induction false} RestHasOneNonLeaf(s: Schema, f: Facts, req: Request, children: seq<PermissionRef>)
    requires children != [] && OneNonLeaf(s, f, req, children)
    ensures OneNonLeaf(s, f, req, children[1..])
    ensures !Leaf(s, f, req, children[0]) ==> forall c :: c in children[1..] ==> Leaf(s, f, req, c)
  {
    var rest := children[1..];
    assert forall i :: 0 <= i < |rest| ==> rest[i] == children[i + 1];
    forall c | c in rest && !Leaf(s, f, req, children[0])
      ensures Leaf(s, f, req, c)
    {
      var i :| 0 <= i < |rest| && rest[i] == c;
      assert Leaf(s, f, req, children[0]) || Leaf(s, f, req, children[i + 1]);
    }
  }

  /** A denied intersection with one non-leaf has a refuted leaf, or everything it visited is refuted too. */
  lemma {:induction false} RootList(b: Bounds, req: Request, pd: PermissionDef, children: seq<PermissionRef>, t: Trail, depth: nat)
    requires depth <= b.e.maxDepth && Setting(b, req, t) && Here(b, req, pd)
    requires (forall c :: c in children ==> c in pd.children) && OneNonLeaf(b.e.schema, b.hi, req, children)
    requires b.x.Contains(t, ListWalk(b.e, req, children, false, t, depth))
    requires ListWalk(b.e, req, children, false, t, depth).out.Denies()
    ensures var after := ListWalk(b.e, req, children, false, t, depth).trail.visited;
            || (exists c :: c in children && Leaf(b.e.schema, b.lo, req, c) && !ChildHolds(b.e.schema, b.lo, req, c, Unvisited(req, after)))
            || (NewRefuted(b, req, t.visited, after)
                && exists c :: c in children && !ChildHolds(b.e.schema, b.lo, req, c, Unvisited(req, after)))
    decreases |children|
  {
    assert children != [];
    var w := ChildWalk(b.e, req, children[0], t, depth);
    if w.out.Denies() {
      ChildComplete(b, req, pd, children[0], t, depth);
    } else {
      var rest := ListWalk(b.e, req, children[1..], false, w.trail, depth);
      assert Extends(w.trail, rest.trail);
      ChildCalls(b.e, req, children[0], t, depth);
      ChildStays(b.e, b.x, b.nodes, req, pd, children[0], t, depth, false);
      RestHasOneNonLeaf(b.e.schema, b.hi, req, children);
      if Leaf(b.e.schema, b.hi, req, children[0]) {
        LeafKeeps(b, req, children[0], t, depth);
        RootList(b, req, pd, children[1..], w.trail, depth);
      } else {
        ListComplete(b, req, pd, children[1..], false, w.trail, depth);
        var c :| c in children[1..] && !ChildHolds(b.e.schema, b.lo, req, c, Unvisited(req, rest.trail.visited));
        LeafBelow(b, req, c);
      }
    }
  }

  // Once the root's rule fails over unvisited requests, the root is underivable.
  lemma {:induction false} RefutedRoot(b: Bounds, req: Request, pd: PermissionDef, after: set<string>, k: nat)
    requires Ready(b, req) && Here(b, req, pd) && req.Key() in after && Within(after, b.KeysFor(req))
    requires Refuted(b, req, after) && NewRefuted(b, req, {req.Key()}, after)
    ensures !Eval(b.e.schema, b.lo, b.hi, k, req)
  {
    LinearFromTails(b.e.schema, b.hi, b.nodes, req);
    assert {} + {req.Key()} == {req.Key()};
    EntryRefuted(b, req, {}, after);
    RefutedUnderivable(b, req, after, k, req);
  }

  lemma {:induction false} IntersectRefuted(b: Bounds, req: Request, pd: PermissionDef, k: nat)
    requires 0 <= b.e.maxDepth && Ready(b, req) && Here(b, req, pd) && pd.operation.Intersect? && pd.children != [] && k > 0
    requires var w := ListWalk(b.e, req, pd.children, false, START.Enter(req.Key()), 0);
             b.x.Contains(START, w) && w.out.Denies() && Within(w.trail.visited, b.KeysFor(req))
    ensures !Eval(b.e.schema, b.lo, b.hi, k, req)
  {
    var s, t := b.e.schema, START.Enter(req.Key());
    var w := ListWalk(b.e, req, pd.children, false, t, 0);
    var q := Unvisited(req, w.trail.visited);
    RootSetting(b, req, pd);
    assert RootDef(s, b.hi, req, pd);
    RootList(b, req, pd, pd.children, t, 0);
    if c :| c in pd.children && Leaf(s, b.lo, req, c) && !ChildHolds(s, b.lo, req, c, q) {
      LeafIgnores(s, b.lo, req, c, q, Upto(s, b.lo, b.hi, k - 1));
      EvalUnionOrIntersect(s, b.lo, b.hi, k, req, pd);
    } else {
      assert t.visited == {req.Key()};
      RefutedRoot(b, req, pd, w.trail.visited, k);
    }
  }

  lemma {:induction false} ExclusionRefuted(b: Bounds, req: Request, pd: PermissionDef, k: nat)
    requires 0 <= b.e.maxDepth && Ready(b, req) && Here(b, req, pd) && pd.operation.Exclusion? && pd.children != [] && k > 0
    requires var base := ChildWalk(b.e, req, pd.children[0], START.Enter(req.Key()), 0);
             if base.out.Allows() then
               var rest := ListWalk(b.e, req, pd.children[1..], true, base.trail, 0);
               b.x.Contains(START, rest) && rest.out.Allows()
             else b.x.Contains(START, base) && base.out.Denies() && Within(base.trail.visited, b.KeysFor(req))
    ensures !Eval(b.e.schema, b.lo, b.hi, k, req)
  {
    var s, t := b.e.schema, START.Enter(req.Key());
    var base := ChildWalk(b.e, req, pd.children[0], t, 0);
    RootSetting(b, req, pd);
    if base.out.Allows() {
      var rest := ListWalk(b.e, req, pd.children[1..], true, base.trail, 0);
      assert Extends(base.trail, rest.trail);
      ChildStays(b.e, b.x, b.nodes, req, pd, pd.children[0], t, 0, false);
      var m := Fuel(b.e, 1);
      ListBracket(b, req, pd, pd.children[1..], true, base.trail, 0, m, false);
      var c :| c in pd.children[1..] && Up(b, req, c, m);
      assert TailLeaves(s, b.hi, req, pd);
      LeafIgnores(s, b.hi, req, c, Upto(s, b.hi, b.lo, m), Upto(s, b.hi, b.lo, k - 1));
      EvalExclusion(s, b.lo, b.hi, k, req, pd);
    } else {
      ChildComplete(b, req, pd, pd.children[0], t, 0);
      assert t.visited == {req.Key()};
      RefutedRoot(b, req, pd, base.trail.visited, k);
    }
  }

  lemma {:induction false} UnionRefuted(b: Bounds, req: Request, pd: PermissionDef, k: nat)
    requires 0 <= b.e.maxDepth && Ready(b, req) && Here(b, req, pd) && pd.operation in {Union, DirectOp}
    requires var w := ListWalk(b.e, req, pd.children, true, START.Enter(req.Key()), 0);
             b.x.Contains(START, w) && w.out.Denies() && Within(w.trail.visited, b.KeysFor(req))
    ensures !Eval(b.e.schema, b.lo, b.hi, k, req)
  {
    var t := START.Enter(req.Key());
    RootSetting(b, req, pd);
    ListComplete(b, req, pd, pd.children, true, t, 0);
    assert t.visited == {req.Key()};
    RefutedRoot(b, req, pd, ListWalk(b.e, req, pd.children, true, t, 0).trail.visited, k);
  }

  /** A check whose walk denies leaves its root underivable. */
  lemma {:induction false} RootRefuted(b: Bounds, req: Request, pd: PermissionDef, k: nat)
    requires Ready(b, req) && Here(b, req, pd)
    requires b.x.Contains(START, PermissionWalk(b.e, req, pd, START, 0)) && PermissionWalk(b.e, req, pd, START, 0).out.Denies()
    ensures !Eval(b.e.schema, b.lo, b.hi, k, req)
  {
    PermissionStays(b.e, b.x, b.nodes, req, pd, START, 0, false);
    if k > 0 {
      match pd.operation
      case Union => UnionRefuted(b, req, pd, k);
      case DirectOp => UnionRefuted(b, req, pd, k);
      case Intersect =>
        if pd.children != [] {
          IntersectRefuted(b, req, pd, k);
        }
      case Exclusion =>
        if pd.children != [] {
          ExclusionRefuted(b, req, pd, k);
        }
      case OtherOp(_) =>
    }
  }
}
