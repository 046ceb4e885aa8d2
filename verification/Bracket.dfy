/**
 Answers of the walk bracketed by the rules, while the store may change between calls.

 `lo` holds the tuples visible at every call and `hi` those visible at some call. An allow is
 derivable with `hi` as the positive facts; a deny that met no visited key refutes `lo`.
 */
module Bracket {
  import opened Wrappers
  import opened Tuples
  import opened Keys
  import opened Schemas
  import opened WalkSpec
  import opened Rules
  import opened Reach

  // `nodes` are the declared nodes the walk can reach.
  datatype Bounds = Bounds(e: Env, x: Window, lo: Facts, hi: Facts, nodes: iset<Node>) {
    ghost function KeysFor(req: Request): iset<string> {
      KeysOf(nodes, req.subType, req.subId)
    }
  }

  ghost predicate Covers(b: Bounds) {
    && b.nodes <= Declared(b.e.schema) && Closed(b.e, b.x, b.nodes)
    && (forall c: nat :: b.x.start <= c < b.x.end ==> b.lo.tuples <= Seen(b.e.views(c)) <= b.hi.tuples)
    && (forall c: nat, text, req :: b.x.start <= c && c + 1 < b.x.end ==>
          && (CondAt(b.e, c, text, req) == CondAllow ==> b.hi.cond(text, req))
          && (b.lo.cond(text, req) ==> CondAt(b.e, c, text, req) == CondAllow))
  }

  ghost predicate Here(b: Bounds, req: Request, pd: PermissionDef) {
    req.Node() in b.nodes && b.e.schema.Def(req.Node()) == Some(pd)
  }

  // Visit keys tell nodes apart: permissions are stored under their own names, no type name has ':' and
  // no permission name '#', and the same goes for the type and relation of every userset in force.
  ghost predicate Apart(s: Schema, f: Facts) {
    && WellNamed(s) && SafeNames(s)
    && forall id :: id in f.tuples && id.subRel != "" ==> SafeNode(Node(id.subType, id.subId, id.subRel))
  }

  // Three ways for an exclusion to be trusted: there is none, its excluded children are leaves,
  // or the run meets no visited key at all (`free`).
  ghost predicate Licensed(b: Bounds, req: Request, t: Trail, free: bool) {
    || free
    || NoExclusion(b.e.schema)
    || (TailsAreLeaves(b.e.schema, b.hi, b.nodes) && Apart(b.e.schema, b.hi) && Within(t.visited, b.KeysFor(req)))
  }

  // When a denied child is refuted by the lower facts.
  ghost predicate Decisive(b: Bounds, req: Request, child: PermissionRef, t: Trail, free: bool) {
    || free
    || (Leaf(b.e.schema, b.hi, req, child) && Apart(b.e.schema, b.hi) && Within(t.visited, b.KeysFor(req)))
  }

  // A non-empty path is one entry: a direct tuple for the requested subject, live at some call.
  ghost predicate PathOk(b: Bounds, req: Request, out: Outcome) {
    out.Allows() && out.path != [] ==>
      exists c: nat, id :: && b.x.start <= c < b.x.end && id in Seen(b.e.views(c))
                      && id.subType == req.subType && id.subId == req.subId && id.subRel == ""
                      && out.path == [DirectPath(id)]
  }

  ghost predicate Free(free: bool, t: Trail, w: Walk) {
    free ==> w.trail.revisits == t.revisits
  }

  ghost predicate Up(b: Bounds, req: Request, child: PermissionRef, k: nat) {
    ChildHolds(b.e.schema, b.hi, req, child, Upto(b.e.schema, b.hi, b.lo, k))
  }

  ghost predicate Down(b: Bounds, req: Request, child: PermissionRef, k: nat) {
    ChildHolds(b.e.schema, b.lo, req, child, Upto(b.e.schema, b.lo, b.hi, k))
  }

  ghost predicate SomeUp(b: Bounds, req: Request, children: seq<PermissionRef>, k: nat) {
    exists c :: c in children && Up(b, req, c, k)
  }

  ghost predicate NoneDown(b: Bounds, req: Request, children: seq<PermissionRef>, k: nat) {
    forall c :: c in children ==> !Down(b, req, c, k)
  }

  lemma {:induction false} LicenseKept(b: Bounds, req: Request, pd: PermissionDef, child: PermissionRef, t: Trail, depth: nat, free: bool)
    requires depth <= b.e.maxDepth
    requires Covers(b) && Here(b, req, pd) && child in pd.children
    requires b.x.Contains(t, ChildWalk(b.e, req, child, t, depth))
    requires Licensed(b, req, t, free)
    ensures Licensed(b, req, ChildWalk(b.e, req, child, t, depth).trail, free)
  {
    if !free && !NoExclusion(b.e.schema) {
      ChildStays(b.e, b.x, b.nodes, req, pd, child, t, depth, false);
    }
  }

  lemma {:induction false} PermissionBracket(b: Bounds, req: Request, pd: PermissionDef, t: Trail, depth: nat, k: nat, free: bool)
    requires Covers(b) && Here(b, req, pd)
    requires b.x.Contains(t, PermissionWalk(b.e, req, pd, t, depth))
    requires Licensed(b, req, t, free) && Free(free, t, PermissionWalk(b.e, req, pd, t, depth))
    requires k >= Fuel(b.e, depth)
    ensures var out := PermissionWalk(b.e, req, pd, t, depth).out;
            && PathOk(b, req, out)
            && (out.Allows() ==> Eval(b.e.schema, b.hi, b.lo, k, req))
            && (free && out.Denies() ==> !Eval(b.e.schema, b.lo, b.hi, k, req))
    decreases Fuel(b.e, depth), 3, 0
  {
    var key := VisitKey(req.objType, req.objId, pd.name, req.subType, req.subId);
    if depth <= b.e.maxDepth && key !in t.visited {
      var t1 := t.Enter(key);
      if !free && !NoExclusion(b.e.schema) {
        assert key == NodeKey(req.Node(), req.subType, req.subId);
      }
      match pd.operation
      case Union => ListRuleBracket(b, req, pd, true, t1, depth, k, free);
      case DirectOp => ListRuleBracket(b, req, pd, true, t1, depth, k, free);
      case Intersect =>
        if pd.children != [] {
          ListRuleBracket(b, req, pd, false, t1, depth, k, free);
        }
      case Exclusion =>
        if pd.children != [] {
          ExclusionBracket(b, req, pd, t1, depth, k, free);
        }
      case OtherOp(_) =>
    }
  }

  // The rule of a union (`stop`) or of a non-empty intersection.
  lemma {:induction false} ListRuleBracket(b: Bounds, req: Request, pd: PermissionDef, stop: bool, t: Trail, depth: nat, k: nat, free: bool)
    requires depth <= b.e.maxDepth && Covers(b) && Here(b, req, pd)
    requires if stop then pd.operation in {Union, DirectOp} else pd.operation.Intersect? && pd.children != []
    requires b.x.Contains(t, ListWalk(b.e, req, pd.children, stop, t, depth))
    requires Licensed(b, req, t, free) && Free(free, t, ListWalk(b.e, req, pd.children, stop, t, depth))
    requires k > 0 && k - 1 >= Fuel(b.e, depth + 1)
    ensures var out := ListWalk(b.e, req, pd.children, stop, t, depth).out;
            && PathOk(b, req, out)
            && (out.Allows() ==> Eval(b.e.schema, b.hi, b.lo, k, req))
            && (free && out.Denies() ==> !Eval(b.e.schema, b.lo, b.hi, k, req))
    decreases Fuel(b.e, depth), 2, |pd.children| + 1
  {
    var m: nat := k - 1;
    ListBracket(b, req, pd, pd.children, stop, t, depth, m, free);
    ListRuleDecided(b, req, pd, stop, m, ListWalk(b.e, req, pd.children, stop, t, depth).out, free);
  }

  // The rule of a union or an intersection, from what its children yield.
  lemma {:induction false} ListRuleDecided(b: Bounds, req: Request, pd: PermissionDef, stop: bool, m: nat, out: Outcome, free: bool)
    requires Here(b, req, pd)
    requires if stop then pd.operation in {Union, DirectOp} else pd.operation.Intersect? && pd.children != []
    requires stop && out.Allows() ==> exists c :: c in pd.children && Up(b, req, c, m)
    requires !stop && out.Allows() ==> forall c :: c in pd.children ==> Up(b, req, c, m)
    requires stop && out.Denies() && free ==> forall c :: c in pd.children ==> !Down(b, req, c, m)
    requires !stop && out.Denies() && free ==> exists c :: c in pd.children && !Down(b, req, c, m)
    ensures out.Allows() ==> Eval(b.e.schema, b.hi, b.lo, m + 1, req)
    ensures free && out.Denies() ==> !Eval(b.e.schema, b.lo, b.hi, m + 1, req)
  {
    if out.Allows() {
      EvalUnionOrIntersect(b.e.schema, b.hi, b.lo, m + 1, req, pd);
    } else {
      EvalUnionOrIntersect(b.e.schema, b.lo, b.hi, m + 1, req, pd);
    }
  }

  lemma {:induction false} ExclusionBracket(b: Bounds, req: Request, pd: PermissionDef, t: Trail, depth: nat, k: nat, free: bool)
    requires depth <= b.e.maxDepth && pd.operation.Exclusion? && pd.children != []
    requires Covers(b) && Here(b, req, pd)
    requires Licensed(b, req, t, free) && k > 0 && k - 1 >= Fuel(b.e, depth + 1)
    requires var base := ChildWalk(b.e, req, pd.children[0], t, depth);
             if base.out.Allows() then
               var rest := ListWalk(b.e, req, pd.children[1..], true, base.trail, depth);
               b.x.Contains(t, rest) && Free(free, t, rest)
             else b.x.Contains(t, base) && Free(free, t, base)
    ensures var base := ChildWalk(b.e, req, pd.children[0], t, depth);
            PathOk(b, req, base.out) &&
            if base.out.Allows() then
              var rest := ListWalk(b.e, req, pd.children[1..], true, base.trail, depth);
              && (rest.out.Denies() ==> Eval(b.e.schema, b.hi, b.lo, k, req))
              && (free && rest.out.Allows() ==> !Eval(b.e.schema, b.lo, b.hi, k, req))
            else free && base.out.Denies() ==> !Eval(b.e.schema, b.lo, b.hi, k, req)
    decreases Fuel(b.e, depth), 2, |pd.children| + 1
  {
    if ChildWalk(b.e, req, pd.children[0], t, depth).out.Allows() {
      AllowedBaseBracket(b, req, pd, t, depth, k, free);
    } else {
      DeniedBaseBracket(b, req, pd, t, depth, k, free);
    }
  }

  lemma {:induction false} DeniedBaseBracket(b: Bounds, req: Request, pd: PermissionDef, t: Trail, depth: nat, k: nat, free: bool)
    requires depth <= b.e.maxDepth && pd.operation.Exclusion? && pd.children != []
    requires Covers(b) && Here(b, req, pd)
    requires Licensed(b, req, t, free) && k > 0 && k - 1 >= Fuel(b.e, depth + 1)
    requires var base := ChildWalk(b.e, req, pd.children[0], t, depth);
             !base.out.Allows() && b.x.Contains(t, base) && Free(free, t, base)
    ensures var base := ChildWalk(b.e, req, pd.children[0], t, depth);
            PathOk(b, req, base.out) && (free && base.out.Denies() ==> !Eval(b.e.schema, b.lo, b.hi, k, req))
    decreases Fuel(b.e, depth), 2, |pd.children|
  {
    ChildBracket(b, req, pd, pd.children[0], t, depth, k - 1, free);
    EvalExclusion(b.e.schema, b.lo, b.hi, k, req, pd);
  }

  lemma {:induction false} AllowedBaseBracket(b: Bounds, req: Request, pd: PermissionDef, t: Trail, depth: nat, k: nat, free: bool)
    requires depth <= b.e.maxDepth && pd.operation.Exclusion? && pd.children != []
    requires Covers(b) && Here(b, req, pd)
    requires Licensed(b, req, t, free) && k > 0 && k - 1 >= Fuel(b.e, depth + 1)
    requires var base := ChildWalk(b.e, req, pd.children[0], t, depth);
             var rest := ListWalk(b.e, req, pd.children[1..], true, base.trail, depth);
             base.out.Allows() && b.x.Contains(t, rest) && Free(free, t, rest)
    ensures var base := ChildWalk(b.e, req, pd.children[0], t, depth);
            var rest := ListWalk(b.e, req, pd.children[1..], true, base.trail, depth);
            && PathOk(b, req, base.out)
            && (rest.out.Denies() ==> Eval(b.e.schema, b.hi, b.lo, k, req))
            && (free && rest.out.Allows() ==> !Eval(b.e.schema, b.lo, b.hi, k, req))
    decreases Fuel(b.e, depth), 2, |pd.children|
  {
    var base := ChildWalk(b.e, req, pd.children[0], t, depth);
    var rest := ListWalk(b.e, req, pd.children[1..], true, base.trail, depth);
    assert Extends(t, base.trail) && Extends(base.trail, rest.trail);
    assert b.x.Contains(t, base) && Free(free, t, base);
    assert b.x.Contains(base.trail, rest) && Free(free, base.trail, rest);
    var m: nat := k - 1;
    BaseBracket(b, req, pd, t, depth, m, free);
    TailBracket(b, req, pd, base.trail, depth, m, free);
    ExclusionDecided(b, req, pd, m, rest.out);
  }

  lemma {:induction false} BaseBracket(b: Bounds, req: Request, pd: PermissionDef, t: Trail, depth: nat, k: nat, free: bool)
    requires depth <= b.e.maxDepth && pd.children != []
    requires Covers(b) && Here(b, req, pd) && Licensed(b, req, t, free) && k >= Fuel(b.e, depth + 1)
    requires b.x.Contains(t, ChildWalk(b.e, req, pd.children[0], t, depth))
    requires Free(free, t, ChildWalk(b.e, req, pd.children[0], t, depth))
    requires ChildWalk(b.e, req, pd.children[0], t, depth).out.Allows()
    ensures PathOk(b, req, ChildWalk(b.e, req, pd.children[0], t, depth).out)
    ensures Up(b, req, pd.children[0], k)
    ensures Licensed(b, req, ChildWalk(b.e, req, pd.children[0], t, depth).trail, free)
    decreases Fuel(b.e, depth), 2, |pd.children|, 0
  {
    ChildBracket(b, req, pd, pd.children[0], t, depth, k, free);
    LicenseKept(b, req, pd, pd.children[0], t, depth, free);
  }

  // The excluded children, from whatever trail the base left.
  lemma {:induction false} TailBracket(b: Bounds, req: Request, pd: PermissionDef, t: Trail, depth: nat, k: nat, free: bool)
    requires depth <= b.e.maxDepth && pd.operation.Exclusion? && pd.children != []
    requires Covers(b) && Here(b, req, pd) && Licensed(b, req, t, free) && k >= Fuel(b.e, depth + 1)
    requires b.x.Contains(t, ListWalk(b.e, req, pd.children[1..], true, t, depth))
    requires Free(free, t, ListWalk(b.e, req, pd.children[1..], true, t, depth))
    ensures var rest := ListWalk(b.e, req, pd.children[1..], true, t, depth);
            && (rest.out.Denies() ==> NoneDown(b, req, pd.children[1..], k))
            && (rest.out.Allows() ==> SomeUp(b, req, pd.children[1..], k))
    decreases Fuel(b.e, depth), 2, |pd.children|, 0
  {
    TailDecisive(b, req, pd, t, free);
    ListBracket(b, req, pd, pd.children[1..], true, t, depth, k, free);
  }

  // The rule of an exclusion with an allowing base, from what its base and its excluded children yield.
  lemma {:induction false} ExclusionDecided(b: Bounds, req: Request, pd: PermissionDef, m: nat, rest: Outcome)
    requires Here(b, req, pd) && pd.operation.Exclusion? && pd.children != []
    requires Up(b, req, pd.children[0], m)
    requires rest.Denies() ==> NoneDown(b, req, pd.children[1..], m)
    requires rest.Allows() ==> SomeUp(b, req, pd.children[1..], m)
    ensures rest.Denies() ==> Eval(b.e.schema, b.hi, b.lo, m + 1, req)
    ensures rest.Allows() ==> !Eval(b.e.schema, b.lo, b.hi, m + 1, req)
  {
    if rest.Denies() {
      EvalExclusion(b.e.schema, b.hi, b.lo, m + 1, req, pd);
    } else {
      EvalExclusion(b.e.schema, b.lo, b.hi, m + 1, req, pd);
    }
  }

  // A licensed exclusion may trust the denials of its excluded children.
  lemma {:induction false} TailDecisive(b: Bounds, req: Request, pd: PermissionDef, t: Trail, free: bool)
    requires Here(b, req, pd) && pd.operation.Exclusion? && pd.children != []
    requires Licensed(b, req, t, free)
    ensures forall c :: c in pd.children[1..] ==> Decisive(b, req, c, t, free)
  {
    assert free || TailLeaves(b.e.schema, b.hi, req, pd);
  }

  lemma {:induction false} EvalUnionOrIntersect(s: Schema, pos: Facts, neg: Facts, k: nat, req: Request, pd: PermissionDef)
    requires k > 0 && s.Def(req.Node()) == Some(pd)
    ensures pd.operation in {Union, DirectOp} ==>
              (Eval(s, pos, neg, k, req) <==> exists c :: c in pd.children && ChildHolds(s, pos, req, c, Upto(s, pos, neg, k - 1)))
    ensures pd.operation == Intersect ==>
              (Eval(s, pos, neg, k, req) <==> pd.children != [] && forall c :: c in pd.children ==> ChildHolds(s, pos, req, c, Upto(s, pos, neg, k - 1)))
  {
  }

  lemma {:induction false} EvalExclusion(s: Schema, pos: Facts, neg: Facts, k: nat, req: Request, pd: PermissionDef)
    requires k > 0 && s.Def(req.Node()) == Some(pd) && pd.operation.Exclusion? && pd.children != []
    ensures Eval(s, pos, neg, k, req) <==>
            && ChildHolds(s, pos, req, pd.children[0], Upto(s, pos, neg, k - 1))
            && forall c :: c in pd.children[1..] ==> !ChildHolds(s, neg, req, c, Upto(s, neg, pos, k - 1))
  {
  }

  lemma {:induction false} ListBracket(b: Bounds, req: Request, pd: PermissionDef, children: seq<PermissionRef>, stop: bool,
                                       t: Trail, depth: nat, k: nat, free: bool)
    requires depth <= b.e.maxDepth
    requires Covers(b) && Here(b, req, pd) && forall c :: c in children ==> c in pd.children
    requires b.x.Contains(t, ListWalk(b.e, req, children, stop, t, depth))
    requires Licensed(b, req, t, free) && Free(free, t, ListWalk(b.e, req, children, stop, t, depth))
    requires k >= Fuel(b.e, depth + 1)
    ensures var out := ListWalk(b.e, req, children, stop, t, depth).out;
            && PathOk(b, req, out)
            && (stop && out.Allows() ==> exists c :: c in children && Up(b, req, c, k))
            && (stop && out.Denies() && (forall c :: c in children ==> Decisive(b, req, c, t, free)) ==>
                  forall c :: c in children ==> !Down(b, req, c, k))
            && (!stop && out.Allows() ==> forall c :: c in children ==> Up(b, req, c, k))
            && (!stop && out.Denies() && free ==> exists c :: c in children && !Down(b, req, c, k))
    decreases Fuel(b.e, depth), 2, |children|
  {
    if children != [] {
      var w := ChildWalk(b.e, req, children[0], t, depth);
      if !w.out.Fail? && w.out.allowed != stop {
        var rest := ListWalk(b.e, req, children[1..], stop, w.trail, depth);
        assert Extends(w.trail, rest.trail);
        ChildBracket(b, req, pd, children[0], t, depth, k, free);
        LicenseKept(b, req, pd, children[0], t, depth, free);
        ListBracket(b, req, pd, children[1..], stop, w.trail, depth, k, free);
        if !free && Decisive(b, req, children[0], t, free) {
          ChildStays(b.e, b.x, b.nodes, req, pd, children[0], t, depth, false);
          assert forall c :: Decisive(b, req, c, t, free) ==> Decisive(b, req, c, w.trail, free);
        }
      } else {
        ChildBracket(b, req, pd, children[0], t, depth, k, free);
      }
    }
  }

  lemma {:induction false} ChildBracket(b: Bounds, req: Request, pd: PermissionDef, child: PermissionRef,
                                        t: Trail, depth: nat, k: nat, free: bool)
    requires depth <= b.e.maxDepth
    requires Covers(b) && Here(b, req, pd) && child in pd.children
    requires b.x.Contains(t, ChildWalk(b.e, req, child, t, depth))
    requires Licensed(b, req, t, free) && Free(free, t, ChildWalk(b.e, req, child, t, depth))
    requires k >= Fuel(b.e, depth + 1)
    ensures var out := ChildWalk(b.e, req, child, t, depth).out;
            && PathOk(b, req, out)
            && (out.Allows() ==> Up(b, req, child, k))
            && (out.Denies() && Decisive(b, req, child, t, free) ==> !Down(b, req, child, k))
    decreases Fuel(b.e, depth), 1, 0
  {
    match child.Kind()
    case RelationKind => RelationBracket(b, req, pd, child, t, depth, k, free);
    case ArrowKind => ArrowBracket(b, req, pd, child, t, depth, k, free);
    case ConditionKind =>
      var o := CondAt(b.e, t.calls, child.conditionExpr, req);
  }

  lemma {:induction false} RelationBracket(b: Bounds, req: Request, pd: PermissionDef, child: PermissionRef, t: Trail, depth: nat, k: nat, free: bool)
    requires depth <= b.e.maxDepth && child.Kind().RelationKind? && Covers(b) && Here(b, req, pd) && child in pd.children
    requires b.x.Contains(t, ChildWalk(b.e, req, child, t, depth))
    requires Licensed(b, req, t, free) && Free(free, t, ChildWalk(b.e, req, child, t, depth))
    requires k >= Fuel(b.e, depth + 1)
    ensures var out := ChildWalk(b.e, req, child, t, depth).out;
            && PathOk(b, req, out)
            && (out.Allows() ==> Up(b, req, child, k))
            && (out.Denies() && Decisive(b, req, child, t, free) ==> !Down(b, req, child, k))
    decreases Fuel(b.e, depth), 0, 2
  {
    var w := ChildWalk(b.e, req, child, t, depth);
    var direct := LookupDirect(b.e.views(t.calls), req.Grant(child.relationRef));
    assert w == RelationWalk(b.e, req, child.relationRef, t, depth);
    if direct == Ok(true) {
      assert w.trail == t.Called(1);
      assert req.Grant(child.relationRef) in Seen(b.e.views(t.calls));
    } else if direct == Ok(false) && b.e.views(t.calls + 1).fault.None? {
      UsersetsWalked(b.e, req, child.relationRef, t, depth);
      UsersetsBracket(b, req, pd, child, t, depth, k, free);
    }
  }

  // The usersets of a relation without a direct tuple.
  lemma {:induction false} UsersetsBracket(b: Bounds, req: Request, pd: PermissionDef, child: PermissionRef, t: Trail, depth: nat, k: nat, free: bool)
    requires depth <= b.e.maxDepth && child.Kind().RelationKind? && Covers(b) && Here(b, req, pd) && child in pd.children
    requires LookupDirect(b.e.views(t.calls), req.Grant(child.relationRef)) == Ok(false) && b.e.views(t.calls + 1).fault.None?
    requires var subs := Usersets(req, Subjects(b.e.views(t.calls + 1).live, req.objType, req.objId, child.relationRef));
             var w := SubWalk(b.e, subs, true, t.Called(2), depth);
             b.x.Contains(t, w) && Free(free, t, w)
    requires Licensed(b, req, t, free) && k >= Fuel(b.e, depth + 1)
    ensures var s := b.e.schema;
            var subs := Usersets(req, Subjects(b.e.views(t.calls + 1).live, req.objType, req.objId, child.relationRef));
            var out := SubWalk(b.e, subs, true, t.Called(2), depth).out;
            && PathOk(b, req, out)
            && (out.Allows() ==> RelationHolds(s, b.hi, req, child.relationRef, Upto(s, b.hi, b.lo, k)))
            && (out.Denies() && Decisive(b, req, child, t, free) ==> !RelationHolds(s, b.lo, req, child.relationRef, Upto(s, b.lo, b.hi, k)))
    decreases Fuel(b.e, depth), 0, 1
  {
    var c: nat := t.calls + 1;
    SubWalkExtends(b.e, Usersets(req, Subjects(b.e.views(c).live, req.objType, req.objId, child.relationRef)), t.Called(2), depth);
    ListedBracket(b, req, pd, child, t, depth, k, free);
    NotDirect(b, req.Grant(child.relationRef), t.calls);
    RelationFromSubs(b, req, child.relationRef, c, Upto(b.e.schema, b.hi, b.lo, k), Upto(b.e.schema, b.lo, b.hi, k));
  }

  lemma {:induction false} ListedBracket(b: Bounds, req: Request, pd: PermissionDef, child: PermissionRef, t: Trail, depth: nat, k: nat, free: bool)
    requires depth <= b.e.maxDepth && child.Kind().RelationKind? && Covers(b) && Here(b, req, pd) && child in pd.children
    requires b.e.views(t.calls + 1).fault.None? && b.x.start <= t.calls
    requires var subs := Usersets(req, Subjects(b.e.views(t.calls + 1).live, req.objType, req.objId, child.relationRef));
             var w := SubWalk(b.e, subs, true, t.Called(2), depth);
             t.calls + 2 <= w.trail.calls <= b.x.end && Free(free, t, w)
    requires Licensed(b, req, t, free) && k >= Fuel(b.e, depth + 1)
    ensures var s := b.e.schema;
            var subs := Usersets(req, Subjects(b.e.views(t.calls + 1).live, req.objType, req.objId, child.relationRef));
            var out := SubWalk(b.e, subs, true, t.Called(2), depth).out;
            && PathOk(b, req, out)
            && (out.Allows() ==> exists sub :: sub in subs && SubHolds(s, b.hi, sub, true, Upto(s, b.hi, b.lo, k)))
            && (out.Denies() && Decisive(b, req, child, t, free) ==>
                  forall sub :: sub in subs ==> !SubHolds(s, b.lo, sub, true, Upto(s, b.lo, b.hi, k)))
    decreases Fuel(b.e, depth), 0, 0
  {
    var subs := Usersets(req, Subjects(b.e.views(t.calls + 1).live, req.objType, req.objId, child.relationRef));
    UsersetsUnvisited(b, req, child, t, t.calls + 1, free);
    UsersetsInside(b, req, pd, child, t.calls + 1);
    SubBracket(b, req, subs, true, t.Called(2), depth, k, free);
  }

  lemma {:induction false} NotDirect(b: Bounds, id: Identity, c: nat)
    requires Covers(b) && b.x.start <= c < b.x.end && LookupDirect(b.e.views(c), id) == Ok(false)
    ensures id !in b.lo.tuples
  {
    assert id !in Seen(b.e.views(c));
  }

  // A listed userset that holds yields the relation, and without one and without a direct tuple nothing does.
  lemma {:induction false} RelationFromSubs(b: Bounds, req: Request, relation: string, c: nat, p: Request -> bool, q: Request -> bool)
    requires Covers(b) && b.x.start <= c < b.x.end && b.e.views(c).fault.None?
    ensures var s := b.e.schema;
            var subs := Usersets(req, Subjects(b.e.views(c).live, req.objType, req.objId, relation));
            && ((exists sub :: sub in subs && SubHolds(s, b.hi, sub, true, p)) ==> RelationHolds(s, b.hi, req, relation, p))
            && (req.Grant(relation) !in b.lo.tuples && (forall sub :: sub in subs ==> !SubHolds(s, b.lo, sub, true, q)) ==>
                  !RelationHolds(s, b.lo, req, relation, q))
  {
    ListedAreRelated(b, req, relation, c);
    RelatedAreListed(b, req, relation, c);
  }

  lemma {:induction false} UsersetsInside(b: Bounds, req: Request, pd: PermissionDef, child: PermissionRef, c: nat)
    requires Covers(b) && Here(b, req, pd) && child in pd.children && child.Kind().RelationKind?
    requires b.x.start <= c < b.x.end && b.e.views(c).fault.None?
    ensures Inside(b.e, req, b.nodes, Usersets(req, Subjects(b.e.views(c).live, req.objType, req.objId, child.relationRef)), true)
  {
    UsersetsAsked(b.e, b.x, b.nodes, req, child, c, Subjects(b.e.views(c).live, req.objType, req.objId, child.relationRef));
  }

  // What the store lists at a call is related in the upper facts ...
  lemma {:induction false} ListedAreRelated(b: Bounds, req: Request, relation: string, c: nat)
    requires Covers(b) && b.x.start <= c < b.x.end && b.e.views(c).fault.None?
    ensures forall sub :: sub in Usersets(req, Subjects(b.e.views(c).live, req.objType, req.objId, relation)) ==>
              exists u :: sub == req.Userset(u) && Related(b.hi, req, relation, u)
  {
    var us := Subjects(b.e.views(c).live, req.objType, req.objId, relation);
    forall sub | sub in Usersets(req, us)
      ensures exists u :: sub == req.Userset(u) && Related(b.hi, req, relation, u)
    {
      var i :| 0 <= i < |us| && Usersets(req, us)[i] == sub;
      assert us[i] in us;
      assert Identity(req.objType, req.objId, relation, us[i].typ, us[i].id, us[i].relation) in Seen(b.e.views(c));
      assert Related(b.hi, req, relation, us[i]);
    }
  }

  // ... and what the lower facts relate is listed.
  lemma {:induction false} RelatedAreListed(b: Bounds, req: Request, relation: string, c: nat)
    requires Covers(b) && b.x.start <= c < b.x.end && b.e.views(c).fault.None?
    ensures forall u :: Related(b.lo, req, relation, u) ==>
              req.Userset(u) in Usersets(req, Subjects(b.e.views(c).live, req.objType, req.objId, relation))
  {
    forall u | Related(b.lo, req, relation, u)
      ensures req.Userset(u) in Usersets(req, Subjects(b.e.views(c).live, req.objType, req.objId, relation))
    {
      assert Identity(req.objType, req.objId, relation, u.typ, u.id, u.relation) in Seen(b.e.views(c));
      UsersetListed(req, Subjects(b.e.views(c).live, req.objType, req.objId, relation), u);
    }
  }

  lemma {:induction false} UsersetsUnvisited(b: Bounds, req: Request, child: PermissionRef, t: Trail, c: nat, free: bool)
    requires Covers(b) && child.Kind().RelationKind?
    requires b.x.start <= c < b.x.end && b.e.views(c).fault.None?
    ensures !free && Decisive(b, req, child, t, free) ==>
              forall sub :: sub in Usersets(req, Subjects(b.e.views(c).live, req.objType, req.objId, child.relationRef)) && !Skipped(sub, true) ==>
                b.e.schema.Def(sub.Node()).None? && sub.Key() !in t.visited
  {
    if !free && Decisive(b, req, child, t, free) {
      ListedAreRelated(b, req, child.relationRef, c);
      forall sub | sub in Usersets(req, Subjects(b.e.views(c).live, req.objType, req.objId, child.relationRef)) && !Skipped(sub, true)
        ensures b.e.schema.Def(sub.Node()).None? && sub.Key() !in t.visited
      {
        LeafUnvisited(b, req, child, sub, t);
      }
    }
  }

  lemma {:induction false} LeafUnvisited(b: Bounds, req: Request, child: PermissionRef, sub: Request, t: Trail)
    requires Covers(b) && Leaf(b.e.schema, b.hi, req, child) && child.Kind().RelationKind?
    requires Apart(b.e.schema, b.hi) && Within(t.visited, b.KeysFor(req))
    requires !Skipped(sub, true) && exists u :: sub == req.Userset(u) && Related(b.hi, req, child.relationRef, u)
    ensures b.e.schema.Def(sub.Node()).None? && sub.Key() !in t.visited
  {
    var u :| sub == req.Userset(u) && Related(b.hi, req, child.relationRef, u);
    assert Identity(req.objType, req.objId, child.relationRef, u.typ, u.id, u.relation) in b.hi.tuples;
    assert SafeNode(sub.Node());
    KeyInReach(b, req, sub, t.visited);
  }

  // A request whose key was visited is about a node in reach.
  lemma {:induction false} KeyInReach(b: Bounds, req: Request, r: Request, visited: set<string>)
    requires b.nodes <= Declared(b.e.schema) && SafeNames(b.e.schema) && Within(visited, b.KeysFor(req))
    requires r.subType == req.subType && r.subId == req.subId && SafeNode(r.Node())
    ensures r.Key() in visited ==> r.Node() in b.nodes
  {
    if r.Key() in visited {
      var n :| n in b.nodes && NodeKey(n, req.subType, req.subId) == r.Key();
      VisitKeyInjective(n, r.Node(), req.subType, req.subId);
    }
  }

  lemma {:induction false} ArrowBracket(b: Bounds, req: Request, pd: PermissionDef, child: PermissionRef, t: Trail, depth: nat, k: nat, free: bool)
    requires depth <= b.e.maxDepth && child.Kind().ArrowKind? && Covers(b) && Here(b, req, pd) && child in pd.children
    requires b.x.Contains(t, ChildWalk(b.e, req, child, t, depth))
    requires Licensed(b, req, t, free) && Free(free, t, ChildWalk(b.e, req, child, t, depth))
    requires k >= Fuel(b.e, depth + 1)
    ensures var out := ChildWalk(b.e, req, child, t, depth).out;
            && PathOk(b, req, out)
            && (out.Allows() ==> Up(b, req, child, k))
            && (out.Denies() && free ==> !Down(b, req, child, k))
    decreases Fuel(b.e, depth), 0, 1
  {
    var w := ChildWalk(b.e, req, child, t, depth);
    var v := b.e.views(t.calls);
    if v.fault.None? {
      var us := Subjects(v.live, req.objType, req.objId, child.arrowRef);
      var subs := Arrows(req, Targets(us), child.arrowPermission);
      assert w == ArrowWalk(b.e, req, child.arrowRef, child.arrowPermission, t, depth);
      assert w == SubWalk(b.e, subs, false, t.Called(1), depth);
      assert Extends(t.Called(1), w.trail);
      forall sub | sub in subs
        ensures exists u :: Related(b.hi, req, child.arrowRef, u) && sub == req.Arrow(ObjectRef(u.typ, u.id), child.arrowPermission)
      {
        var i :| 0 <= i < |us| && subs[i] == sub;
        assert us[i] in us;
        assert Identity(req.objType, req.objId, child.arrowRef, us[i].typ, us[i].id, us[i].relation) in Seen(v);
        assert Related(b.hi, req, child.arrowRef, us[i]);
      }
      ArrowsAsked(b.e, b.x, b.nodes, req, child, t.calls, us);
      SubBracket(b, req, subs, false, t.Called(1), depth, k, free);
      forall u | Related(b.lo, req, child.arrowRef, u)
        ensures req.Arrow(ObjectRef(u.typ, u.id), child.arrowPermission) in subs
      {
        ArrowListed(req, us, u, child.arrowPermission);
      }
    }
  }

  lemma {:induction false} UsersetListed(req: Request, us: seq<SubjectRef>, u: SubjectRef)
    requires u in us
    ensures req.Userset(u) in Usersets(req, us)
  {
    var i :| 0 <= i < |us| && us[i] == u;
    assert Usersets(req, us)[i] == req.Userset(u);
  }

  lemma {:induction false} ArrowListed(req: Request, us: seq<SubjectRef>, u: SubjectRef, permission: string)
    requires u in us
    ensures req.Arrow(ObjectRef(u.typ, u.id), permission) in Arrows(req, Targets(us), permission)
  {
    var i :| 0 <= i < |us| && us[i] == u;
    assert Arrows(req, Targets(us), permission)[i] == req.Arrow(ObjectRef(u.typ, u.id), permission);
  }

  lemma {:induction false} SubBracket(b: Bounds, req: Request, subs: seq<Request>, userset: bool,
                                      t: Trail, depth: nat, k: nat, free: bool)
    requires depth <= b.e.maxDepth && Covers(b)
    requires Inside(b.e, req, b.nodes, subs, userset)
    requires b.x.Contains(t, SubWalk(b.e, subs, userset, t, depth))
    requires Licensed(b, req, t, free) && Free(free, t, SubWalk(b.e, subs, userset, t, depth))
    requires k >= Fuel(b.e, depth + 1)
    ensures var s := b.e.schema; var out := SubWalk(b.e, subs, userset, t, depth).out;
            && PathOk(b, req, out)
            && (out.Allows() ==> exists sub :: sub in subs && SubHolds(s, b.hi, sub, userset, Upto(s, b.hi, b.lo, k)))
            && (out.Denies() && (free || forall sub :: sub in subs && !Skipped(sub, userset) ==> s.Def(sub.Node()).None? && sub.Key() !in t.visited) ==>
                  forall sub :: sub in subs ==> !SubHolds(s, b.lo, sub, userset, Upto(s, b.lo, b.hi, k)))
    decreases Fuel(b.e, depth), 0, 0, |subs|
  {
    if subs != [] {
      var s, sub := b.e.schema, subs[0];
      if Skipped(sub, userset) {
        SubBracket(b, req, subs[1..], userset, t, depth, k, free);
      } else if sub.Key() in t.visited {
        assert Extends(t.Revisit(), SubWalk(b.e, subs[1..], userset, t.Revisit(), depth).trail);
        SubBracket(b, req, subs[1..], userset, t.Revisit(), depth, k, free);
      } else if s.Def(sub.Node()).None? {
        if !userset {
          SubBracket(b, req, subs[1..], userset, t, depth, k, free);
        } else if LookupDirect(b.e.views(t.calls), sub.Grant(sub.perm)) != Ok(true) {
          assert Extends(t.Called(1), SubWalk(b.e, subs[1..], userset, t.Called(1), depth).trail);
          SubBracket(b, req, subs[1..], userset, t.Called(1), depth, k, free);
          assert sub.Grant(sub.perm) !in b.lo.tuples;
        } else {
          assert sub.Grant(sub.perm) in Seen(b.e.views(t.calls));
          assert SubHolds(s, b.hi, sub, userset, Upto(s, b.hi, b.lo, k));
        }
      } else {
        var pd := s.Def(sub.Node()).value;
        var w := PermissionWalk(b.e, sub, pd, t, depth + 1);
        if w.out.Denies() {
          assert Extends(w.trail, SubWalk(b.e, subs[1..], userset, w.trail, depth).trail);
        }
        PermissionBracket(b, sub, pd, t, depth + 1, k, free);
        assert w.out.Allows() ==> SubHolds(s, b.hi, sub, userset, Upto(s, b.hi, b.lo, k));
        if w.out.Denies() {
          if !free && !NoExclusion(s) {
            PermissionStays(b.e, b.x, b.nodes, sub, pd, t, depth + 1, false);
          }
          SubBracket(b, req, subs[1..], userset, w.trail, depth, k, free);
        }
      }
    }
  }
}
