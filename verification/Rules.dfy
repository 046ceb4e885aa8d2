/**
 The meaning of a schema: rewrite rules over a set of tuples, and their least fixed point.
 Nothing here mentions a visited set, a depth or an order.
 */
module Rules {
  import opened Wrappers
  import opened Tuples
  import opened Keys
  import opened Schemas
  import opened WalkSpec

  // The tuples in force, and which conditions allow which requests.
  datatype Facts = Facts(tuples: iset<Identity>, cond: (string, Request) -> bool)

  ghost predicate Related(f: Facts, req: Request, relation: string, u: SubjectRef) {
    Identity(req.objType, req.objId, relation, u.typ, u.id, u.relation) in f.tuples
  }

  // A sub-request holds by `p` when it names a permission; a userset that names none needs a direct tuple.
  ghost predicate SubHolds(s: Schema, f: Facts, sub: Request, userset: bool, p: Request -> bool) {
    && !Skipped(sub, userset)
    && if s.Def(sub.Node()).Some? then p(sub) else userset && sub.Grant(sub.perm) in f.tuples
  }

  ghost predicate RelationHolds(s: Schema, f: Facts, req: Request, relation: string, p: Request -> bool) {
    || req.Grant(relation) in f.tuples
    || exists u :: Related(f, req, relation, u) && SubHolds(s, f, req.Userset(u), true, p)
  }

  ghost predicate ArrowHolds(s: Schema, f: Facts, req: Request, relation: string, permission: string, p: Request -> bool) {
    exists u :: Related(f, req, relation, u) && SubHolds(s, f, req.Arrow(ObjectRef(u.typ, u.id), permission), false, p)
  }

  ghost predicate ChildHolds(s: Schema, f: Facts, req: Request, child: PermissionRef, p: Request -> bool) {
    match child.Kind()
    case RelationKind => RelationHolds(s, f, req, child.relationRef, p)
    case ArrowKind => ArrowHolds(s, f, req, child.arrowRef, child.arrowPermission, p)
    case ConditionKind => f.cond(child.conditionExpr, req)
  }

  // One application of the rules. Excluded children are read in `neg` and by `q`, everything else in `pos` and by `p`.
  ghost predicate DefHolds(s: Schema, pos: Facts, neg: Facts, req: Request, pd: PermissionDef, p: Request -> bool, q: Request -> bool) {
    match pd.operation
    case Union => exists c :: c in pd.children && ChildHolds(s, pos, req, c, p)
    case DirectOp => exists c :: c in pd.children && ChildHolds(s, pos, req, c, p)
    case Intersect => pd.children != [] && forall c :: c in pd.children ==> ChildHolds(s, pos, req, c, p)
    case Exclusion =>
      && pd.children != []
      && ChildHolds(s, pos, req, pd.children[0], p)
      && forall c :: c in pd.children[1..] ==> !ChildHolds(s, neg, req, c, q)
    case OtherOp(_) => false
  }

  ghost predicate Holds(s: Schema, pos: Facts, neg: Facts, req: Request, p: Request -> bool, q: Request -> bool) {
    var pd := s.Def(req.Node());
    pd.Some? && DefHolds(s, pos, neg, req, pd.value, p, q)
  }

  // Plain recursive evaluation, k rule applications deep. With pos == neg this is the ordinary reading.
  ghost predicate Eval(s: Schema, pos: Facts, neg: Facts, k: nat, req: Request)
    decreases k, 0
  {
    k > 0 && Holds(s, pos, neg, req, Upto(s, pos, neg, k - 1), Upto(s, neg, pos, k - 1))
  }

  ghost function Upto(s: Schema, pos: Facts, neg: Facts, k: nat): Request -> bool
    decreases k, 1
  {
    r => Eval(s, pos, neg, k, r)
  }

  // The least fixed point of the rules over one set of facts.
  ghost predicate Granted(s: Schema, f: Facts, req: Request) {
    exists k: nat :: Eval(s, f, f, k, req)
  }

  // A leaf's value does not depend on any other permission.
  ghost predicate Leaf(s: Schema, f: Facts, req: Request, child: PermissionRef) {
    match child.Kind()
    case RelationKind =>
      forall u :: Related(f, req, child.relationRef, u) && u.relation != "" ==> s.Def(req.Userset(u).Node()).None?
    case ArrowKind => false
    case ConditionKind => true
  }

  ghost function Declared(s: Schema): iset<Node> {
    iset n | s.Def(n).Some?
  }

  // Excluded children are leaves; the base is arbitrary.
  ghost predicate TailLeaves(s: Schema, f: Facts, req: Request, pd: PermissionDef) {
    pd.operation.Exclusion? && pd.children != [] ==> forall c :: c in pd.children[1..] ==> Leaf(s, f, req, c)
  }

  ghost predicate TailsAreLeaves(s: Schema, f: Facts, nodes: iset<Node>) {
    forall req: Request :: req.Node() in nodes && s.Def(req.Node()).Some? ==> TailLeaves(s, f, req, s.Def(req.Node()).value)
  }

  // Intersections have a non-leaf at most in the last place, and exclusions consist of leaves.
  ghost predicate LinearDef(s: Schema, f: Facts, req: Request, pd: PermissionDef) {
    && (pd.operation.Intersect? && pd.children != [] ==>
          forall c :: c in pd.children[..|pd.children| - 1] ==> Leaf(s, f, req, c))
    && (pd.operation.Exclusion? ==> forall c :: c in pd.children ==> Leaf(s, f, req, c))
  }

  ghost predicate OneNonLeaf(s: Schema, f: Facts, req: Request, children: seq<PermissionRef>) {
    forall i, j :: 0 <= i < j < |children| ==> Leaf(s, f, req, children[i]) || Leaf(s, f, req, children[j])
  }

  // The root may do more: one non-leaf anywhere in an intersection, any base in an exclusion.
  ghost predicate RootDef(s: Schema, f: Facts, req: Request, pd: PermissionDef) {
    TailLeaves(s, f, req, pd) && (pd.operation.Intersect? ==> OneNonLeaf(s, f, req, pd.children))
  }

  ghost predicate Linear(s: Schema, f: Facts, nodes: iset<Node>) {
    forall req: Request :: req.Node() in nodes && s.Def(req.Node()).Some? ==> LinearDef(s, f, req, s.Def(req.Node()).value)
  }

  // Linear on the given nodes, as far as a check of `root` needs it.
  ghost predicate LinearFrom(s: Schema, f: Facts, nodes: iset<Node>, root: Request) {
    forall req: Request :: req.Node() in nodes && s.Def(req.Node()).Some? ==>
      var pd := s.Def(req.Node()).value;
      if req.Node() == root.Node() then RootDef(s, f, req, pd) else LinearDef(s, f, req, pd)
  }

  lemma {:induction false} LinearIsRootDef(s: Schema, f: Facts, req: Request, pd: PermissionDef)
    requires LinearDef(s, f, req, pd)
    ensures RootDef(s, f, req, pd)
  {
    forall i, j | pd.operation.Intersect? && 0 <= i < j < |pd.children|
      ensures Leaf(s, f, req, pd.children[i]) || Leaf(s, f, req, pd.children[j])
    {
      assert pd.children[..|pd.children| - 1][i] == pd.children[i];
    }
  }

  lemma {:induction false} LinearIsLinearFrom(s: Schema, f: Facts, nodes: iset<Node>, root: Request)
    requires Linear(s, f, nodes)
    ensures LinearFrom(s, f, nodes, root)
  {
    forall req: Request | req.Node() in nodes && s.Def(req.Node()).Some?
      ensures RootDef(s, f, req, s.Def(req.Node()).value)
    {
      LinearIsRootDef(s, f, req, s.Def(req.Node()).value);
    }
  }

  lemma {:induction false} LinearFromTails(s: Schema, f: Facts, nodes: iset<Node>, root: Request)
    requires LinearFrom(s, f, nodes, root)
    ensures TailsAreLeaves(s, f, nodes)
  {
    forall req: Request | req.Node() in nodes && s.Def(req.Node()).Some? && req.Node() != root.Node()
      ensures TailLeaves(s, f, req, s.Def(req.Node()).value)
    {
      LinearIsRootDef(s, f, req, s.Def(req.Node()).value);
    }
  }

  lemma {:induction false} UnionOnlyIsLinear(s: Schema, f: Facts)
    requires UnionOnly(s)
    ensures Linear(s, f, Declared(s)) && NoExclusion(s)
  {
  }

  // The texts of the inline conditions of the given nodes.
  ghost predicate Inline(s: Schema, nodes: iset<Node>, text: string) {
    exists n, c :: n in nodes && s.Def(n).Some? && c in s.Def(n).value.children && c.Kind().ConditionKind? && c.conditionExpr == text
  }

  ghost predicate Weaker(p: Request -> bool, q: Request -> bool) {
    forall r :: p(r) ==> q(r)
  }

  ghost predicate FactsWithin(f: Facts, g: Facts) {
    f.tuples <= g.tuples && forall x, r :: f.cond(x, r) ==> g.cond(x, r)
  }

  lemma {:induction false} ChildMono(s: Schema, f: Facts, g: Facts, req: Request, child: PermissionRef, p: Request -> bool, q: Request -> bool)
    requires FactsWithin(f, g) && Weaker(p, q)
    requires ChildHolds(s, f, req, child, p)
    ensures ChildHolds(s, g, req, child, q)
  {
    match child.Kind()
    case RelationKind =>
      if req.Grant(child.relationRef) !in f.tuples {
        var u :| Related(f, req, child.relationRef, u) && SubHolds(s, f, req.Userset(u), true, p);
        assert Related(g, req, child.relationRef, u);
      }
    case ArrowKind =>
      var u :| Related(f, req, child.arrowRef, u) && SubHolds(s, f, req.Arrow(ObjectRef(u.typ, u.id), child.arrowPermission), false, p);
      assert Related(g, req, child.arrowRef, u);
    case ConditionKind =>
  }

  lemma {:induction false} LeafIgnores(s: Schema, f: Facts, req: Request, child: PermissionRef, p: Request -> bool, q: Request -> bool)
    requires Leaf(s, f, req, child)
    ensures ChildHolds(s, f, req, child, p) == ChildHolds(s, f, req, child, q)
  {
    if child.Kind().RelationKind? {
      forall u | Related(f, req, child.relationRef, u)
        ensures SubHolds(s, f, req.Userset(u), true, p) == SubHolds(s, f, req.Userset(u), true, q)
      {
      }
    }
  }

  // Excluded leaves ignore the other permissions, so the rules are monotone.
  lemma {:induction false} HoldsMono(s: Schema, pos: Facts, neg: Facts, req: Request,
                  p: Request -> bool, p': Request -> bool, q: Request -> bool, q': Request -> bool)
    requires Holds(s, pos, neg, req, p, q) && Weaker(p, p')
    requires TailLeaves(s, neg, req, s.Def(req.Node()).value)
    ensures Holds(s, pos, neg, req, p', q')
  {
    var pd := s.Def(req.Node()).value;
    forall c | ChildHolds(s, pos, req, c, p)
      ensures ChildHolds(s, pos, req, c, p')
    {
      assert FactsWithin(pos, pos);
      ChildMono(s, pos, pos, req, c, p, p');
    }
    if pd.operation.Exclusion? {
      forall c | c in pd.children[1..]
        ensures !ChildHolds(s, neg, req, c, q')
      {
        LeafIgnores(s, neg, req, c, q, q');
      }
    }
  }

  // Without exclusion the negative facts play no part.
  lemma {:induction false} EvalPositive(s: Schema, pos: Facts, neg: Facts, neg': Facts, k: nat, req: Request)
    requires NoExclusion(s) && Eval(s, pos, neg, k, req)
    ensures Eval(s, pos, neg', k, req)
    decreases k
  {
    var p, p' := Upto(s, pos, neg, k - 1), Upto(s, pos, neg', k - 1);
    forall r | p(r)
      ensures p'(r)
    {
      EvalPositive(s, pos, neg, neg', k - 1, r);
    }
    assert !s.Def(req.Node()).value.operation.Exclusion?;
    forall c | ChildHolds(s, pos, req, c, p)
      ensures ChildHolds(s, pos, req, c, p')
    {
      ChildMono(s, pos, pos, req, c, p, p');
    }
  }

  ghost function GrantedSet(s: Schema, f: Facts): Request -> bool {
    r => Granted(s, f, r)
  }

  lemma {:induction false} EvalDeeper(s: Schema, f: Facts, k: nat, m: nat, req: Request)
    requires TailsAreLeaves(s, f, Declared(s)) && k <= m && Eval(s, f, f, k, req)
    ensures Eval(s, f, f, m, req)
    decreases k
  {
    var p, p' := Upto(s, f, f, k - 1), Upto(s, f, f, m - 1);
    forall r | p(r)
      ensures p'(r)
    {
      EvalDeeper(s, f, k - 1, m - 1, r);
    }
    HoldsMono(s, f, f, req, p, p', p, p');
  }

  lemma {:induction false} ChildDeeper(s: Schema, f: Facts, req: Request, child: PermissionRef, k: nat, m: nat)
    requires TailsAreLeaves(s, f, Declared(s)) && k <= m
    requires ChildHolds(s, f, req, child, Upto(s, f, f, k))
    ensures ChildHolds(s, f, req, child, Upto(s, f, f, m))
  {
    var p, p' := Upto(s, f, f, k), Upto(s, f, f, m);
    forall r | p(r)
      ensures p'(r)
    {
      EvalDeeper(s, f, k, m, r);
    }
    assert FactsWithin(f, f);
    ChildMono(s, f, f, req, child, p, p');
  }

  /** `Granted` satisfies the rules: a request is granted exactly when one rule application over the granted requests yields it. */
  lemma {:induction false} GrantedIsFixedPoint(s: Schema, f: Facts, req: Request)
    requires TailsAreLeaves(s, f, Declared(s))
    ensures Granted(s, f, req) <==> Holds(s, f, f, req, GrantedSet(s, f), GrantedSet(s, f))
  {
    var g := GrantedSet(s, f);
    if Granted(s, f, req) {
      var k: nat :| Eval(s, f, f, k, req);
      var p := Upto(s, f, f, k - 1);
      forall r | p(r)
        ensures g(r)
      {
        assert Eval(s, f, f, k - 1, r);
      }
      HoldsMono(s, f, f, req, p, g, p, g);
    }
    if Holds(s, f, f, req, g, g) {
      var pd := s.Def(req.Node()).value;
      var k := Witness(s, f, req, pd);
      var p := Upto(s, f, f, k);
      if pd.operation.Exclusion? {
        assert TailLeaves(s, f, req, pd);
        forall c | c in pd.children[1..]
          ensures !ChildHolds(s, f, req, c, p)
        {
          LeafIgnores(s, f, req, c, g, p);
        }
      }
      assert Eval(s, f, f, k + 1, req);
    }
  }

  // One depth at which every child the rule needs already holds.
  lemma {:induction false} Witness(s: Schema, f: Facts, req: Request, pd: PermissionDef) returns (k: nat)
    requires TailsAreLeaves(s, f, Declared(s)) && s.Def(req.Node()) == Some(pd)
    requires Holds(s, f, f, req, GrantedSet(s, f), GrantedSet(s, f))
    ensures pd.operation.Union? || pd.operation.DirectOp? ==> exists c :: c in pd.children && ChildHolds(s, f, req, c, Upto(s, f, f, k))
    ensures pd.operation.Intersect? ==> forall c :: c in pd.children ==> ChildHolds(s, f, req, c, Upto(s, f, f, k))
    ensures pd.operation.Exclusion? ==> ChildHolds(s, f, req, pd.children[0], Upto(s, f, f, k))
  {
    var g := GrantedSet(s, f);
    match pd.operation {
      case Union =>
        var child :| child in pd.children && ChildHolds(s, f, req, child, g);
        k := ChildWitness(s, f, req, child);
      case DirectOp =>
        var child :| child in pd.children && ChildHolds(s, f, req, child, g);
        k := ChildWitness(s, f, req, child);
      case Intersect => k := CommonWitness(s, f, req, pd.children);
      case Exclusion => k := ChildWitness(s, f, req, pd.children[0]);
    }
  }

  lemma {:induction false} CommonWitness(s: Schema, f: Facts, req: Request, children: seq<PermissionRef>) returns (k: nat)
    requires TailsAreLeaves(s, f, Declared(s)) && forall c :: c in children ==> ChildHolds(s, f, req, c, GrantedSet(s, f))
    ensures forall c :: c in children ==> ChildHolds(s, f, req, c, Upto(s, f, f, k))
  {
    k := 0;
    if children != [] {
      var first, rest := children[0], children[1..];
      var m := ChildWitness(s, f, req, first);
      var n := CommonWitness(s, f, req, rest);
      k := if m < n then n else m;
      ChildDeeper(s, f, req, first, m, k);
      forall c | c in rest
        ensures ChildHolds(s, f, req, c, Upto(s, f, f, k))
      {
        ChildDeeper(s, f, req, c, n, k);
      }
      assert children == [first] + rest;
    }
  }

  lemma {:induction false} ChildWitness(s: Schema, f: Facts, req: Request, child: PermissionRef) returns (k: nat)
    requires ChildHolds(s, f, req, child, GrantedSet(s, f))
    ensures ChildHolds(s, f, req, child, Upto(s, f, f, k))
  {
    k := 0;
    var g := GrantedSet(s, f);
    match child.Kind()
    case RelationKind =>
      if req.Grant(child.relationRef) !in f.tuples {
        var u :| Related(f, req, child.relationRef, u) && SubHolds(s, f, req.Userset(u), true, g);
        if s.Def(req.Userset(u).Node()).Some? {
          k :| Eval(s, f, f, k, req.Userset(u));
        }
        assert SubHolds(s, f, req.Userset(u), true, Upto(s, f, f, k));
      }
    case ArrowKind =>
      var u :| Related(f, req, child.arrowRef, u) && SubHolds(s, f, req.Arrow(ObjectRef(u.typ, u.id), child.arrowPermission), false, g);
      var sub := req.Arrow(ObjectRef(u.typ, u.id), child.arrowPermission);
      k :| Eval(s, f, f, k, sub);
      assert SubHolds(s, f, sub, false, Upto(s, f, f, k));
    case ConditionKind =>
  }

  /** Every set of requests closed under the rules contains the granted ones. */
  lemma {:induction false} GrantedIsLeast(s: Schema, f: Facts, p: Request -> bool, req: Request)
    requires TailsAreLeaves(s, f, Declared(s))
    requires forall r :: Holds(s, f, f, r, p, p) ==> p(r)
    requires Granted(s, f, req)
    ensures p(req)
  {
    var k: nat :| Eval(s, f, f, k, req);
    EvalInside(s, f, p, k, req);
  }

  lemma {:induction false} EvalInside(s: Schema, f: Facts, p: Request -> bool, k: nat, req: Request)
    requires TailsAreLeaves(s, f, Declared(s))
    requires forall r :: Holds(s, f, f, r, p, p) ==> p(r)
    requires Eval(s, f, f, k, req)
    ensures p(req)
    decreases k
  {
    var q := Upto(s, f, f, k - 1);
    forall r | q(r)
      ensures p(r)
    {
      EvalInside(s, f, p, k - 1, r);
    }
    HoldsMono(s, f, f, req, q, p, q, p);
  }
}
