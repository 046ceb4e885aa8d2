/**
 Where the shared visited set does change answers: a node already answered "allow" is answered
 "deny" when it is met again, so two arrows to one folder defeat an intersection and an exclusion.
 */
module Limitations {
  import opened Wrappers
  import opened Tuples
  import opened Keys
  import opened Schemas
  import opened WalkSpec
  import opened Rules
  import opened Checks

  const PARENT := PermissionRef("", "parent", "view", "")
  const OWNER := PermissionRef("", "owner", "view", "")
  const VIEWER := PermissionRef("viewer", "", "", "")

  function FolderView(): PermissionDef {
    PermissionDef("view", DirectOp, [VIEWER], None)
  }

  // doc#read over both arrows, and folder#view resolved from the viewer relation.
  function TwoArrows(op: PermOp): Schema {
    Schema(map[
      "doc" := TypeDef("doc", map[], map["read" := PermissionDef("read", op, [PARENT, OWNER], None)]),
      "folder" := TypeDef("folder", map[], map["view" := FolderView()])])
  }

  // Any document, any folder that is both its parent and its owner, any viewer of the folder.
  datatype Ids = Ids(doc: string, folder: string, user: string) {
    function Arrow(relation: string): Identity {
      Identity("doc", doc, relation, "folder", folder, "")
    }

    function Views(): Identity {
      Identity("folder", folder, "viewer", "user", user, "")
    }

    function Read(): Request {
      Request("doc", doc, "read", "user", user, map[])
    }

    function View(): Request {
      Request("folder", folder, "view", "user", user, map[])
    }

    function Store(): View {
      Tuples.View(None, [Arrow("parent"), Arrow("owner"), Views()], map[], map[])
    }
  }

  ghost predicate Setup(e: Env, x: Ids, op: PermOp) {
    && e.schema.GetPermission("doc", "read") == Some(PermissionDef("read", op, [PARENT, OWNER], None))
    && e.schema.GetPermission("folder", "view") == Some(FolderView())
    && e.maxDepth >= 1
    && forall c: nat :: e.views(c) == x.Store()
  }

  lemma {:induction false} SetupPossible(x: Ids, op: PermOp, compiles: string -> bool, holds: (string, Attrs, Attrs, Attrs) -> CondOutcome)
    ensures Setup(Env(TwoArrows(op), 25, (c: nat) => x.Store(), compiles, holds), x, op)
  {
    assert |"doc"| != |"folder"|;
  }

  lemma {:induction false} SubjectsLast(init: seq<Identity>, last: Identity, typ: string, id: string, relation: string)
    ensures Subjects(init + [last], typ, id, relation) ==
            Subjects(init, typ, id, relation)
            + if last.objType == typ && last.objId == id && last.relation == relation
              then [SubjectRef(last.subType, last.subId, last.subRel)] else []
  {
    assert (init + [last])[..|init|] == init;
  }

  lemma {:induction false} TargetsOf(x: Ids, relation: string)
    requires relation == "parent" || relation == "owner"
    ensures LookupTargets(x.Store(), "doc", x.doc, relation) == Ok([ObjectRef("folder", x.folder)])
  {
    var a, b, c := x.Arrow("parent"), x.Arrow("owner"), x.Views();
    SubjectsLast([], a, "doc", x.doc, relation);
    SubjectsLast([a], b, "doc", x.doc, relation);
    SubjectsLast([a, b], c, "doc", x.doc, relation);
    assert [] + [a] == [a] && [a] + [b] == [a, b] && [a, b] + [c] == x.Store().live;
    assert |"doc"| == 3 && |"folder"| == 6 && |"parent"| == 6 && |"owner"| == 5;
    assert Subjects(x.Store().live, "doc", x.doc, relation) == [SubjectRef("folder", x.folder, "")];
    assert Targets([SubjectRef("folder", x.folder, "")]) == [ObjectRef("folder", x.folder)];
  }

  lemma {:induction false} FolderAllows(e: Env, x: Ids, op: PermOp, t: Trail)
    requires Setup(e, x, op) && x.View().Key() !in t.visited
    ensures PermissionWalk(e, x.View(), FolderView(), t, 1).out.Allows()
    ensures PermissionWalk(e, x.View(), FolderView(), t, 1).trail.visited == t.visited + {x.View().Key()}
  {
    var req, t1 := x.View(), t.Enter(x.View().Key());
    assert req.Grant("viewer") == x.Views() && x.Views() in x.Store().live;
    assert LookupDirect(e.views(t1.calls), x.Views()) == Ok(true);
    var w := RelationWalk(e, req, "viewer", t1, 1);
    assert w.out.Allows() && w.trail.visited == t1.visited;
    assert ListWalk(e, req, [VIEWER], true, t1, 1) == w by {
      assert ChildWalk(e, req, VIEWER, t1, 1) == w;
    }
  }

  lemma {:induction false} SubWalkOne(e: Env, sub: Request, userset: bool, t: Trail, depth: nat)
    requires depth <= e.maxDepth && !Skipped(sub, userset) && e.schema.GetPermission(sub.objType, sub.perm).Some?
    ensures sub.Key() in t.visited ==> SubWalk(e, [sub], userset, t, depth) == Walk(DENY, t.Revisit())
    ensures sub.Key() !in t.visited ==>
              var w := PermissionWalk(e, sub, e.schema.GetPermission(sub.objType, sub.perm).value, t, depth + 1);
              SubWalk(e, [sub], userset, t, depth) == if w.out.Fail? || w.out.allowed then w else Walk(DENY, w.trail)
  {
    assert [sub][1..] == [];
  }

  // The first arrow walks the folder and allows; the second meets its key again and denies.
  lemma {:induction false} ArrowWalked(e: Env, x: Ids, op: PermOp, relation: string, t: Trail)
    requires Setup(e, x, op) && (relation == "parent" || relation == "owner")
    ensures var w := ArrowWalk(e, x.Read(), relation, "view", t, 0);
            if x.View().Key() in t.visited then w.out == DENY
            else w.out.Allows() && x.View().Key() in w.trail.visited
  {
    TargetsOf(x, relation);
    assert Arrows(x.Read(), [ObjectRef("folder", x.folder)], "view") == [x.View()];
    assert ArrowWalk(e, x.Read(), relation, "view", t, 0) == SubWalk(e, [x.View()], false, t.Called(1), 0);
    SubWalkOne(e, x.View(), false, t.Called(1), 0);
    if x.View().Key() !in t.visited {
      FolderAllows(e, x, op, t.Called(1));
    }
  }

  lemma {:induction false} KeysDiffer(x: Ids)
    ensures x.Read().Key() != x.View().Key()
  {
    JoinText("doc", ':', Join(x.doc, '#', Join("read", '@', Join("user", ':', x.user))));
    JoinText("folder", ':', Join(x.folder, '#', Join("view", '@', Join("user", ':', x.user))));
    assert x.Read().Key()[0] == 'd' && x.View().Key()[0] == 'f';
  }

  lemma {:induction false} ListOfTwo(e: Env, req: Request, stop: bool, t: Trail)
    requires 0 <= e.maxDepth
    ensures var w := ArrowWalk(e, req, "parent", "view", t, 0);
            ListWalk(e, req, [PARENT, OWNER], stop, t, 0) ==
              if w.out.Fail? || w.out.allowed == stop then w else ListWalk(e, req, [OWNER], stop, w.trail, 0)
  {
    assert [PARENT, OWNER][1..] == [OWNER];
    assert ChildWalk(e, req, PARENT, t, 0) == ArrowWalk(e, req, "parent", "view", t, 0);
  }

  lemma {:induction false} ListOfOne(e: Env, req: Request, stop: bool, t: Trail)
    requires 0 <= e.maxDepth
    ensures var w := ArrowWalk(e, req, "owner", "view", t, 0);
            ListWalk(e, req, [OWNER], stop, t, 0) ==
              if w.out.Fail? || w.out.allowed == stop then w else Walk(Answer(!stop, []), w.trail)
  {
    assert [OWNER][1..] == [];
    assert ChildWalk(e, req, OWNER, t, 0) == ArrowWalk(e, req, "owner", "view", t, 0);
  }

  // What the rules say about the folder and the two arrows.
  lemma {:induction false} ArrowHoldsFrom(e: Env, x: Ids, op: PermOp, k: nat, child: PermissionRef)
    requires Setup(e, x, op) && (child == PARENT || child == OWNER)
    ensures ChildHolds(e.schema, FactsOf(e), x.Read(), child, Upto(e.schema, FactsOf(e), FactsOf(e), k)) <==> k > 0
  {
    var s, f := e.schema, FactsOf(e);
    if k > 0 {
      var p := Upto(s, f, f, k - 1);
      assert x.View().Grant("viewer") == x.Views() && x.Views() in f.tuples;
      assert ChildHolds(s, f, x.View(), VIEWER, p);
      assert VIEWER in FolderView().children;
      assert Eval(s, f, f, k, x.View());
      var u := SubjectRef("folder", x.folder, "");
      assert x.Arrow(child.arrowRef) in f.tuples;
      assert Related(f, x.Read(), child.arrowRef, u);
      assert x.Read().Arrow(ObjectRef("folder", x.folder), "view") == x.View();
      assert SubHolds(s, f, x.View(), false, Upto(s, f, f, k));
    }
  }

  /** An intersection of two arrows to one folder: granted by the rules, denied by the check. */
  lemma {:induction false} IntersectionDeniesGranted(e: Env, x: Ids)
    requires Setup(e, x, Intersect)
    ensures Decide(e, x.Read()).out == DENY && Granted(e.schema, FactsOf(e), x.Read())
  {
    KeysDiffer(x);
    var t := START.Enter(x.Read().Key());
    var w := ArrowWalk(e, x.Read(), "parent", "view", t, 0);
    ArrowWalked(e, x, Intersect, "parent", t);
    ArrowWalked(e, x, Intersect, "owner", w.trail);
    ListOfTwo(e, x.Read(), false, t);
    ListOfOne(e, x.Read(), false, w.trail);
    var pd := PermissionDef("read", Intersect, [PARENT, OWNER], None);
    assert PermissionWalk(e, x.Read(), pd, START, 0) == ListWalk(e, x.Read(), [PARENT, OWNER], false, t, 0);
    ArrowHoldsFrom(e, x, Intersect, 1, PARENT);
    ArrowHoldsFrom(e, x, Intersect, 1, OWNER);
    assert Eval(e.schema, FactsOf(e), FactsOf(e), 2, x.Read());
  }

  lemma {:induction false} ExclusionWalked(e: Env, x: Ids)
    requires Setup(e, x, Exclusion)
    ensures Decide(e, x.Read()).out == ALLOW
  {
    KeysDiffer(x);
    var t := START.Enter(x.Read().Key());
    var w := ArrowWalk(e, x.Read(), "parent", "view", t, 0);
    ArrowWalked(e, x, Exclusion, "parent", t);
    ArrowWalked(e, x, Exclusion, "owner", w.trail);
    ListOfOne(e, x.Read(), true, w.trail);
    var pd := PermissionDef("read", Exclusion, [PARENT, OWNER], None);
    assert pd.children[1..] == [OWNER];
    assert ChildWalk(e, x.Read(), PARENT, t, 0) == w;
    assert PermissionWalk(e, x.Read(), pd, START, 0).out == ALLOW;
  }

  /** An exclusion between two arrows to one folder: derivable at no depth, allowed by the check. */
  lemma {:induction false} ExclusionAllowsUngranted(e: Env, x: Ids)
    requires Setup(e, x, Exclusion)
    ensures Decide(e, x.Read()).out == ALLOW && !Granted(e.schema, FactsOf(e), x.Read())
  {
    ExclusionWalked(e, x);
    forall k: nat
      ensures !Eval(e.schema, FactsOf(e), FactsOf(e), k, x.Read())
    {
      if k > 0 {
        ArrowHoldsFrom(e, x, Exclusion, k - 1, PARENT);
        ArrowHoldsFrom(e, x, Exclusion, k - 1, OWNER);
        assert OWNER in [PARENT, OWNER][1..];
      }
    }
  }

  // A folder whose id contains '#', and a userset tuple whose printed key is that folder's own.
  ghost predicate Collides(e: Env, a: string, b: string, user: string) {
    && e.schema.GetPermission("folder", "view") == Some(FolderView())
    && e.schema.GetPermission("folder", b + "#view").None?
    && e.maxDepth >= 0
    && forall c: nat :: e.views(c) == View(None, [Folder(a, b), Member(a, b, user)], map[], map[])
  }

  /** Such stores exist for any ids. */
  lemma {:induction false} CollidesPossible(a: string, b: string, user: string, compiles: string -> bool, holds: (string, Attrs, Attrs, Attrs) -> CondOutcome)
    ensures var folders := Schema(map["folder" := TypeDef("folder", map[], map["view" := FolderView()])]);
            Collides(Env(folders, 25, (c: nat) => View(None, [Folder(a, b), Member(a, b, user)], map[], map[]), compiles, holds), a, b, user)
  {
    assert |b + "#view"| > |"view"|;
  }

  function CollidingRead(a: string, b: string, user: string): Request {
    Request("folder", a + "#" + b, "view", "user", user, map[])
  }

  function Folder(a: string, b: string): Identity {
    Identity("folder", a + "#" + b, "viewer", "folder", a, b + "#view")
  }

  function Member(a: string, b: string, user: string): Identity {
    Identity("folder", a, b + "#view", "user", user, "")
  }

  function Userset(a: string, b: string): SubjectRef {
    SubjectRef("folder", a, b + "#view")
  }

  lemma {:induction false} SubjectsOfFolder(a: string, b: string, user: string)
    ensures Subjects([Folder(a, b), Member(a, b, user)], "folder", a + "#" + b, "viewer") == [Userset(a, b)]
  {
    var i1, i2 := Folder(a, b), Member(a, b, user);
    SubjectsLast([], i1, "folder", a + "#" + b, "viewer");
    SubjectsLast([i1], i2, "folder", a + "#" + b, "viewer");
    assert |a + "#" + b| != |a|;
    assert [] + [i1] == [i1] && [i1] + [i2] == [i1, i2];
  }

  lemma {:induction false} NotDirect(e: Env, a: string, b: string, user: string, c: nat)
    requires Collides(e, a, b, user)
    ensures LookupDirect(e.views(c), CollidingRead(a, b, user).Grant("viewer")) == Ok(false)
  {
    assert |"user"| != |"folder"| && |a + "#" + b| != |a|;
    assert CollidingRead(a, b, user).Grant("viewer") !in [Folder(a, b), Member(a, b, user)];
  }

  lemma {:induction false} SkippedVisited(e: Env, sub: Request, t: Trail)
    requires 0 <= e.maxDepth && sub.Key() in t.visited
    ensures SubWalk(e, [sub], true, t, 0).out == DENY
  {
    assert [sub][1..] == [];
  }

  lemma {:induction false} ViewerOnly(e: Env, req: Request, t: Trail)
    requires 0 <= e.maxDepth && RelationWalk(e, req, "viewer", t, 0).out == DENY
    ensures ListWalk(e, req, [VIEWER], true, t, 0).out == DENY
  {
    assert [VIEWER][1..] == [];
    assert ChildWalk(e, req, VIEWER, t, 0) == RelationWalk(e, req, "viewer", t, 0);
  }

  lemma {:induction false} CollisionWalked(e: Env, a: string, b: string, user: string)
    requires Collides(e, a, b, user)
    ensures Decide(e, CollidingRead(a, b, user)).out == DENY
  {
    var req := CollidingRead(a, b, user);
    var sub, t := req.Userset(Userset(a, b)), START.Enter(req.Key());
    SameText(a, b, Join("user", ':', user));
    assert sub.Key() == req.Key();
    NotDirect(e, a, b, user, 0);
    SubjectsOfFolder(a, b, user);
    assert Usersets(req, [Userset(a, b)]) == [sub];
    SkippedVisited(e, sub, t.Called(2));
    assert RelationWalk(e, req, "viewer", t, 0) == SubWalk(e, [sub], true, t.Called(2), 0);
    ViewerOnly(e, req, t);
  }

  /**
   Keys apart are needed: the userset folder:a with relation "b#view" names no permission and has a
   direct tuple for the user, but prints like folder "a#b" with permission "view", so it is skipped as visited.
   */
  lemma {:induction false} KeyCollisionDeniesGranted(e: Env, a: string, b: string, user: string)
    requires Collides(e, a, b, user)
    ensures var req := CollidingRead(a, b, user);
            Decide(e, req).out == DENY && Granted(e.schema, FactsOf(e), req)
  {
    CollisionWalked(e, a, b, user);
    var req := CollidingRead(a, b, user);
    var u := Userset(a, b);
    var sub, s, f := req.Userset(u), e.schema, FactsOf(e);
    assert Folder(a, b) in f.tuples && Member(a, b, user) in f.tuples;
    assert Related(f, req, "viewer", u) && SubHolds(s, f, sub, true, Upto(s, f, f, 0));
    assert ChildHolds(s, f, req, VIEWER, Upto(s, f, f, 0)) && VIEWER in FolderView().children;
    assert Eval(s, f, f, 1, req);
  }

  lemma {:induction false} SameText(a: string, b: string, tail: string)
    ensures Join(a + "#" + b, '#', Join("view", '@', tail)) == Join(a, '#', Join(b + "#view", '@', tail))
  {
    PermText(a + "#" + b, "view", tail);
    PermText(a, b + "#view", tail);
    assert a + "#" + b + ['#'] + "view" == a + ['#'] + (b + "#view");
  }
}
