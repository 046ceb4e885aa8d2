/**
 Why intersections may not have a non-leaf before a leaf, nor exclusions a base that is no leaf: a walk of
 the first folder allows their common parent and then denies the folder, so the second folder meets the
 parent's key again and is denied although the rules grant it.
 */
module Linearity {
  import opened Wrappers
  import opened Tuples
  import opened Keys
  import opened Schemas
  import opened WalkSpec
  import opened Rules
  import opened Checks
  import opened Limitations
  import opened Bracket

  const A_VIEW := PermissionRef("", "a", "view", "")
  const B_VIEW := PermissionRef("", "b", "view", "")
  const BASE := PermissionRef("", "parent", "base", "")
  const GUARD := PermissionRef("guard", "", "", "")
  const MEMBER := PermissionRef("member", "", "", "")
  const READ_DEF := PermissionDef("read", Union, [A_VIEW, B_VIEW], None)
  const BASE_DEF := PermissionDef("base", DirectOp, [MEMBER], None)

  function ViewDef(op: PermOp): PermissionDef {
    PermissionDef("view", op, [BASE, GUARD], None)
  }

  // A document in two folders of one organisation.
  datatype Place = Place(doc: string, f1: string, f2: string, org: string, user: string) {
    function Read(): Request {
      Request("doc", doc, "read", "user", user, map[])
    }

    function View(folder: string): Request {
      Request("folder", folder, "view", "user", user, map[])
    }

    function Base(): Request {
      Request("org", org, "base", "user", user, map[])
    }

    // The folder whose guard names the user: the first is banned by it, or only the second opened by it.
    function Guarded(op: PermOp): string {
      if op.Exclusion? then f1 else f2
    }
  }

  // The relation of the object has exactly one subject in the store, which is no userset.
  ghost predicate OnlySubject(v: View, typ: string, id: string, relation: string, subType: string, subId: string) {
    Subjects(v.live, typ, id, relation) == [SubjectRef(subType, subId, "")]
  }

  ghost predicate TwoFolders(e: Env, x: Place, op: PermOp) {
    var v := e.views(0);
    && (op.Exclusion? || op.Intersect?) && x.f1 != x.f2 && e.maxDepth >= 2
    && e.schema.GetPermission("doc", "read") == Some(READ_DEF)
    && e.schema.GetPermission("folder", "view") == Some(ViewDef(op))
    && e.schema.GetPermission("org", "base") == Some(BASE_DEF)
    && Steady(e) && v.fault.None?
    && OnlySubject(v, "doc", x.doc, "a", "folder", x.f1) && OnlySubject(v, "doc", x.doc, "b", "folder", x.f2)
    && OnlySubject(v, "folder", x.f1, "parent", "org", x.org) && OnlySubject(v, "folder", x.f2, "parent", "org", x.org)
    && OnlySubject(v, "org", x.org, "member", "user", x.user)
    && OnlySubject(v, "folder", x.Guarded(op), "guard", "user", x.user)
    && Subjects(v.live, "folder", if op.Exclusion? then x.f2 else x.f1, "guard") == []
  }

  function FolderSchema(op: PermOp): Schema {
    Schema(map[
      "doc" := TypeDef("doc", map[], map["read" := READ_DEF]),
      "folder" := TypeDef("folder", map[], map["view" := ViewDef(op)]),
      "org" := TypeDef("org", map[], map["base" := BASE_DEF])])
  }

  function FolderStore(x: Place, op: PermOp): seq<Identity> {
    [Identity("doc", x.doc, "a", "folder", x.f1, ""), Identity("doc", x.doc, "b", "folder", x.f2, ""),
     Identity("folder", x.f1, "parent", "org", x.org, ""), Identity("folder", x.f2, "parent", "org", x.org, ""),
     Identity("org", x.org, "member", "user", x.user, ""), Identity("folder", x.Guarded(op), "guard", "user", x.user, "")]
  }

  predicate About(id: Identity, typ: string, objId: string, relation: string) {
    id.objType == typ && id.objId == objId && id.relation == relation
  }

  lemma {:induction false} SubjectsNone(live: seq<Identity>, typ: string, id: string, relation: string)
    requires forall i :: 0 <= i < |live| ==> !About(live[i], typ, id, relation)
    ensures Subjects(live, typ, id, relation) == []
  {
    if live != [] {
      SubjectsNone(live[..|live| - 1], typ, id, relation);
    }
  }

  lemma {:induction false} SubjectsOne(live: seq<Identity>, k: nat, typ: string, id: string, relation: string)
    requires k < |live| && forall i :: 0 <= i < |live| ==> (About(live[i], typ, id, relation) <==> i == k)
    ensures Subjects(live, typ, id, relation) == [SubjectRef(live[k].subType, live[k].subId, live[k].subRel)]
  {
    if k == |live| - 1 {
      SubjectsNone(live[..k], typ, id, relation);
    } else {
      SubjectsOne(live[..|live| - 1], k, typ, id, relation);
    }
  }

  lemma {:induction false} NamesDiffer()
    ensures "doc" != "folder" && "doc" != "org" && "folder" != "org"
    ensures "a" != "b" && "parent" != "guard"
  {
    assert |"doc"| == 3 && |"folder"| == 6 && "doc"[0] == 'd' && "org"[0] == 'o' && |"org"| == 3;
    assert "a"[0] == 'a' && "b"[0] == 'b' && |"parent"| == 6 && |"guard"| == 5;
  }

  lemma {:induction false} DocumentFolders(x: Place, op: PermOp, v: View)
    requires v.live == FolderStore(x, op)
    ensures OnlySubject(v, "doc", x.doc, "a", "folder", x.f1) && OnlySubject(v, "doc", x.doc, "b", "folder", x.f2)
  {
    NamesDiffer();
    SubjectsOne(v.live, 0, "doc", x.doc, "a");
    SubjectsOne(v.live, 1, "doc", x.doc, "b");
  }

  lemma {:induction false} FolderParents(x: Place, op: PermOp, v: View)
    requires v.live == FolderStore(x, op) && x.f1 != x.f2
    ensures OnlySubject(v, "folder", x.f1, "parent", "org", x.org) && OnlySubject(v, "folder", x.f2, "parent", "org", x.org)
  {
    NamesDiffer();
    SubjectsOne(v.live, 2, "folder", x.f1, "parent");
    SubjectsOne(v.live, 3, "folder", x.f2, "parent");
  }

  lemma {:induction false} OrgMember(x: Place, op: PermOp, v: View)
    requires v.live == FolderStore(x, op)
    ensures OnlySubject(v, "org", x.org, "member", "user", x.user)
  {
    NamesDiffer();
    SubjectsOne(v.live, 4, "org", x.org, "member");
  }

  lemma {:induction false} OneGuard(x: Place, op: PermOp, v: View)
    requires v.live == FolderStore(x, op) && x.f1 != x.f2
    ensures OnlySubject(v, "folder", x.Guarded(op), "guard", "user", x.user)
    ensures Subjects(v.live, "folder", if op.Exclusion? then x.f2 else x.f1, "guard") == []
  {
    NamesDiffer();
    SubjectsOne(v.live, 5, "folder", x.Guarded(op), "guard");
    SubjectsNone(v.live, "folder", if op.Exclusion? then x.f2 else x.f1, "guard");
  }

  lemma {:induction false} FolderPermissions(op: PermOp)
    ensures FolderSchema(op).GetPermission("doc", "read") == Some(READ_DEF)
    ensures FolderSchema(op).GetPermission("folder", "view") == Some(ViewDef(op))
    ensures FolderSchema(op).GetPermission("org", "base") == Some(BASE_DEF)
  {
    NamesDiffer();
  }

  /** Such stores exist for any choice of five ids with distinct folders. */
  lemma {:induction false} TwoFoldersPossible(x: Place, op: PermOp, compiles: string -> bool, holds: (string, Attrs, Attrs, Attrs) -> CondOutcome)
    requires (op.Exclusion? || op.Intersect?) && x.f1 != x.f2
    ensures TwoFolders(Env(FolderSchema(op), 25, (c: nat) => View(None, FolderStore(x, op), map[], map[]), compiles, holds), x, op)
  {
    var v := View(None, FolderStore(x, op), map[], map[]);
    FolderPermissions(op);
    DocumentFolders(x, op, v);
    FolderParents(x, op, v);
    OrgMember(x, op, v);
    OneGuard(x, op, v);
  }

  lemma {:induction false} SubjectTuple(v: View, typ: string, id: string, relation: string, u: SubjectRef)
    ensures u in Subjects(v.live, typ, id, relation) <==> Identity(typ, id, relation, u.typ, u.id, u.relation) in v.live
  {
  }

  lemma {:induction false} NodesApart(m: Request, n: Request)
    requires SafeNode(m.Node()) && SafeNode(n.Node()) && m.Node() != n.Node()
    requires m.subType == n.subType && m.subId == n.subId
    ensures m.Key() != n.Key()
  {
    if m.Key() == n.Key() {
      VisitKeyInjective(m.Node(), n.Node(), m.subType, m.subId);
    }
  }

  lemma {:induction false} KeysApart(x: Place)
    requires x.f1 != x.f2
    ensures x.Read().Key() != x.View(x.f1).Key() && x.Read().Key() != x.View(x.f2).Key() && x.Read().Key() != x.Base().Key()
    ensures x.View(x.f1).Key() != x.View(x.f2).Key()
    ensures x.View(x.f1).Key() != x.Base().Key() && x.View(x.f2).Key() != x.Base().Key()
  {
    NamesDiffer();
    NodesApart(x.Read(), x.View(x.f1));
    NodesApart(x.Read(), x.View(x.f2));
    NodesApart(x.Read(), x.Base());
    NodesApart(x.View(x.f1), x.View(x.f2));
    NodesApart(x.View(x.f1), x.Base());
    NodesApart(x.View(x.f2), x.Base());
  }

  lemma {:induction false} ListOfSingle(e: Env, req: Request, child: PermissionRef, stop: bool, t: Trail, depth: nat)
    requires depth <= e.maxDepth
    ensures var w := ChildWalk(e, req, child, t, depth);
            ListWalk(e, req, [child], stop, t, depth) ==
              if w.out.Fail? || w.out.allowed == stop then w else Walk(Answer(!stop, []), w.trail)
  {
    assert [child][1..] == [];
  }

  lemma {:induction false} ListOfPair(e: Env, req: Request, c1: PermissionRef, c2: PermissionRef, stop: bool, t: Trail, depth: nat)
    requires depth <= e.maxDepth
    ensures var w := ChildWalk(e, req, c1, t, depth);
            ListWalk(e, req, [c1, c2], stop, t, depth) ==
              if w.out.Fail? || w.out.allowed == stop then w else ListWalk(e, req, [c2], stop, w.trail, depth)
  {
    assert [c1, c2][1..] == [c2];
  }

  // The arrow of an object with one target.
  lemma {:induction false} ArrowToOne(e: Env, req: Request, relation: string, permission: string, subType: string, subId: string, t: Trail, depth: nat)
    requires depth <= e.maxDepth && Steady(e) && e.views(0).fault.None?
    requires OnlySubject(e.views(0), req.objType, req.objId, relation, subType, subId)
    ensures ArrowWalk(e, req, relation, permission, t, depth)
         == SubWalk(e, [req.Arrow(ObjectRef(subType, subId), permission)], false, t.Called(1), depth)
  {
    assert e.views(t.calls) == e.views(0);
    var us := [SubjectRef(subType, subId, "")];
    assert Targets(us) == [ObjectRef(subType, subId)];
    assert Arrows(req, Targets(us), permission) == [req.Arrow(ObjectRef(subType, subId), permission)];
  }

  lemma {:induction false} MemberWalked(e: Env, x: Place, op: PermOp, t: Trail)
    requires TwoFolders(e, x, op)
    ensures var w := RelationWalk(e, x.Base(), "member", t, 2); w.out.Allows() && w.trail == t.Called(1)
  {
    assert e.views(t.calls) == e.views(0);
    SubjectTuple(e.views(0), "org", x.org, "member", SubjectRef("user", x.user, ""));
  }

  lemma {:induction false} BaseWalked(e: Env, x: Place, op: PermOp, t: Trail)
    requires TwoFolders(e, x, op) && x.Base().Key() !in t.visited
    ensures var w := PermissionWalk(e, x.Base(), BASE_DEF, t, 2);
            w.out.Allows() && w.trail.visited == t.visited + {x.Base().Key()}
  {
    var t1 := t.Enter(x.Base().Key());
    MemberWalked(e, x, op, t1);
    ListOfSingle(e, x.Base(), MEMBER, true, t1, 2);
    assert PermissionWalk(e, x.Base(), BASE_DEF, t, 2) == ListWalk(e, x.Base(), [MEMBER], true, t1, 2);
  }

  lemma {:induction false} ParentWalked(e: Env, x: Place, op: PermOp, folder: string, t: Trail)
    requires TwoFolders(e, x, op) && (folder == x.f1 || folder == x.f2)
    ensures var w := ChildWalk(e, x.View(folder), BASE, t, 1);
            && (x.Base().Key() in t.visited ==> w.out == DENY)
            && (x.Base().Key() !in t.visited ==> w.out.Allows() && w.trail.visited == t.visited + {x.Base().Key()})
  {
    ArrowToOne(e, x.View(folder), "parent", "base", "org", x.org, t, 1);
    assert x.View(folder).Arrow(ObjectRef("org", x.org), "base") == x.Base();
    SubWalkOne(e, x.Base(), false, t.Called(1), 1);
    if x.Base().Key() !in t.visited {
      BaseWalked(e, x, op, t.Called(1));
    }
  }

  // The guard of the first folder: it bans, or it does not open.
  lemma {:induction false} GuardWalked(e: Env, x: Place, op: PermOp, t: Trail)
    requires TwoFolders(e, x, op)
    ensures var w := ChildWalk(e, x.View(x.f1), GUARD, t, 1);
            w.out.Answer? && w.out.allowed == op.Exclusion? && w.trail.visited == t.visited
  {
    var req := x.View(x.f1);
    assert e.views(t.calls) == e.views(0) && e.views(t.calls + 1) == e.views(0);
    SubjectTuple(e.views(0), "folder", x.f1, "guard", SubjectRef("user", x.user, ""));
    assert ChildWalk(e, req, GUARD, t, 1) == RelationWalk(e, req, "guard", t, 1);
    if op.Intersect? {
      assert Usersets(req, []) == [];
      assert RelationWalk(e, req, "guard", t, 1) == SubWalk(e, [], true, t.Called(2), 1);
    }
  }

  // A folder is denied when its base is, or when its guard then answers the wrong way.
  lemma {:induction false} FolderDenied(e: Env, x: Place, op: PermOp, folder: string, t: Trail)
    requires TwoFolders(e, x, op) && x.View(folder).Key() !in t.visited
    requires var base := ChildWalk(e, x.View(folder), BASE, t.Enter(x.View(folder).Key()), 1);
             var guard := ChildWalk(e, x.View(folder), GUARD, base.trail, 1);
             base.out.Answer? && (base.out.allowed ==> guard.out.Answer? && guard.out.allowed == op.Exclusion?)
    ensures var base := ChildWalk(e, x.View(folder), BASE, t.Enter(x.View(folder).Key()), 1);
            var w := PermissionWalk(e, x.View(folder), ViewDef(op), t, 1);
            w.out == DENY && w.trail == if base.out.allowed then ChildWalk(e, x.View(folder), GUARD, base.trail, 1).trail else base.trail
  {
    var req, t1 := x.View(folder), t.Enter(x.View(folder).Key());
    var base := ChildWalk(e, req, BASE, t1, 1);
    if op.Exclusion? {
      assert [BASE, GUARD][1..] == [GUARD];
      ListOfSingle(e, req, GUARD, true, base.trail, 1);
    } else {
      ListOfPair(e, req, BASE, GUARD, false, t1, 1);
      ListOfSingle(e, req, GUARD, false, base.trail, 1);
    }
  }

  lemma {:induction false} BothAdded(keys: set<string>, a: string, b: string)
    ensures keys + {a} + {b} == keys + {a, b}
  {
  }

  lemma {:induction false} FirstFolderDenied(e: Env, x: Place, op: PermOp, t: Trail)
    requires TwoFolders(e, x, op) && x.View(x.f1).Key() !in t.visited && x.Base().Key() !in t.visited
    ensures var w := PermissionWalk(e, x.View(x.f1), ViewDef(op), t, 1);
            w.out == DENY && w.trail.visited == t.visited + {x.View(x.f1).Key(), x.Base().Key()}
  {
    KeysApart(x);
    var t1 := t.Enter(x.View(x.f1).Key());
    ParentWalked(e, x, op, x.f1, t1);
    GuardWalked(e, x, op, ChildWalk(e, x.View(x.f1), BASE, t1, 1).trail);
    FolderDenied(e, x, op, x.f1, t);
    BothAdded(t.visited, x.View(x.f1).Key(), x.Base().Key());
  }

  lemma {:induction false} SecondFolderDenied(e: Env, x: Place, op: PermOp, t: Trail)
    requires TwoFolders(e, x, op) && x.View(x.f2).Key() !in t.visited && x.Base().Key() in t.visited
    ensures PermissionWalk(e, x.View(x.f2), ViewDef(op), t, 1).out == DENY
  {
    ParentWalked(e, x, op, x.f2, t.Enter(x.View(x.f2).Key()));
    FolderDenied(e, x, op, x.f2, t);
  }

  // One of the two arrows of the document.
  lemma {:induction false} FolderArrow(e: Env, x: Place, op: PermOp, child: PermissionRef, t: Trail)
    requires TwoFolders(e, x, op) && (child == A_VIEW || child == B_VIEW)
    ensures var folder := if child == A_VIEW then x.f1 else x.f2;
            ChildWalk(e, x.Read(), child, t, 0) == SubWalk(e, [x.View(folder)], false, t.Called(1), 0)
  {
    var folder := if child == A_VIEW then x.f1 else x.f2;
    NamesDiffer();
    ArrowToOne(e, x.Read(), child.arrowRef, "view", "folder", folder, t, 0);
    assert x.Read().Arrow(ObjectRef("folder", folder), "view") == x.View(folder);
  }

  lemma {:induction false} FirstArrowDenied(e: Env, x: Place, op: PermOp, t: Trail)
    requires TwoFolders(e, x, op) && x.View(x.f1).Key() !in t.visited && x.Base().Key() !in t.visited
    ensures var w := ChildWalk(e, x.Read(), A_VIEW, t, 0);
            w.out == DENY && w.trail.visited == t.visited + {x.View(x.f1).Key(), x.Base().Key()}
  {
    FolderArrow(e, x, op, A_VIEW, t);
    SubWalkOne(e, x.View(x.f1), false, t.Called(1), 0);
    FirstFolderDenied(e, x, op, t.Called(1));
  }

  lemma {:induction false} SecondArrowDenied(e: Env, x: Place, op: PermOp, t: Trail)
    requires TwoFolders(e, x, op) && x.View(x.f2).Key() !in t.visited && x.Base().Key() in t.visited
    ensures ChildWalk(e, x.Read(), B_VIEW, t, 0).out == DENY
  {
    FolderArrow(e, x, op, B_VIEW, t);
    SubWalkOne(e, x.View(x.f2), false, t.Called(1), 0);
    SecondFolderDenied(e, x, op, t.Called(1));
  }

  lemma {:induction false} NotAmongOne(key: string, a: string)
    requires key != a
    ensures key !in {a}
  {
  }

  lemma {:induction false} NotAmong(key: string, a: string, b: string, c: string)
    requires key != a && key != b && key != c
    ensures key !in {a} + {b, c} && c in {a} + {b, c}
  {
  }

  lemma {:induction false} ArrowsDenied(e: Env, x: Place, op: PermOp, t: Trail)
    requires TwoFolders(e, x, op) && t.visited == {x.Read().Key()}
    ensures ListWalk(e, x.Read(), [A_VIEW, B_VIEW], true, t, 0).out == DENY
  {
    KeysApart(x);
    var w := ChildWalk(e, x.Read(), A_VIEW, t, 0);
    NotAmongOne(x.View(x.f1).Key(), x.Read().Key());
    NotAmongOne(x.Base().Key(), x.Read().Key());
    FirstArrowDenied(e, x, op, t);
    NotAmong(x.View(x.f2).Key(), x.Read().Key(), x.View(x.f1).Key(), x.Base().Key());
    SecondArrowDenied(e, x, op, w.trail);
    ListOfPair(e, x.Read(), A_VIEW, B_VIEW, true, t, 0);
    ListOfSingle(e, x.Read(), B_VIEW, true, w.trail, 0);
  }

  lemma {:induction false} ReadDenied(e: Env, x: Place, op: PermOp)
    requires TwoFolders(e, x, op)
    ensures Decide(e, x.Read()).out == DENY
  {
    var t := START.Enter(x.Read().Key());
    assert t.visited == {x.Read().Key()};
    ArrowsDenied(e, x, op, t);
    assert PermissionWalk(e, x.Read(), READ_DEF, START, 0) == ListWalk(e, x.Read(), [A_VIEW, B_VIEW], true, t, 0);
  }

  // What an arrow yields once its one target is derived.
  lemma {:induction false} ArrowYields(e: Env, f: Facts, req: Request, child: PermissionRef, subType: string, subId: string, k: nat)
    requires f == FactsOf(e) && e.views(0).fault.None? && child.Kind().ArrowKind?
    requires OnlySubject(e.views(0), req.objType, req.objId, child.arrowRef, subType, subId)
    requires var sub := req.Arrow(ObjectRef(subType, subId), child.arrowPermission);
             e.schema.Def(sub.Node()).Some? && Eval(e.schema, f, f, k, sub)
    ensures ChildHolds(e.schema, f, req, child, Upto(e.schema, f, f, k))
  {
    var u := SubjectRef(subType, subId, "");
    SubjectTuple(e.views(0), req.objType, req.objId, child.arrowRef, u);
    assert Related(f, req, child.arrowRef, u);
    assert SubHolds(e.schema, f, req.Arrow(ObjectRef(u.typ, u.id), child.arrowPermission), false, Upto(e.schema, f, f, k));
  }

  lemma {:induction false} BaseGranted(e: Env, x: Place, op: PermOp)
    requires TwoFolders(e, x, op)
    ensures Eval(e.schema, FactsOf(e), FactsOf(e), 1, x.Base())
  {
    var s, f := e.schema, FactsOf(e);
    SubjectTuple(e.views(0), "org", x.org, "member", SubjectRef("user", x.user, ""));
    assert ChildHolds(s, f, x.Base(), MEMBER, Upto(s, f, f, 0)) && MEMBER in BASE_DEF.children;
  }

  // The guard of the second folder does not ban, or it opens.
  lemma {:induction false} GuardHolds(e: Env, x: Place, op: PermOp, p: Request -> bool)
    requires TwoFolders(e, x, op)
    ensures ChildHolds(e.schema, FactsOf(e), x.View(x.f2), GUARD, p) <==> op.Intersect?
  {
    forall u
      ensures Related(FactsOf(e), x.View(x.f2), "guard", u) <==> u in Subjects(e.views(0).live, "folder", x.f2, "guard")
    {
      SubjectTuple(e.views(0), "folder", x.f2, "guard", u);
    }
    assert x.View(x.f2).Grant("guard") in FactsOf(e).tuples <==> Related(FactsOf(e), x.View(x.f2), "guard", SubjectRef("user", x.user, ""));
  }

  lemma {:induction false} ParentHolds(e: Env, x: Place, op: PermOp)
    requires TwoFolders(e, x, op)
    ensures ChildHolds(e.schema, FactsOf(e), x.View(x.f2), BASE, Upto(e.schema, FactsOf(e), FactsOf(e), 1))
  {
    BaseGranted(e, x, op);
    assert x.View(x.f2).Arrow(ObjectRef("org", x.org), "base") == x.Base();
    ArrowYields(e, FactsOf(e), x.View(x.f2), BASE, "org", x.org, 1);
  }

  lemma {:induction false} SecondFolderGranted(e: Env, x: Place, op: PermOp)
    requires TwoFolders(e, x, op)
    ensures Eval(e.schema, FactsOf(e), FactsOf(e), 2, x.View(x.f2))
  {
    var s, f := e.schema, FactsOf(e);
    ParentHolds(e, x, op);
    GuardHolds(e, x, op, Upto(s, f, f, 1));
    assert [BASE, GUARD][1..] == [GUARD];
    if op.Exclusion? {
      EvalExclusion(s, f, f, 2, x.View(x.f2), ViewDef(op));
    } else {
      EvalUnionOrIntersect(s, f, f, 2, x.View(x.f2), ViewDef(op));
    }
  }

  lemma {:induction false} ReadGranted(e: Env, x: Place, op: PermOp)
    requires TwoFolders(e, x, op)
    ensures Granted(e.schema, FactsOf(e), x.Read())
  {
    var s, f := e.schema, FactsOf(e);
    SecondFolderGranted(e, x, op);
    assert x.Read().Arrow(ObjectRef("folder", x.f2), "view") == x.View(x.f2);
    ArrowYields(e, f, x.Read(), B_VIEW, "folder", x.f2, 2);
    assert B_VIEW in READ_DEF.children;
    assert Eval(s, f, f, 3, x.Read());
  }

  /** A folder that excludes a leaf from an arrow: the base of an exclusion has to be a leaf too. */
  lemma {:induction false} ArrowBaseDeniesGranted(e: Env, x: Place)
    requires TwoFolders(e, x, Exclusion)
    ensures Decide(e, x.Read()).out == DENY && Granted(e.schema, FactsOf(e), x.Read())
  {
    ReadDenied(e, x, Exclusion);
    ReadGranted(e, x, Exclusion);
  }

  /** A folder that intersects an arrow with a leaf after it: a non-leaf may only come last. */
  lemma {:induction false} ArrowBeforeLeafDeniesGranted(e: Env, x: Place)
    requires TwoFolders(e, x, Intersect)
    ensures Decide(e, x.Read()).out == DENY && Granted(e.schema, FactsOf(e), x.Read())
  {
    ReadDenied(e, x, Intersect);
    ReadGranted(e, x, Intersect);
  }
}
