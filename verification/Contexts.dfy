/**
 Why inline conditions may not read the request context: a userset drops it and an arrow keeps it, but
 both visits have one key. A folder denied without the context is not asked again with it.
 */
module Contexts {
  import opened Wrappers
  import opened Tuples
  import opened Keys
  import opened Schemas
  import opened WalkSpec
  import opened Rules
  import opened Bracket
  import opened Checks
  import opened Limitations
  import opened Linearity

  const VIA_USERSET := PermissionRef("viewer", "", "", "")
  const VIA_ARROW := PermissionRef("", "parent", "view", "")
  const READ_BOTH := PermissionDef("read", Union, [VIA_USERSET, VIA_ARROW], None)

  function Guard(text: string): PermissionRef {
    PermissionRef("", "", "", text)
  }

  function GuardedView(text: string): PermissionDef {
    PermissionDef("view", Union, [Guard(text)], None)
  }

  // A document whose viewers are those of its folder, which is also its parent.
  datatype Asked = Asked(doc: string, folder: string, user: string, context: Attrs) {
    function Read(): Request {
      Request("doc", doc, "read", "user", user, context)
    }

    function View(ctx: Attrs): Request {
      Request("folder", folder, "view", "user", user, ctx)
    }
  }

  ghost predicate Sensitive(e: Env, x: Asked, text: string) {
    var v := e.views(0);
    && text != "" && e.compiles(text) && e.maxDepth >= 1
    && e.schema.GetPermission("doc", "read") == Some(READ_BOTH)
    && e.schema.GetPermission("folder", "view") == Some(GuardedView(text))
    && Steady(e) && v.fault.None?
    && Subjects(v.live, "doc", x.doc, "viewer") == [SubjectRef("folder", x.folder, "view")]
    && OnlySubject(v, "doc", x.doc, "parent", "folder", x.folder)
    && CondAt(e, 0, text, x.View(map[])) == CondDeny && CondAt(e, 0, text, x.View(x.context)) == CondAllow
  }

  function SensitiveSchema(text: string): Schema {
    Schema(map[
      "doc" := TypeDef("doc", map[], map["read" := READ_BOTH]),
      "folder" := TypeDef("folder", map[], map["view" := GuardedView(text)])])
  }

  function SensitiveStore(x: Asked): View {
    View(None, [Identity("doc", x.doc, "viewer", "folder", x.folder, "view"), Identity("doc", x.doc, "parent", "folder", x.folder, "")], map[], map[])
  }

  lemma {:induction false} SensitiveLookups(x: Asked, v: View)
    requires v == SensitiveStore(x)
    ensures Subjects(v.live, "doc", x.doc, "viewer") == [SubjectRef("folder", x.folder, "view")]
    ensures OnlySubject(v, "doc", x.doc, "parent", "folder", x.folder)
  {
    assert |"viewer"| == 6 && |"parent"| == 6 && "viewer"[0] == 'v' && "parent"[0] == 'p';
    SubjectsOne(v.live, 0, "doc", x.doc, "viewer");
    SubjectsOne(v.live, 1, "doc", x.doc, "parent");
  }

  lemma {:induction false} SensitivePermissions(text: string)
    ensures SensitiveSchema(text).GetPermission("doc", "read") == Some(READ_BOTH)
    ensures SensitiveSchema(text).GetPermission("folder", "view") == Some(GuardedView(text))
  {
    NamesDiffer();
  }

  /** Any such store, with a condition that allows in this context and denies without, meets the description. */
  lemma {:induction false} SensitivePossible(x: Asked, text: string, compiles: string -> bool, holds: (string, Attrs, Attrs, Attrs) -> CondOutcome)
    requires text != "" && compiles(text)
    requires holds(text, map[], map[], map[]) == CondDeny && holds(text, map[], map[], x.context) == CondAllow
    ensures Sensitive(Env(SensitiveSchema(text), 25, (c: nat) => SensitiveStore(x), compiles, holds), x, text)
  {
    SensitiveLookups(x, SensitiveStore(x));
    SensitivePermissions(text);
  }

  // The folder without the context: visited and denied.
  lemma {:induction false} FolderWalked(e: Env, x: Asked, text: string, t: Trail)
    requires Sensitive(e, x, text) && x.View(map[]).Key() !in t.visited
    ensures var w := PermissionWalk(e, x.View(map[]), GuardedView(text), t, 1);
            w.out == DENY && x.View(map[]).Key() in w.trail.visited
  {
    var t1 := t.Enter(x.View(map[]).Key());
    SteadyConditions(e);
    ListOfSingle(e, x.View(map[]), Guard(text), true, t1, 1);
    assert CondAt(e, t1.calls, text, x.View(map[])) == CondDeny;
    assert ChildWalk(e, x.View(map[]), Guard(text), t1, 1) == Walk(DENY, t1.Called(2));
    assert PermissionWalk(e, x.View(map[]), GuardedView(text), t, 1) == ListWalk(e, x.View(map[]), [Guard(text)], true, t1, 1);
  }

  lemma {:induction false} NoDirectTuple(e: Env, x: Asked, text: string, c: nat)
    requires Sensitive(e, x, text)
    ensures LookupDirect(e.views(c), x.Read().Grant("viewer")) == Ok(false)
  {
    assert e.views(c) == e.views(0);
    SubjectTuple(e.views(0), "doc", x.doc, "viewer", SubjectRef("user", x.user, ""));
    assert |"view"| == 4;
  }

  // The relation has one subject, the folder's viewers.
  lemma {:induction false} OneUserset(e: Env, x: Asked, text: string, t: Trail)
    requires Sensitive(e, x, text)
    ensures ChildWalk(e, x.Read(), VIA_USERSET, t, 0) == SubWalk(e, [x.View(map[])], true, t.Called(2), 0)
  {
    var u := SubjectRef("folder", x.folder, "view");
    assert e.views(t.calls + 1) == e.views(0);
    NoDirectTuple(e, x, text, t.calls);
    assert x.Read().Userset(u) == x.View(map[]) && Usersets(x.Read(), [u]) == [x.View(map[])];
    assert ChildWalk(e, x.Read(), VIA_USERSET, t, 0) == RelationWalk(e, x.Read(), "viewer", t, 0);
  }

  lemma {:induction false} UsersetDenied(e: Env, x: Asked, text: string, t: Trail)
    requires Sensitive(e, x, text) && x.View(map[]).Key() !in t.visited
    ensures var w := ChildWalk(e, x.Read(), VIA_USERSET, t, 0);
            w.out == DENY && x.View(map[]).Key() in w.trail.visited
  {
    OneUserset(e, x, text, t);
    assert |"view"| == 4;
    SubWalkOne(e, x.View(map[]), true, t.Called(2), 0);
    FolderWalked(e, x, text, t.Called(2));
  }

  lemma {:induction false} ArrowSkipped(e: Env, x: Asked, text: string, t: Trail)
    requires Sensitive(e, x, text) && x.View(map[]).Key() in t.visited
    ensures ChildWalk(e, x.Read(), VIA_ARROW, t, 0).out == DENY
  {
    ArrowToOne(e, x.Read(), "parent", "view", "folder", x.folder, t, 0);
    assert x.Read().Arrow(ObjectRef("folder", x.folder), "view") == x.View(x.context);
    SubWalkOne(e, x.View(x.context), false, t.Called(1), 0);
  }

  lemma {:induction false} ReadDeniedInContext(e: Env, x: Asked, text: string)
    requires Sensitive(e, x, text)
    ensures Decide(e, x.Read()).out == DENY
  {
    var t := START.Enter(x.Read().Key());
    NamesDiffer();
    NodesApart(x.View(map[]), x.Read().(context := map[]));
    NotAmongOne(x.View(map[]).Key(), x.Read().Key());
    assert t.visited == {x.Read().Key()};
    UsersetDenied(e, x, text, t);
    var w := ChildWalk(e, x.Read(), VIA_USERSET, t, 0);
    ArrowSkipped(e, x, text, w.trail);
    ListOfPair(e, x.Read(), VIA_USERSET, VIA_ARROW, true, t, 0);
    ListOfSingle(e, x.Read(), VIA_ARROW, true, w.trail, 0);
    assert PermissionWalk(e, x.Read(), READ_BOTH, START, 0) == ListWalk(e, x.Read(), [VIA_USERSET, VIA_ARROW], true, t, 0);
  }

  lemma {:induction false} ReadGrantedInContext(e: Env, x: Asked, text: string)
    requires Sensitive(e, x, text)
    ensures Granted(e.schema, FactsOf(e), x.Read())
  {
    var s, f := e.schema, FactsOf(e);
    assert ChildHolds(s, f, x.View(x.context), Guard(text), Upto(s, f, f, 0)) && Guard(text) in GuardedView(text).children;
    assert Eval(s, f, f, 1, x.View(x.context));
    assert x.Read().Arrow(ObjectRef("folder", x.folder), "view") == x.View(x.context);
    ArrowYields(e, f, x.Read(), VIA_ARROW, "folder", x.folder, 1);
    assert VIA_ARROW in READ_BOTH.children;
    EvalUnionOrIntersect(s, f, f, 2, x.Read(), READ_BOTH);
  }

  /** A union of a userset and an arrow to one folder whose condition needs the context: granted by the rules, denied by the check. */
  lemma {:induction false} ContextDeniesGranted(e: Env, x: Asked, text: string)
    requires Sensitive(e, x, text)
    ensures Decide(e, x.Read()).out == DENY && Granted(e.schema, FactsOf(e), x.Read())
  {
    ReadDeniedInContext(e, x, text);
    ReadGrantedInContext(e, x, text);
  }
}
