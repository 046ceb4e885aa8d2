/** Compiling and validating schemas (pkg/schema/compiler.go, pkg/schema/validator.go). */
module Compiler {
  import opened Wrappers
  import opened Keys
  import opened Schemas
  import opened Text

  datatype RawPermission = RawPermission(resolve: string, union: seq<string>, intersect: seq<string>,
                                         exclusion: seq<string>, condition: string)

  datatype RawType = RawType(relations: map<string, seq<string>>, permissions: map<string, RawPermission>)

  datatype RawSchema = RawSchema(types: map<string, RawType>)

  datatype CompileError = InvalidArrow(text: string) | BadCondition(text: string) | NoOperation(name: string)

  function RelationRef(name: string): PermissionRef {
    PermissionRef(name, "", "", "")
  }

  function ArrowRef(relation: string, permission: string): PermissionRef {
    PermissionRef("", relation, permission, "")
  }

  function ConditionRef(expr: string): PermissionRef {
    PermissionRef("", "", "", expr)
  }

  const ARROW := "->"
  const CONDITION := "condition:"

  function ParsePermissionRef(s: string): Result<PermissionRef, CompileError> {
    var idx := Index(s, ARROW);
    if idx >= 0 then
      var relation, permission := TrimSpace(s[..idx]), TrimSpace(s[idx + 2..]);
      if relation == "" || permission == "" then Err(InvalidArrow(s)) else Ok(ArrowRef(relation, permission))
    else if CONDITION <= s then Ok(ConditionRef(TrimSpace(s[|CONDITION|..])))
    else Ok(RelationRef(TrimSpace(s)))
  }

  // A reference as a schema author would write it.
  function Printed(ref: PermissionRef): string {
    match ref.Kind()
    case ArrowKind => ref.arrowRef + ARROW + ref.arrowPermission
    case ConditionKind => CONDITION + " " + ref.conditionExpr
    case RelationKind => ref.relationRef
  }

  // Trimmed, and without an arrow in it.
  predicate ArrowFree(s: string) {
    Trimmed(s) && Index(s, ARROW) < 0
  }

  // References whose names survive printing.
  predicate Canonical(ref: PermissionRef) {
    match ref.Kind()
    case ArrowKind =>
      && ref == ArrowRef(ref.arrowRef, ref.arrowPermission)
      && ArrowFree(ref.arrowRef) && ref.arrowPermission != "" && Trimmed(ref.arrowPermission)
    case ConditionKind => ref == ConditionRef(ref.conditionExpr) && ArrowFree(ref.conditionExpr)
    case RelationKind => ref == RelationRef(ref.relationRef) && ArrowFree(ref.relationRef) && !(CONDITION <= ref.relationRef)
  }

  lemma {:induction false} TrimmedStays(s: string)
    requires Trimmed(s)
    ensures TrimSpace(s) == s && TrimSpace(" " + s) == s
  {
    if s != "" {
      assert (" " + s)[1..] == s;
      assert TrimLeft(" " + s) == TrimLeft(s) == s;
    } else {
      assert " "[1..] == "";
      assert TrimLeft(" ") == TrimLeft("");
    }
  }

  // An occurrence of the arrow in a + b that starts in a and does not lie within a starts at a's last character.
  lemma {:induction false} ArrowWithin(a: string, b: string, i: int)
    requires OccursAt(a + b, ARROW, i)
    ensures i + 2 <= |a| ==> OccursAt(a, ARROW, i)
    ensures |a| <= i ==> OccursAt(b, ARROW, i - |a|)
    ensures i < |a| ==> a[i] == '-'
    ensures i == |a| - 1 ==> b[0] == '>'
  {
    var s := a + b;
    assert s[i] == s[i..i + 2][0] && s[i + 1] == s[i..i + 2][1];
    if i + 2 <= |a| {
      assert a[i..i + 2] == s[i..i + 2];
    }
    if |a| <= i {
      assert b[i - |a|..i - |a| + 2] == s[i..i + 2];
    }
  }

  lemma {:induction false} ArrowFound(a: string, b: string)
    requires Index(a, ARROW) < 0
    ensures Index(a + ARROW + b, ARROW) == |a|
  {
    var s := a + (ARROW + b);
    assert s == a + ARROW + b;
    assert s[|a|..|a| + 2] == ARROW;
    assert OccursAt(s, ARROW, |a|);
    ArrowWithin(a, ARROW + b, Index(s, ARROW));
  }

  lemma {:induction false} ConditionHasNoArrow(expr: string)
    requires Index(expr, ARROW) < 0
    ensures Index(CONDITION + " " + expr, ARROW) < 0
  {
    var head := CONDITION + " ";
    assert forall j :: 0 <= j < |head| ==> head[j] != '-';
    forall i
      ensures !OccursAt(head + expr, ARROW, i)
    {
      if OccursAt(head + expr, ARROW, i) {
        ArrowWithin(head, expr, i);
      }
    }
  }

  /** Parsing the printed form of a reference gives the reference back. */
  lemma {:induction false} ParsePrinted(ref: PermissionRef)
    requires Canonical(ref)
    ensures ParsePermissionRef(Printed(ref)) == Ok(ref)
  {
    var s := Printed(ref);
    match ref.Kind()
    case ArrowKind =>
      ArrowFound(ref.arrowRef, ref.arrowPermission);
      assert s[..|ref.arrowRef|] == ref.arrowRef && s[|ref.arrowRef| + 2..] == ref.arrowPermission;
      TrimmedStays(ref.arrowRef);
      TrimmedStays(ref.arrowPermission);
    case ConditionKind =>
      ConditionHasNoArrow(ref.conditionExpr);
      assert s[|CONDITION|..] == " " + ref.conditionExpr;
      TrimmedStays(ref.conditionExpr);
    case RelationKind => TrimmedStays(ref.relationRef);
  }

  lemma {:induction false} TrimArrowFree(s: string)
    requires Index(s, ARROW) < 0
    ensures ArrowFree(TrimSpace(s))
  {
    var lo, hi := TrimSlice(s);
    AbsentInSlice(s, ARROW, lo, hi);
  }

  lemma {:induction false} BeforeArrow(s: string)
    requires Index(s, ARROW) >= 0
    ensures Index(s[..Index(s, ARROW)], ARROW) < 0
  {
    var head := s[..Index(s, ARROW)];
    var i := Index(head, ARROW);
    if i >= 0 {
      assert head[i..i + 2] == s[i..i + 2];
      assert OccursAt(s, ARROW, i);
    }
  }

  /**
   Parsing is stable: a parsed reference, printed and parsed again, comes back exactly unless it is a
   relation whose name starts with "condition:" (written with a space before it).
   */
  lemma {:induction false} ReparseExact(s: string, ref: PermissionRef)
    requires ParsePermissionRef(s) == Ok(ref)
    ensures ParsePermissionRef(Printed(ref)) == Ok(ref) <==> !(ref.Kind().RelationKind? && CONDITION <= ref.relationRef)
  {
    if Index(s, ARROW) >= 0 {
      BeforeArrow(s);
      TrimArrowFree(s[..Index(s, ARROW)]);
      var lo, hi := TrimSlice(s[Index(s, ARROW) + 2..]);
    } else if CONDITION <= s {
      AbsentAfter(s, ARROW, |CONDITION|);
      TrimArrowFree(s[|CONDITION|..]);
    } else {
      TrimArrowFree(s);
    }
    if ref.Kind().RelationKind? && CONDITION <= ref.relationRef {
      assert ref.relationRef != "";
    } else {
      ParsePrinted(ref);
    }
  }

  lemma {:induction false} DashAndTip(s: string, i: int)
    requires OccursAt(s, ARROW, i)
    ensures s[i] == '-' && s[i + 1] == '>'
  {
    assert s[i] == s[i..i + 2][0] && s[i + 1] == s[i..i + 2][1];
  }

  lemma {:induction false} PaddedChars(w1: string, s: string, w2: string)
    requires White(w1) && White(w2)
    ensures forall k :: 0 <= k < |w1 + s + w2| && !IsSpace((w1 + s + w2)[k]) ==>
              |w1| <= k < |w1| + |s| && (w1 + s + w2)[k] == s[k - |w1|]
  {
  }

  lemma {:induction false} ArrowInPadded(w1: string, s: string, w2: string, i: int)
    requires White(w1) && White(w2) && OccursAt(w1 + s + w2, ARROW, i)
    ensures OccursAt(s, ARROW, i - |w1|)
  {
    var all := w1 + s + w2;
    DashAndTip(all, i);
    PaddedChars(w1, s, w2);
    assert all[i] == s[i - |w1|] && all[i + 1] == s[i + 1 - |w1|];
    assert s[i - |w1|..i - |w1| + 2] == [s[i - |w1|], s[i - |w1| + 1]];
  }

  lemma {:induction false} PaddedArrowFree(w1: string, s: string, w2: string)
    requires White(w1) && White(w2) && Index(s, ARROW) < 0
    ensures Index(w1 + s + w2, ARROW) < 0
  {
    var i := Index(w1 + s + w2, ARROW);
    if i >= 0 {
      ArrowInPadded(w1, s, w2, i);
    }
  }

  lemma {:induction false} ConditionWithin(w1: string, s: string, w2: string)
    requires White(w1) && White(w2) && CONDITION <= w1 + s + w2
    ensures CONDITION <= s
  {
    var all := w1 + s + w2;
    PaddedChars(w1, s, w2);
    assert forall k :: 0 <= k < |CONDITION| ==> all[k] == CONDITION[k] && !IsSpace(CONDITION[k]);
    assert !IsSpace(all[0]) && !IsSpace(all[|CONDITION| - 1]);
    assert |w1| == 0 && |CONDITION| <= |s|;
    assert forall k :: 0 <= k < |CONDITION| ==> s[k] == CONDITION[k];
  }

  /** White space around the names of a reference does not matter. */
  lemma {:induction false} ParseSpaced(ref: PermissionRef, w1: string, w2: string, w3: string, w4: string)
    requires Canonical(ref) && White(w1) && White(w2) && White(w3) && White(w4)
    ensures match ref.Kind()
            case ArrowKind => ParsePermissionRef((w1 + ref.arrowRef + w2) + "->" + (w3 + ref.arrowPermission + w4)) == Ok(ref)
            case ConditionKind => ParsePermissionRef("condition:" + (w1 + ref.conditionExpr + w2)) == Ok(ref)
            case RelationKind => ParsePermissionRef(w1 + ref.relationRef + w2) == Ok(ref)
  {
    match ref.Kind()
    case ArrowKind =>
      var left, right := w1 + ref.arrowRef + w2, w3 + ref.arrowPermission + w4;
      PaddedArrowFree(w1, ref.arrowRef, w2);
      ArrowFound(left, right);
      var s := left + ARROW + right;
      assert s[..|left|] == left && s[|left| + 2..] == right;
      TrimPadded(w1, ref.arrowRef, w2);
      TrimPadded(w3, ref.arrowPermission, w4);
    case ConditionKind =>
      var rest := w1 + ref.conditionExpr + w2;
      PaddedArrowFree(w1, ref.conditionExpr, w2);
      HeadHasNoArrow(rest);
      assert (CONDITION + rest)[|CONDITION|..] == rest;
      TrimPadded(w1, ref.conditionExpr, w2);
    case RelationKind =>
      PaddedArrowFree(w1, ref.relationRef, w2);
      if CONDITION <= w1 + ref.relationRef + w2 {
        ConditionWithin(w1, ref.relationRef, w2);
      }
      TrimPadded(w1, ref.relationRef, w2);
  }

  lemma {:induction false} HeadHasNoArrow(rest: string)
    requires Index(rest, ARROW) < 0
    ensures Index(CONDITION + rest, ARROW) < 0
  {
    assert forall j :: 0 <= j < |CONDITION| ==> CONDITION[j] != '-';
    var i := Index(CONDITION + rest, ARROW);
    if i >= 0 {
      ArrowWithin(CONDITION, rest, i);
    }
  }

  /** Parsing fails exactly for an arrow with nothing but white space on one side of its first "->". */
  lemma {:induction false} ParseFails(s: string)
    ensures ParsePermissionRef(s).Err? <==> (Index(s, ARROW) >= 0 && (White(s[..Index(s, ARROW)]) || White(s[Index(s, ARROW) + 2..])))
    ensures ParsePermissionRef(s).Err? ==> ParsePermissionRef(s) == Err(InvalidArrow(s))
  {
    if Index(s, ARROW) >= 0 {
      TrimsToNothing(s[..Index(s, ARROW)]);
      TrimsToNothing(s[Index(s, ARROW) + 2..]);
    }
  }

  // strings.SplitN(s, "#", 2).
  function ParseAllowedTypeRef(s: string): AllowedTypeRef {
    var i := Index(s, "#");
    if i < 0 then AllowedTypeRef(s, "") else AllowedTypeRef(s[..i], s[i + 1..])
  }

  /** The type is what stands before the first '#', and nothing of the text is lost. */
  lemma {:induction false} AllowedTypeText(s: string)
    ensures var ref := ParseAllowedTypeRef(s);
            '#' !in ref.typ && if '#' in s then s == ref.typ + "#" + ref.relation else s == ref.typ && ref.relation == ""
  {
    var i := Index(s, "#");
    forall j | 0 <= j < |s| && s[j] == '#'
      ensures 0 <= i <= j
    {
      assert s[j..j + 1] == "#";
      assert OccursAt(s, "#", j);
    }
    if i >= 0 {
      assert s[i..i + 1][0] == s[i];
      assert s == s[..i] + "#" + s[i + 1..];
    }
  }

  function ParseAll(refs: seq<string>): Result<seq<PermissionRef>, CompileError> {
    if refs == [] then Ok([])
    else
      match ParseAll(refs[..|refs| - 1])
      case Err(x) => Err(x)
      case Ok(init) =>
        match ParsePermissionRef(refs[|refs| - 1])
        case Err(x) => Err(x)
        case Ok(ref) => Ok(init + [ref])
  }

  method ParseRefs(refs: seq<string>) returns (r: Result<seq<PermissionRef>, CompileError>)
    ensures r == ParseAll(refs)
  {
    var children: seq<PermissionRef> := [];
    var i := 0;
    while i < |refs|
      invariant 0 <= i <= |refs|
      invariant ParseAll(refs[..i]) == Ok(children)
    {
      var ref := ParsePermissionRef(refs[i]);
      assert refs[..i + 1][..i] == refs[..i];
      if ref.Err? {
        ParseAllFails(refs, i + 1);
        return Err(ref.error);
      }
      children := children + [ref.value];
      i := i + 1;
    }
    assert refs[..i] == refs;
    return Ok(children);
  }

  lemma {:induction false} ParseAllFails(refs: seq<string>, i: nat)
    requires i <= |refs| && ParseAll(refs[..i]).Err?
    ensures ParseAll(refs) == ParseAll(refs[..i])
    decreases |refs|
  {
    if i == |refs| {
      assert refs[..i] == refs;
    } else {
      var init := refs[..|refs| - 1];
      assert init[..i] == refs[..i];
      ParseAllFails(init, i);
    }
  }

  /** A list is parsed exactly when each of its references is, one for one and in order. */
  lemma {:induction false} ParseAllEach(refs: seq<string>)
    ensures ParseAll(refs).Ok? <==> forall i :: 0 <= i < |refs| ==> ParsePermissionRef(refs[i]).Ok?
    ensures ParseAll(refs).Ok? ==> |ParseAll(refs).value| == |refs|
    ensures ParseAll(refs).Ok? ==> forall i :: 0 <= i < |refs| ==> ParsePermissionRef(refs[i]) == Ok(ParseAll(refs).value[i])
  {
    if refs != [] {
      var init := refs[..|refs| - 1];
      ParseAllEach(init);
      assert forall i :: 0 <= i < |init| ==> init[i] == refs[i];
      if !ParsePermissionRef(refs[|refs| - 1]).Ok? {
        assert ParseAll(refs).Err?;
      }
    }
  }

  function WithChildren(pd: PermissionDef, op: PermOp, children: Result<seq<PermissionRef>, CompileError>): Result<PermissionDef, CompileError> {
    match children
    case Err(x) => Err(x)
    case Ok(cs) => Ok(pd.(operation := op, children := cs))
  }

  // `compiles` says whether a condition text compiles.
  function CompiledPermission(name: string, raw: RawPermission, compiles: string -> bool): Result<PermissionDef, CompileError> {
    if raw.condition != "" && !compiles(raw.condition) then Err(BadCondition(raw.condition))
    else
      var pd := PermissionDef(name, Union, [], if raw.condition == "" then None else Some(raw.condition));
      if raw.resolve != "" then Ok(pd.(operation := DirectOp, children := [RelationRef(raw.resolve)]))
      else if raw.union != [] then WithChildren(pd, Union, ParseAll(raw.union))
      else if raw.intersect != [] then WithChildren(pd, Intersect, ParseAll(raw.intersect))
      else if raw.exclusion != [] then WithChildren(pd, Exclusion, ParseAll(raw.exclusion))
      else Err(NoOperation(name))
  }

  method CompilePermission(name: string, raw: RawPermission, compiles: string -> bool) returns (r: Result<PermissionDef, CompileError>)
    ensures r == CompiledPermission(name, raw, compiles)
  {
    var pd := PermissionDef(name, Union, [], None);
    if raw.condition != "" {
      if !compiles(raw.condition) {
        return Err(BadCondition(raw.condition));
      }
      pd := pd.(condition := Some(raw.condition));
    }
    if raw.resolve != "" {
      return Ok(pd.(operation := DirectOp, children := [RelationRef(raw.resolve)]));
    }
    var refs, op;
    if |raw.union| > 0 {
      refs, op := raw.union, Union;
    } else if |raw.intersect| > 0 {
      refs, op := raw.intersect, Intersect;
    } else if |raw.exclusion| > 0 {
      refs, op := raw.exclusion, Exclusion;
    } else {
      return Err(NoOperation(name));
    }
    var children := ParseRefs(refs);
    return WithChildren(pd, op, children);
  }

  function CompiledRelation(name: string, types: seq<string>): RelationDef {
    RelationDef(name, seq(|types|, i requires 0 <= i < |types| => ParseAllowedTypeRef(types[i])))
  }

  function CompiledRelations(raw: RawType): map<string, RelationDef> {
    map name | name in raw.relations :: CompiledRelation(name, raw.relations[name])
  }

  ghost predicate PermissionsCompile(raw: RawType, compiles: string -> bool) {
    forall name :: name in raw.permissions ==> CompiledPermission(name, raw.permissions[name], compiles).Ok?
  }

  ghost predicate Compilable(raw: RawSchema, compiles: string -> bool) {
    forall name :: name in raw.types ==> PermissionsCompile(raw.types[name], compiles)
  }

  // The type `td` is what the raw type compiles to.
  ghost predicate CompiledType(name: string, raw: RawType, td: TypeDef, compiles: string -> bool) {
    && td.name == name && td.relations == CompiledRelations(raw) && td.permissions.Keys == raw.permissions.Keys
    && forall p :: p in raw.permissions ==> CompiledPermission(p, raw.permissions[p], compiles) == Ok(td.permissions[p])
  }

  // Compilation succeeds exactly when every permission compiles, and then each type is compiled under its own name.
  method Compile(raw: RawSchema, compiles: string -> bool) returns (r: Result<Schema, CompileError>)
    ensures r.Ok? <==> Compilable(raw, compiles)
    ensures r.Ok? ==> r.value.types.Keys == raw.types.Keys
    ensures r.Ok? ==> forall name :: name in raw.types ==> CompiledType(name, raw.types[name], r.value.types[name], compiles)
  {
    var types := BuildTypes(raw);
    var todo := raw.types.Keys;
    while todo != {}
      invariant todo <= raw.types.Keys == types.Keys
      invariant forall name :: name in todo ==> types[name] == TypeDef(name, CompiledRelations(raw.types[name]), map[])
      invariant forall name :: name in raw.types && name !in todo ==> CompiledType(name, raw.types[name], types[name], compiles)
    {
      var name :| name in todo;
      var permissions := CompilePermissions(raw.types[name], compiles);
      if permissions.Err? {
        return Err(permissions.error);
      }
      var td := types[name].(permissions := permissions.value);
      assert CompiledType(name, raw.types[name], td, compiles);
      types := types[name := td];
      todo := todo - {name};
    }
    return Ok(Schema(types));
  }

  // The first pass: every type with its relations, before any permission.
  method BuildTypes(raw: RawSchema) returns (types: map<string, TypeDef>)
    ensures types.Keys == raw.types.Keys
    ensures forall name :: name in raw.types ==> types[name] == TypeDef(name, CompiledRelations(raw.types[name]), map[])
  {
    types := map[];
    var todo := raw.types.Keys;
    while todo != {}
      invariant todo <= raw.types.Keys && types.Keys == raw.types.Keys - todo
      invariant forall name :: name in types ==> types[name] == TypeDef(name, CompiledRelations(raw.types[name]), map[])
    {
      var name :| name in todo;
      var relations := CompileRelations(raw.types[name]);
      types := types[name := TypeDef(name, relations, map[])];
      todo := todo - {name};
    }
  }

  method CompileRelations(raw: RawType) returns (relations: map<string, RelationDef>)
    ensures relations == CompiledRelations(raw)
  {
    relations := map[];
    var todo := raw.relations.Keys;
    while todo != {}
      invariant todo <= raw.relations.Keys && relations.Keys == raw.relations.Keys - todo
      invariant forall name :: name in relations ==> relations[name] == CompiledRelation(name, raw.relations[name])
    {
      var name :| name in todo;
      var types := raw.relations[name];
      var allowed: seq<AllowedTypeRef> := [];
      var i := 0;
      while i < |types|
        invariant 0 <= i <= |types| == |raw.relations[name]|
        invariant |allowed| == i && forall j :: 0 <= j < i ==> allowed[j] == ParseAllowedTypeRef(types[j])
      {
        allowed := allowed + [ParseAllowedTypeRef(types[i])];
        i := i + 1;
      }
      assert RelationDef(name, allowed) == CompiledRelation(name, types);
      relations := relations[name := RelationDef(name, allowed)];
      todo := todo - {name};
    }
  }

  method CompilePermissions(raw: RawType, compiles: string -> bool) returns (r: Result<map<string, PermissionDef>, CompileError>)
    ensures r.Ok? <==> PermissionsCompile(raw, compiles)
    ensures r.Ok? ==> r.value.Keys == raw.permissions.Keys
    ensures r.Ok? ==> forall p :: p in raw.permissions ==> CompiledPermission(p, raw.permissions[p], compiles) == Ok(r.value[p])
  {
    var permissions: map<string, PermissionDef> := map[];
    var todo := raw.permissions.Keys;
    while todo != {}
      invariant todo <= raw.permissions.Keys && permissions.Keys == raw.permissions.Keys - todo
      invariant forall p :: p in permissions ==> CompiledPermission(p, raw.permissions[p], compiles) == Ok(permissions[p])
    {
      var name :| name in todo;
      var pd := CompilePermission(name, raw.permissions[name], compiles);
      if pd.Err? {
        return Err(pd.error);
      }
      permissions := permissions[name := pd.value];
      todo := todo - {name};
    }
    return Ok(permissions);
  }

  datatype ValidationError =
    | UnknownType(typ: string, relation: string, refType: string)
    | UnknownTypeRelation(typ: string, relation: string, refType: string, refRelation: string)
    | UnknownRef(typ: string, permission: string, name: string)
    | UnknownArrowRelation(typ: string, permission: string, arrow: string)

  // The complaint an allowed type of a relation draws, if any.
  function AllowedTypeError(cs: Schema, typ: string, relation: string, ref: AllowedTypeRef): Option<ValidationError> {
    if ref.typ !in cs.types then Some(UnknownType(typ, relation, ref.typ))
    else if ref.relation != "" && ref.relation !in cs.types[ref.typ].relations
    then Some(UnknownTypeRelation(typ, relation, ref.typ, ref.relation))
    else None
  }

  // The complaint a child of a permission draws, if any.
  function PermRefError(cs: Schema, typ: string, permission: string, ref: PermissionRef): Option<ValidationError>
    requires typ in cs.types
  {
    var td := cs.types[typ];
    match ref.Kind()
    case RelationKind =>
      if ref.relationRef !in td.relations && ref.relationRef !in td.permissions
      then Some(UnknownRef(typ, permission, ref.relationRef)) else None
    case ArrowKind =>
      if ref.arrowRef !in td.relations then Some(UnknownArrowRelation(typ, permission, ref.arrowRef)) else None
    case ConditionKind => None
  }

  ghost predicate RelationComplaint(cs: Schema, typ: string, x: ValidationError)
    requires typ in cs.types
  {
    var td := cs.types[typ];
    exists relation, ref :: relation in td.relations && ref in td.relations[relation].allowedTypes
      && AllowedTypeError(cs, typ, relation, ref) == Some(x)
  }

  ghost predicate PermissionComplaint(cs: Schema, typ: string, x: ValidationError)
    requires typ in cs.types
  {
    var td := cs.types[typ];
    exists permission, ref :: permission in td.permissions && ref in td.permissions[permission].children
      && PermRefError(cs, typ, permission, ref) == Some(x)
  }

  ghost predicate Complaint(cs: Schema, x: ValidationError) {
    exists typ :: typ in cs.types && (RelationComplaint(cs, typ, x) || PermissionComplaint(cs, typ, x))
  }

  // Validation reports every complaint and nothing else.
  method Validate(cs: Schema) returns (errs: seq<ValidationError>)
    ensures forall x :: x in errs <==> Complaint(cs, x)
  {
    errs := [];
    var todo := cs.types.Keys;
    while todo != {}
      invariant todo <= cs.types.Keys
      invariant forall x :: x in errs <==>
        exists typ :: typ in cs.types && typ !in todo && (RelationComplaint(cs, typ, x) || PermissionComplaint(cs, typ, x))
    {
      var typ :| typ in todo;
      var relErrs := ValidateRelations(cs, typ);
      var permErrs := ValidatePermissions(cs, typ);
      errs := errs + relErrs + permErrs;
      todo := todo - {typ};
    }
  }

  method ValidateRelations(cs: Schema, typ: string) returns (errs: seq<ValidationError>)
    requires typ in cs.types
    ensures forall x :: x in errs <==> RelationComplaint(cs, typ, x)
  {
    var td := cs.types[typ];
    errs := [];
    var todo := td.relations.Keys;
    while todo != {}
      invariant todo <= td.relations.Keys
      invariant forall x :: x in errs <==>
        exists relation, ref :: relation in td.relations && relation !in todo && ref in td.relations[relation].allowedTypes
          && AllowedTypeError(cs, typ, relation, ref) == Some(x)
    {
      var relation :| relation in todo;
      var refs := td.relations[relation].allowedTypes;
      var found: seq<ValidationError> := [];
      var i := 0;
      while i < |refs|
        invariant 0 <= i <= |refs|
        invariant forall x :: x in found <==> exists j :: 0 <= j < i && AllowedTypeError(cs, typ, relation, refs[j]) == Some(x)
      {
        var err := AllowedTypeError(cs, typ, relation, refs[i]);
        if err.Some? {
          found := found + [err.value];
        }
        i := i + 1;
      }
      errs := errs + found;
      todo := todo - {relation};
    }
  }

  method ValidatePermissions(cs: Schema, typ: string) returns (errs: seq<ValidationError>)
    requires typ in cs.types
    ensures forall x :: x in errs <==> PermissionComplaint(cs, typ, x)
  {
    var td := cs.types[typ];
    errs := [];
    var todo := td.permissions.Keys;
    while todo != {}
      invariant todo <= td.permissions.Keys
      invariant forall x :: x in errs <==>
        exists permission, ref :: permission in td.permissions && permission !in todo && ref in td.permissions[permission].children
          && PermRefError(cs, typ, permission, ref) == Some(x)
    {
      var permission :| permission in todo;
      var refs := td.permissions[permission].children;
      var found: seq<ValidationError> := [];
      var i := 0;
      while i < |refs|
        invariant 0 <= i <= |refs|
        invariant forall x :: x in found <==> exists j :: 0 <= j < i && PermRefError(cs, typ, permission, refs[j]) == Some(x)
      {
        var err := PermRefError(cs, typ, permission, refs[i]);
        if err.Some? {
          found := found + [err.value];
        }
        i := i + 1;
      }
      errs := errs + found;
      todo := todo - {permission};
    }
  }

  // What `Compile` and `Validate` together accept.
  ghost predicate Accepted(raw: RawSchema, cs: Schema, compiles: string -> bool) {
    && cs.types.Keys == raw.types.Keys
    && (forall name :: name in raw.types ==> CompiledType(name, raw.types[name], cs.types[name], compiles))
    && forall x :: !Complaint(cs, x)
  }

  // Only declared names are referred to.
  ghost predicate Declares(td: TypeDef, ref: PermissionRef) {
    match ref.Kind()
    case RelationKind => ref.relationRef in td.relations || ref.relationRef in td.permissions
    case ArrowKind => ref.arrowRef in td.relations
    case ConditionKind => true
  }

  /**
   Every permission of an accepted schema is stored under its own name, has one of the four
   operations, at least one child, and refers to declared relations and arrows only.
   */
  lemma {:induction false} AcceptedWellFormed(raw: RawSchema, cs: Schema, compiles: string -> bool)
    requires Accepted(raw, cs, compiles)
    ensures WellNamed(cs)
    ensures forall n: Node :: cs.Def(n).Some? ==>
              && !cs.Def(n).value.operation.OtherOp? && cs.Def(n).value.children != []
              && forall ref :: ref in cs.Def(n).value.children ==> Declares(cs.types[n.objType], ref)
    ensures (forall typ :: typ in raw.types ==> ':' !in typ && forall p :: p in raw.types[typ].permissions ==> '#' !in p) ==> SafeNames(cs)
  {
    forall n: Node | cs.Def(n).Some?
      ensures cs.Def(n).value.name == n.perm && !cs.Def(n).value.operation.OtherOp? && cs.Def(n).value.children != []
      ensures n.objType in raw.types && n.perm in raw.types[n.objType].permissions
      ensures forall ref :: ref in cs.Def(n).value.children ==> Declares(cs.types[n.objType], ref)
    {
      var rawType, td := raw.types[n.objType], cs.types[n.objType];
      assert CompiledType(n.objType, rawType, td, compiles);
      var rawPerm := rawType.permissions[n.perm];
      ParseAllEach(rawPerm.union);
      ParseAllEach(rawPerm.intersect);
      ParseAllEach(rawPerm.exclusion);
      forall ref | ref in cs.Def(n).value.children
        ensures Declares(td, ref)
      {
        if PermRefError(cs, n.objType, n.perm, ref).Some? {
          assert PermissionComplaint(cs, n.objType, PermRefError(cs, n.objType, n.perm, ref).value);
          assert Complaint(cs, PermRefError(cs, n.objType, n.perm, ref).value);
        }
      }
    }
  }
}
