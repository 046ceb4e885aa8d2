/** What an accepted schema means, in terms of what its author wrote. */
module Meaning {
  import opened Wrappers
  import opened Tuples
  import opened Keys
  import opened Schemas
  import opened WalkSpec
  import opened Rules
  import opened Text
  import opened Compiler

  // The list an author gives for a permission without `resolve`.
  function Listed(raw: RawPermission): seq<string> {
    if raw.union != [] then raw.union else if raw.intersect != [] then raw.intersect else raw.exclusion
  }

  ghost predicate AllParse(refs: seq<string>) {
    forall i :: 0 <= i < |refs| ==> ParsePermissionRef(refs[i]).Ok?
  }

  /**
   A permission is refused exactly when its condition does not compile, or it has neither a relation to
   resolve nor any list, or a reference of the list that counts does not parse.
   */
  lemma {:induction false} CompilationFails(name: string, raw: RawPermission, compiles: string -> bool)
    ensures CompiledPermission(name, raw, compiles).Err? <==>
              || (raw.condition != "" && !compiles(raw.condition))
              || (raw.resolve == "" && (Listed(raw) == [] || !AllParse(Listed(raw))))
    ensures raw.condition != "" && !compiles(raw.condition) ==> CompiledPermission(name, raw, compiles) == Err(BadCondition(raw.condition))
    ensures (raw.condition == "" || compiles(raw.condition)) && raw.resolve == "" && Listed(raw) == [] ==>
              CompiledPermission(name, raw, compiles) == Err(NoOperation(name))
  {
    ParseAllEach(Listed(raw));
  }

  // The children are the references of the list, one for one and in order.
  ghost predicate ParsedFrom(children: seq<PermissionRef>, refs: seq<string>) {
    |children| == |refs| && forall i :: 0 <= i < |refs| ==> ParsePermissionRef(refs[i]) == Ok(children[i])
  }

  // The operation and the children an author asked for.
  ghost predicate AsWritten(pd: PermissionDef, raw: RawPermission) {
    && (raw.condition == "" ==> pd.condition.None?) && (raw.condition != "" ==> pd.condition == Some(raw.condition))
    && (raw.resolve != "" ==> pd.operation.DirectOp? && |pd.children| == 1 && pd.children[0].relationRef == raw.resolve && pd.children[0].Kind().RelationKind?)
    && (raw.resolve == "" && raw.union != [] ==> pd.operation.Union? && ParsedFrom(pd.children, raw.union))
    && (raw.resolve == "" && raw.union == [] && raw.intersect != [] ==> pd.operation.Intersect? && ParsedFrom(pd.children, raw.intersect))
    && (raw.resolve == "" && raw.union == [] && raw.intersect == [] ==>
          pd.operation.Exclusion? && raw.exclusion != [] && ParsedFrom(pd.children, raw.exclusion))
  }

  /** What compiles has the author's name, condition, operation and references. */
  lemma {:induction false} CompiledAsWritten(name: string, raw: RawPermission, compiles: string -> bool)
    requires CompiledPermission(name, raw, compiles).Ok?
    ensures var pd := CompiledPermission(name, raw, compiles).value; pd.name == name && AsWritten(pd, raw)
  {
    ParseAllEach(raw.union);
    ParseAllEach(raw.intersect);
    ParseAllEach(raw.exclusion);
  }

  // A written reference holds when it parses and what it names holds.
  ghost predicate RefHolds(s: Schema, f: Facts, req: Request, text: string, p: Request -> bool) {
    ParsePermissionRef(text).Ok? && ChildHolds(s, f, req, ParsePermissionRef(text).value, p)
  }

  lemma {:induction false} ListHolds(s: Schema, f: Facts, req: Request, children: seq<PermissionRef>, refs: seq<string>, p: Request -> bool)
    requires ParsedFrom(children, refs)
    ensures (exists c :: c in children && ChildHolds(s, f, req, c, p)) <==> exists i :: 0 <= i < |refs| && RefHolds(s, f, req, refs[i], p)
    ensures (forall c :: c in children ==> ChildHolds(s, f, req, c, p)) <==> forall i :: 0 <= i < |refs| ==> RefHolds(s, f, req, refs[i], p)
  {
    assert forall i :: 0 <= i < |refs| ==> RefHolds(s, f, req, refs[i], p) == ChildHolds(s, f, req, children[i], p);
    if i :| 0 <= i < |refs| && RefHolds(s, f, req, refs[i], p) {
      assert children[i] in children;
    }
    if forall c :: c in children ==> ChildHolds(s, f, req, c, p) {
      assert forall i :: 0 <= i < |refs| ==> children[i] in children;
    }
  }

  lemma {:induction false} TailHolds(s: Schema, f: Facts, req: Request, children: seq<PermissionRef>, refs: seq<string>, p: Request -> bool)
    requires ParsedFrom(children, refs) && refs != []
    ensures (exists c :: c in children[1..] && ChildHolds(s, f, req, c, p)) <==> exists i :: 1 <= i < |refs| && RefHolds(s, f, req, refs[i], p)
  {
    ListHolds(s, f, req, children[1..], refs[1..], p);
    if i :| 0 <= i < |refs[1..]| && RefHolds(s, f, req, refs[1..][i], p) {
      assert RefHolds(s, f, req, refs[i + 1], p);
    }
    if i :| 1 <= i < |refs| && RefHolds(s, f, req, refs[i], p) {
      assert refs[1..][i - 1] == refs[i];
    }
  }

  // The rule an author wrote.
  ghost predicate WrittenRule(s: Schema, pos: Facts, neg: Facts, req: Request, raw: RawPermission, p: Request -> bool, q: Request -> bool) {
    if raw.resolve != "" then RelationHolds(s, pos, req, raw.resolve, p)
    else if raw.union != [] then exists i :: 0 <= i < |raw.union| && RefHolds(s, pos, req, raw.union[i], p)
    else if raw.intersect != [] then forall i :: 0 <= i < |raw.intersect| ==> RefHolds(s, pos, req, raw.intersect[i], p)
    else
      && raw.exclusion != [] && RefHolds(s, pos, req, raw.exclusion[0], p)
      && forall i :: 1 <= i < |raw.exclusion| ==> !RefHolds(s, neg, req, raw.exclusion[i], q)
  }

  lemma {:induction false} RuleAsWritten(s: Schema, pos: Facts, neg: Facts, req: Request, pd: PermissionDef, raw: RawPermission, p: Request -> bool, q: Request -> bool)
    requires AsWritten(pd, raw)
    ensures DefHolds(s, pos, neg, req, pd, p, q) <==> WrittenRule(s, pos, neg, req, raw, p, q)
  {
    if raw.resolve != "" {
      assert pd.children[0] in pd.children;
      assert ChildHolds(s, pos, req, pd.children[0], p) <==> RelationHolds(s, pos, req, raw.resolve, p);
    } else if raw.union != [] {
      ListHolds(s, pos, req, pd.children, raw.union, p);
    } else if raw.intersect != [] {
      ListHolds(s, pos, req, pd.children, raw.intersect, p);
    } else {
      TailHolds(s, neg, req, pd.children, raw.exclusion, q);
      assert RefHolds(s, pos, req, raw.exclusion[0], p) <==> ChildHolds(s, pos, req, pd.children[0], p);
    }
  }

  /**
   A permission of an accepted schema means what its author wrote: `resolve` holds iff the relation does,
   `union` iff some reference holds, `intersect` iff all do, `exclusion` iff the first does and no later one.
   */
  lemma {:induction false} AcceptedMeaning(raw: RawSchema, cs: Schema, compiles: string -> bool, typ: string, perm: string,
                        pos: Facts, neg: Facts, req: Request, p: Request -> bool, q: Request -> bool)
    requires Accepted(raw, cs, compiles) && typ in raw.types && perm in raw.types[typ].permissions
    requires req.objType == typ && req.perm == perm
    ensures Holds(cs, pos, neg, req, p, q) <==> WrittenRule(cs, pos, neg, req, raw.types[typ].permissions[perm], p, q)
    ensures cs.Def(req.Node()).Some? && AsWritten(cs.Def(req.Node()).value, raw.types[typ].permissions[perm])
  {
    assert CompiledType(typ, raw.types[typ], cs.types[typ], compiles);
    var rawPerm := raw.types[typ].permissions[perm];
    CompiledAsWritten(perm, rawPerm, compiles);
    RuleAsWritten(cs, pos, neg, req, cs.Def(req.Node()).value, rawPerm, p, q);
  }

  // The type and the optional relation, around the first '#'.
  ghost predicate SplitAtHash(ref: AllowedTypeRef, text: string) {
    '#' !in ref.typ && if '#' in text then text == ref.typ + "#" + ref.relation else text == ref.typ && ref.relation == ""
  }

  /** Its types and relations are the author's, with every allowed type in its place. */
  lemma {:induction false} AcceptedRelations(raw: RawSchema, cs: Schema, compiles: string -> bool, typ: string)
    requires Accepted(raw, cs, compiles)
    ensures typ in cs.types <==> typ in raw.types
    ensures typ in raw.types ==> cs.types[typ].name == typ
    ensures typ in raw.types ==> cs.types[typ].permissions.Keys == raw.types[typ].permissions.Keys
    ensures typ in raw.types ==> cs.types[typ].relations.Keys == raw.types[typ].relations.Keys
    ensures typ in raw.types ==> forall r :: r in raw.types[typ].relations ==>
              var (rd, texts) := (cs.types[typ].relations[r], raw.types[typ].relations[r]);
              rd.name == r && |rd.allowedTypes| == |texts| && forall i :: 0 <= i < |texts| ==> SplitAtHash(rd.allowedTypes[i], texts[i])
  {
    if typ in raw.types {
      assert CompiledType(typ, raw.types[typ], cs.types[typ], compiles);
      forall r, i | r in raw.types[typ].relations && 0 <= i < |raw.types[typ].relations[r]|
        ensures SplitAtHash(cs.types[typ].relations[r].allowedTypes[i], raw.types[typ].relations[r][i])
      {
        AllowedTypeText(raw.types[typ].relations[r][i]);
      }
    }
  }

  // Every allowed type is declared, with its relation if it names one.
  ghost predicate RelationsDeclared(cs: Schema, typ: string)
    requires typ in cs.types
  {
    forall r, ref :: r in cs.types[typ].relations && ref in cs.types[typ].relations[r].allowedTypes ==>
      ref.typ in cs.types && (ref.relation != "" ==> ref.relation in cs.types[ref.typ].relations)
  }

  // Every relation reference is a relation or a permission of the type, and every arrow starts at a relation of it.
  ghost predicate ReferencesDeclared(cs: Schema, typ: string)
    requires typ in cs.types
  {
    forall perm, ref :: perm in cs.types[typ].permissions && ref in cs.types[typ].permissions[perm].children ==> Declares(cs.types[typ], ref)
  }

  lemma {:induction false} RelationsComplain(cs: Schema, typ: string)
    requires typ in cs.types
    ensures (forall x :: !RelationComplaint(cs, typ, x)) <==> RelationsDeclared(cs, typ)
  {
    var td := cs.types[typ];
    if forall x :: !RelationComplaint(cs, typ, x) {
      forall r, ref | r in td.relations && ref in td.relations[r].allowedTypes
        ensures ref.typ in cs.types && (ref.relation != "" ==> ref.relation in cs.types[ref.typ].relations)
      {
        if AllowedTypeError(cs, typ, r, ref).Some? {
          assert RelationComplaint(cs, typ, AllowedTypeError(cs, typ, r, ref).value);
        }
      }
    }
  }

  lemma {:induction false} ReferencesComplain(cs: Schema, typ: string)
    requires typ in cs.types
    ensures (forall x :: !PermissionComplaint(cs, typ, x)) <==> ReferencesDeclared(cs, typ)
  {
    var td := cs.types[typ];
    if forall x :: !PermissionComplaint(cs, typ, x) {
      forall perm, ref | perm in td.permissions && ref in td.permissions[perm].children
        ensures Declares(td, ref)
      {
        if PermRefError(cs, typ, perm, ref).Some? {
          assert PermissionComplaint(cs, typ, PermRefError(cs, typ, perm, ref).value);
        }
      }
    }
    if ReferencesDeclared(cs, typ) {
      forall perm, ref | perm in td.permissions && ref in td.permissions[perm].children
        ensures PermRefError(cs, typ, perm, ref).None?
      {
        assert Declares(td, ref);
      }
    }
  }

  /** Validation finds nothing to complain about exactly when every name that is used is declared. */
  lemma {:induction false} ValidIffDeclared(cs: Schema)
    ensures (forall x :: !Complaint(cs, x)) <==> forall typ :: typ in cs.types ==> RelationsDeclared(cs, typ) && ReferencesDeclared(cs, typ)
  {
    forall typ | typ in cs.types
      ensures (forall x :: !RelationComplaint(cs, typ, x) && !PermissionComplaint(cs, typ, x)) <==>
              RelationsDeclared(cs, typ) && ReferencesDeclared(cs, typ)
    {
      RelationsComplain(cs, typ);
      ReferencesComplain(cs, typ);
    }
    if forall x :: !Complaint(cs, x) {
      forall typ, x | typ in cs.types
        ensures !RelationComplaint(cs, typ, x) && !PermissionComplaint(cs, typ, x)
      {
        assert !Complaint(cs, x);
      }
    }
  }

  // The complaint names what is wrong.
  ghost predicate Culprit(cs: Schema, x: ValidationError)
    requires x.typ in cs.types
  {
    var td := cs.types[x.typ];
    match x
    case UnknownType(_, r, t) => t !in cs.types && r in td.relations && exists ref :: ref in td.relations[r].allowedTypes && ref.typ == t
    case UnknownTypeRelation(_, r, t, u) =>
      && r in td.relations && t in cs.types && u != "" && u !in cs.types[t].relations
      && AllowedTypeRef(t, u) in td.relations[r].allowedTypes
    case UnknownRef(_, perm, name) =>
      && perm in td.permissions && name !in td.relations && name !in td.permissions
      && exists ref :: ref in td.permissions[perm].children && ref.Kind().RelationKind? && ref.relationRef == name
    case UnknownArrowRelation(_, perm, arrow) =>
      && perm in td.permissions && arrow !in td.relations
      && exists ref :: ref in td.permissions[perm].children && ref.Kind().ArrowKind? && ref.arrowRef == arrow
  }

  lemma {:induction false} RelationCulprit(cs: Schema, typ: string, r: string, ref: AllowedTypeRef, x: ValidationError)
    requires typ in cs.types && r in cs.types[typ].relations && ref in cs.types[typ].relations[r].allowedTypes
    requires AllowedTypeError(cs, typ, r, ref) == Some(x)
    ensures x.typ == typ && Culprit(cs, x)
  {
    assert ref == AllowedTypeRef(ref.typ, ref.relation);
  }

  lemma {:induction false} ReferenceCulprit(cs: Schema, typ: string, perm: string, ref: PermissionRef, x: ValidationError)
    requires typ in cs.types && perm in cs.types[typ].permissions && ref in cs.types[typ].permissions[perm].children
    requires PermRefError(cs, typ, perm, ref) == Some(x)
    ensures x.typ == typ && Culprit(cs, x)
  {
  }

  /** Each complaint names its culprit. */
  lemma {:induction false} ComplaintsNameCulprits(cs: Schema, x: ValidationError)
    requires Complaint(cs, x)
    ensures x.typ in cs.types && Culprit(cs, x)
  {
    var typ :| typ in cs.types && (RelationComplaint(cs, typ, x) || PermissionComplaint(cs, typ, x));
    var td := cs.types[typ];
    if RelationComplaint(cs, typ, x) {
      var r, ref :| r in td.relations && ref in td.relations[r].allowedTypes && AllowedTypeError(cs, typ, r, ref) == Some(x);
      RelationCulprit(cs, typ, r, ref, x);
    } else {
      var perm, ref :| perm in td.permissions && ref in td.permissions[perm].children && PermRefError(cs, typ, perm, ref) == Some(x);
      ReferenceCulprit(cs, typ, perm, ref, x);
    }
  }
}
