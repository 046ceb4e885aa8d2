/** Compiled schemas (pkg/schema/types.go). */
module Schemas {
  import opened Wrappers
  import opened Keys

  // Go's PermOp is an open integer type; `OtherOp` stands for every value without a name.
  datatype PermOp = Union | Intersect | Exclusion | DirectOp | OtherOp(code: int)

  datatype RefKind = RelationKind | ArrowKind | ConditionKind

  datatype PermissionRef = PermissionRef(relationRef: string, arrowRef: string, arrowPermission: string, conditionExpr: string) {
    function Kind(): RefKind {
      if arrowRef != "" then ArrowKind
      else if conditionExpr != "" then ConditionKind
      else RelationKind
    }
  }

  datatype PermissionDef = PermissionDef(name: string, operation: PermOp, children: seq<PermissionRef>, condition: Option<string>)

  datatype AllowedTypeRef = AllowedTypeRef(typ: string, relation: string)

  datatype RelationDef = RelationDef(name: string, allowedTypes: seq<AllowedTypeRef>)

  datatype TypeDef = TypeDef(name: string, relations: map<string, RelationDef>, permissions: map<string, PermissionDef>)

  datatype Schema = Schema(types: map<string, TypeDef>) {
    function GetPermission(objType: string, permission: string): Option<PermissionDef> {
      if objType in types && permission in types[objType].permissions
      then Some(types[objType].permissions[permission])
      else None
    }

    function Def(n: Node): Option<PermissionDef> {
      GetPermission(n.objType, n.perm)
    }
  }

  // Every permission is stored under its own name.
  ghost predicate WellNamed(s: Schema) {
    forall n: Node :: s.Def(n).Some? ==> s.Def(n).value.name == n.perm
  }

  // Type names lack ':' and permission names lack '#'.
  ghost predicate SafeNames(s: Schema) {
    forall n: Node :: s.Def(n).Some? ==> SafeNode(n)
  }

  ghost predicate NoExclusion(s: Schema) {
    forall n: Node :: s.Def(n).Some? ==> !s.Def(n).value.operation.Exclusion?
  }

  // Built from resolve and union only, over relation, arrow and condition children.
  ghost predicate UnionOnly(s: Schema) {
    forall n: Node :: s.Def(n).Some? ==> s.Def(n).value.operation in {Union, DirectOp}
  }
}
