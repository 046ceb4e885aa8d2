/** Option and Result, in the usual shape. */
module Wrappers {
  datatype Option<+T> = None | Some(value: T)

  datatype Result<+T, +E> = Ok(value: T) | Err(error: E)
}

/**
 Relation tuples, and what one store call can see: a `View` is the tenant's data at
 the moment the store's lock is held, with expired tuples already dropped.
 */
module Tuples {
  import opened Wrappers

  // Nanoseconds on the store's clock.
  type Time = int

  type Attrs = map<string, string>

  datatype StoreError =
    | TenantNotFound
    | TenantDeleted
    | TenantSuspended
    | DuplicateTuple
    | NotFound
    | TenantExists

  // The six fields that identify a tuple.
  datatype Identity = Identity(objType: string, objId: string, relation: string,
                               subType: string, subId: string, subRel: string)

  datatype SubjectRef = SubjectRef(typ: string, id: string, relation: string)

  datatype ObjectRef = ObjectRef(typ: string, id: string)

  datatype View = View(fault: Option<StoreError>, live: seq<Identity>,
                       objAttrs: map<string, Attrs>, subAttrs: map<string, Attrs>)

  // The tuples a lookup can observe: none at all when the store refuses to read.
  ghost function Seen(v: View): iset<Identity> {
    if v.fault.Some? then iset{} else iset id | id in v.live
  }

  function Subjects(live: seq<Identity>, objType: string, objId: string, relation: string): (us: seq<SubjectRef>)
    ensures forall u :: u in us <==> Identity(objType, objId, relation, u.typ, u.id, u.relation) in live
  {
    if live == [] then []
    else
      var init, last := live[..|live| - 1], live[|live| - 1];
      assert live == init + [last];
      var us := Subjects(init, objType, objId, relation);
      if last.objType == objType && last.objId == objId && last.relation == relation
      then us + [SubjectRef(last.subType, last.subId, last.subRel)]
      else us
  }

  // Arrow targets: the objects of every matching tuple, userset tuples included.
  function Targets(us: seq<SubjectRef>): (os: seq<ObjectRef>)
    ensures |os| == |us| && forall i :: 0 <= i < |us| ==> os[i] == ObjectRef(us[i].typ, us[i].id)
  {
    seq(|us|, i requires 0 <= i < |us| => ObjectRef(us[i].typ, us[i].id))
  }

  function LookupDirect(v: View, id: Identity): (r: Result<bool, StoreError>)
    ensures r == Ok(true) <==> id in Seen(v)
  {
    if v.fault.Some? then Err(v.fault.value) else Ok(id in v.live)
  }

  function LookupSubjects(v: View, objType: string, objId: string, relation: string): Result<seq<SubjectRef>, StoreError> {
    if v.fault.Some? then Err(v.fault.value) else Ok(Subjects(v.live, objType, objId, relation))
  }

  function LookupTargets(v: View, objType: string, objId: string, relation: string): Result<seq<ObjectRef>, StoreError> {
    if v.fault.Some? then Err(v.fault.value) else Ok(Targets(Subjects(v.live, objType, objId, relation)))
  }

  // Missing attributes and failed reads both become the empty map.
  function ObjectAttrs(v: View, typ: string, id: string): Attrs {
    var key := typ + ":" + id;
    if v.fault.None? && key in v.objAttrs then v.objAttrs[key] else map[]
  }

  function SubjectAttrs(v: View, typ: string, id: string): Attrs {
    var key := typ + ":" + id;
    if v.fault.None? && key in v.subAttrs then v.subAttrs[key] else map[]
  }
}
