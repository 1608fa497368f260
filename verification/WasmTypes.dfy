/** Value types, composite types and recursion groups of the WebAssembly GC proposal, as the
    runtime stores them (include/common/types.h and include/ast/type.h). */
module WasmTypes {
  import opened Options

  /** The type codes a core-module value type can hold. */
  datatype TypeCode =
    | TypeIndex
    | I32 | I64 | F32 | F64 | V128 | I8 | I16
    | NullExnRef | NullFuncRef | NullExternRef | NullRef
    | FuncRef | ExternRef | AnyRef | EqRef | I31Ref | StructRef | ArrayRef | ExnRef
    | Ref | RefNull
    | Epsilon

  predicate IsAbsHeapCode(c: TypeCode) {
    || c.NullExnRef? || c.NullFuncRef? || c.NullExternRef? || c.NullRef?
    || c.FuncRef? || c.ExternRef? || c.AnyRef? || c.EqRef?
    || c.I31Ref? || c.StructRef? || c.ArrayRef? || c.ExnRef?
  }

  predicate IsNumCode(c: TypeCode) {
    c.I32? || c.I64? || c.F32? || c.F64? || c.V128? || c.I8? || c.I16?
  }

  /** The packed value type: a code, a heap type code, and a type index. */
  datatype ValType = ValType(code: TypeCode, heapCode: TypeCode, idx: nat) {
    predicate IsRefType() { code.Ref? || code.RefNull? }

    predicate IsNullableRefType() { code.RefNull? }

    predicate IsAbsHeapType() { IsRefType() && IsAbsHeapCode(heapCode) }

    /** What the constructors from type codes and the loader establish: a reference type names an
        abstract heap type or a type index, and any other type is numeric, vector or packed. The
        constructors from raw fields and from raw bytes leave this to their callers. */
    predicate Valid() {
      || (IsRefType() && (IsAbsHeapCode(heapCode) || heapCode.TypeIndex?))
      || (IsNumCode(code) && heapCode.Epsilon?)
    }
  }

  datatype ValMut = Const | Var

  datatype FieldType = FieldType(storage: ValType, mut: ValMut)

  predicate ValsValid(vs: seq<ValType>) {
    forall k | 0 <= k < |vs| :: vs[k].Valid()
  }

  predicate FieldsValid(fs: seq<FieldType>) {
    forall k | 0 <= k < |fs| :: fs[k].storage.Valid()
  }

  datatype CompositeType =
    | Func(params: seq<ValType>, results: seq<ValType>)
    | Struct(fields: seq<FieldType>)
    | Array(field: FieldType)
  {
    /** The abstract heap type directly above the composite type. */
    function Expand(): TypeCode {
      match this
      case Func(_, _) => FuncRef
      case Struct(_) => StructRef
      case Array(_) => ArrayRef
    }

    predicate Valid() {
      match this
      case Func(ps, rs) => ValsValid(ps) && ValsValid(rs)
      case Struct(fs) => FieldsValid(fs)
      case Array(f) => f.storage.Valid()
    }
  }

  /** Position inside the recursion group, and the size of the group. */
  datatype RecInfo = RecInfo(index: nat, size: nat)

  datatype SubType = SubType(
    isFinal: bool,
    supers: seq<nat>,
    comp: CompositeType,
    recInfo: Option<RecInfo>)

  /** A span over the types of one module. `data` stands for the address of the storage. */
  datatype TypeList = TypeList(data: nat, types: seq<SubType>)

  function GroupSize(sub: SubType): nat {
    if sub.recInfo.Some? then sub.recInfo.value.size else 1
  }

  function GroupOffset(sub: SubType): nat {
    if sub.recInfo.Some? then sub.recInfo.value.index else 0
  }

  /** The types at start, ..., start + size - 1 form one recursion group. */
  ghost predicate IsGroup(ts: seq<SubType>, start: int, size: nat) {
    && 0 <= start && 0 < size && start + size <= |ts|
    && (forall j | start <= j < start + size :: GroupSize(ts[j]) == size)
    && (forall j | start <= j < start + size :: GroupOffset(ts[j]) == j - start)
  }

  /** Every type index inside the value type is below `end`. */
  predicate ValBelow(v: ValType, end: nat) {
    v.Valid() && (v.heapCode.TypeIndex? ==> v.idx < end)
  }

  predicate ValsBelow(vs: seq<ValType>, end: nat) {
    forall k | 0 <= k < |vs| :: ValBelow(vs[k], end)
  }

  predicate FieldsBelow(fs: seq<FieldType>, end: nat) {
    forall k | 0 <= k < |fs| :: ValBelow(fs[k].storage, end)
  }

  predicate CompBelow(c: CompositeType, end: nat) {
    match c
    case Func(ps, rs) => ValsBelow(ps, end) && ValsBelow(rs, end)
    case Struct(fs) => FieldsBelow(fs, end)
    case Array(f) => ValBelow(f.storage, end)
  }

  predicate SubBelow(sub: SubType, end: nat) {
    && CompBelow(sub.comp, end)
    && (forall k | 0 <= k < |sub.supers| :: sub.supers[k] < end)
  }

  /** `rank` falls strictly from the type at `i` to each of its declared supertypes. */
  ghost predicate RankFallsAt(ts: seq<SubType>, rank: seq<nat>, i: nat)
    requires i < |ts| == |rank|
  {
    forall k | 0 <= k < |ts[i].supers| :: ts[i].supers[k] < |ts| && rank[ts[i].supers[k]] < rank[i]
  }

  ghost predicate Ranked(ts: seq<SubType>, rank: seq<nat>) {
    |rank| == |ts| && forall i | 0 <= i < |ts| :: RankFallsAt(ts, rank, i)
  }

  ghost predicate Acyclic(ts: seq<SubType>) {
    exists rank :: Ranked(ts, rank)
  }

  /** The type at `i` lies in its recursion group, refers to earlier groups or to its own one, and
      its supertypes have its composite kind. */
  ghost predicate WfAt(ts: seq<SubType>, i: nat)
    requires i < |ts|
  {
    var start := i - GroupOffset(ts[i]);
    && GroupOffset(ts[i]) < GroupSize(ts[i])
    && IsGroup(ts, start, GroupSize(ts[i]))
    && SubBelow(ts[i], start + GroupSize(ts[i]))
    && (forall k | 0 <= k < |ts[i].supers| :: ts[ts[i].supers[k]].comp.Expand() == ts[i].comp.Expand())
  }

  /** Type sections accepted by the loader and the validator. Recursion groups are contiguous and
      the supertype relation has no cycle. A supertype may stand after its subtype inside one
      recursion group. */
  ghost predicate WfTypes(ts: seq<SubType>) {
    (forall i | 0 <= i < |ts| :: WfAt(ts, i)) && Acyclic(ts)
  }

  ghost function Start(ts: seq<SubType>, i: nat): (s: nat)
    requires WfTypes(ts) && i < |ts|
    ensures s <= i < s + GroupSize(ts[i]) <= |ts|
    ensures IsGroup(ts, s, GroupSize(ts[i]))
  {
    assert WfAt(ts, i);
    i - GroupOffset(ts[i])
  }

  ghost function Rank(ts: seq<SubType>): (rank: seq<nat>)
    requires Acyclic(ts)
    ensures Ranked(ts, rank)
  {
    var rank :| Ranked(ts, rank);
    rank
  }
}
