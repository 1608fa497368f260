/** Rolled type trees: what a defined type means independently of the list that declares it.
    Two defined types are the same type exactly when their trees are equal (section 3.3,
    Matching, of the WebAssembly Core Specification 3.0). */
module TypeTrees {
  import opened WasmTypes

  /** A defined type: a closed recursion group, and a position in it. */
  datatype DefTree = DefTree(group: seq<RolledSub>, pos: nat)

  /** A reference from inside a group: to a member of the group, or to a closed type outside. */
  datatype RolledRef = Inner(k: nat) | Outer(t: DefTree)

  datatype RolledHeap = RolledAbs(heapCode: TypeCode) | RolledDef(ref: RolledRef)

  datatype RolledVal = RolledVal(code: TypeCode, heap: RolledHeap)

  datatype RolledField = RolledField(storage: RolledVal, mut: ValMut)

  datatype RolledComp =
    | RolledFunc(params: seq<RolledVal>, results: seq<RolledVal>)
    | RolledStruct(fields: seq<RolledField>)
    | RolledArray(field: RolledField)

  datatype RolledSub = RolledSub(isFinal: bool, supers: seq<RolledRef>, comp: RolledComp)

  /** The tree of the type at index `i`. */
  ghost function Tree(ts: seq<SubType>, i: nat): DefTree
    requires WfTypes(ts) && i < |ts|
    decreases Start(ts, i), 6
  {
    var start := Start(ts, i);
    DefTree(RollGroup(ts, start, GroupSize(ts[i])), i - start)
  }

  ghost function RollGroup(ts: seq<SubType>, start: nat, size: nat): (g: seq<RolledSub>)
    requires WfTypes(ts) && IsGroup(ts, start, size)
    ensures |g| == size
    decreases start, 5
  {
    seq(size, k requires 0 <= k < size => RollSub(ts, start, size, start + k))
  }

  ghost function RollSub(ts: seq<SubType>, start: nat, size: nat, i: nat): RolledSub
    requires WfTypes(ts) && IsGroup(ts, start, size) && start <= i < start + size
    decreases start, 4
  {
    assert WfAt(ts, i);
    var sub := ts[i];
    RolledSub(
      sub.isFinal,
      RollRefs(ts, start, size, sub.supers),
      RollComp(ts, start, size, sub.comp))
  }

  ghost function RollRefs(ts: seq<SubType>, start: nat, size: nat, refs: seq<nat>): (r: seq<RolledRef>)
    requires WfTypes(ts) && IsGroup(ts, start, size)
    requires forall k | 0 <= k < |refs| :: refs[k] < start + size
    ensures |r| == |refs|
    decreases start, 2
  {
    seq(|refs|, k requires 0 <= k < |refs| => RollRef(ts, start, size, refs[k]))
  }

  ghost function RollComp(ts: seq<SubType>, start: nat, size: nat, c: CompositeType): RolledComp
    requires WfTypes(ts) && IsGroup(ts, start, size) && CompBelow(c, start + size)
    decreases start, 3
  {
    match c
    case Func(ps, rs) => RolledFunc(RollVals(ts, start, size, ps), RollVals(ts, start, size, rs))
    case Struct(fs) => RolledStruct(RollFields(ts, start, size, fs))
    case Array(f) => RolledArray(RolledField(RollVal(ts, start, size, f.storage), f.mut))
  }

  ghost function RollFields(ts: seq<SubType>, start: nat, size: nat, fs: seq<FieldType>): (r: seq<RolledField>)
    requires WfTypes(ts) && IsGroup(ts, start, size) && FieldsBelow(fs, start + size)
    ensures |r| == |fs|
    decreases start, 2
  {
    seq(|fs|, k requires 0 <= k < |fs| => RolledField(RollVal(ts, start, size, fs[k].storage), fs[k].mut))
  }

  ghost function RollVals(ts: seq<SubType>, start: nat, size: nat, vs: seq<ValType>): (r: seq<RolledVal>)
    requires WfTypes(ts) && IsGroup(ts, start, size) && ValsBelow(vs, start + size)
    ensures |r| == |vs|
    decreases start, 2
  {
    seq(|vs|, k requires 0 <= k < |vs| => RollVal(ts, start, size, vs[k]))
  }

  ghost function RollVal(ts: seq<SubType>, start: nat, size: nat, v: ValType): RolledVal
    requires WfTypes(ts) && IsGroup(ts, start, size) && ValBelow(v, start + size)
    decreases start, 1
  {
    RolledVal(
      v.code,
      if v.heapCode.TypeIndex? then RolledDef(RollRef(ts, start, size, v.idx)) else RolledAbs(v.heapCode))
  }

  ghost function RollRef(ts: seq<SubType>, start: nat, size: nat, idx: nat): RolledRef
    requires WfTypes(ts) && IsGroup(ts, start, size) && idx < start + size
    decreases start, 0
  {
    if start <= idx then Inner(idx - start) else Outer(Tree(ts, idx))
  }
}
