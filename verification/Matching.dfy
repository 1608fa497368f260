/** The matching relation of section 3.3 of the WebAssembly Core Specification 3.0 over type
    trees: the reflexive and transitive closure of the declared subtyping steps. */
module Matching {
  import opened WasmTypes
  import opened TypeTrees
  import opened Closure

  /** Heap types with every type index resolved. A type index past the end of its list dangles
      and matches nothing. */
  datatype Heap = Abs(code: TypeCode) | Def(t: DefTree) | Dangling

  datatype Val = Num(code: TypeCode) | RefTo(nullable: bool, heap: Heap)

  datatype Field = Field(storage: Val, mut: ValMut)

  datatype Comp =
    | FuncComp(params: seq<Val>, results: seq<Val>)
    | StructComp(fields: seq<Field>)
    | ArrayComp(field: Field)

  // ----- defined and heap types -----

  function Unfold(group: seq<RolledSub>, r: RolledRef): DefTree {
    match r
    case Inner(k) => DefTree(group, k)
    case Outer(t) => t
  }

  /** `sup` is a declared supertype of `sub`. */
  ghost predicate DefStep(sub: DefTree, sup: DefTree) {
    && sub.pos < |sub.group|
    && var refs := sub.group[sub.pos].supers;
    exists k | 0 <= k < |refs| :: Unfold(sub.group, refs[k]) == sup
  }

  /** `exp` is `got` or one of its ancestors. */
  ghost predicate DefMatches(exp: DefTree, got: DefTree) {
    Star(DefStep, got, exp)
  }

  /** The abstract heap type above a defined type. */
  function Kind(t: DefTree): TypeCode {
    if t.pos >= |t.group| then Epsilon
    else match t.group[t.pos].comp
      case RolledFunc(_, _) => FuncRef
      case RolledStruct(_) => StructRef
      case RolledArray(_) => ArrayRef
  }

  /** The type exists, and its ancestors are types of its own kind. */
  ghost predicate WellKinded(t: DefTree) {
    Kind(t) != Epsilon && forall u :: DefMatches(u, t) ==> Kind(u) == Kind(t)
  }

  ghost predicate Known(h: Heap) {
    match h
    case Abs(c) => IsAbsHeapCode(c)
    case Def(t) => WellKinded(t)
    case Dangling => false
  }

  /** The top type of the hierarchy of a heap type. */
  function Top(h: Heap): TypeCode
    requires !h.Dangling?
  {
    match if h.Abs? then h.code else Kind(h.t)
    case FuncRef => FuncRef
    case NullFuncRef => FuncRef
    case ExternRef => ExternRef
    case NullExternRef => ExternRef
    case ExnRef => ExnRef
    case NullExnRef => ExnRef
    case _ => AnyRef
  }

  /** The bottom type of the hierarchy below `top`. */
  function Bottom(top: TypeCode): TypeCode {
    match top
    case FuncRef => NullFuncRef
    case ExternRef => NullExternRef
    case ExnRef => NullExnRef
    case _ => NullRef
  }

  /** The rules for heap types, apart from reflexivity and transitivity. */
  ghost predicate HeapStep(sub: Heap, sup: Heap) {
    && Known(sub) && Known(sup)
    && (|| (sup == Abs(AnyRef) && sub == Abs(EqRef))
        || (sup == Abs(EqRef) && sub in {Abs(I31Ref), Abs(StructRef), Abs(ArrayRef)})
        || (sub.Def? && sup == Abs(Kind(sub.t)))
        || (sub.Def? && sup.Def? && DefStep(sub.t, sup.t))
        || sub == Abs(Bottom(Top(sup))))
  }

  ghost predicate HeapMatches(exp: Heap, got: Heap) {
    Known(exp) && Known(got) && Star(HeapStep, got, exp)
  }

  // ----- value and composite types -----

  ghost predicate ValMatches(exp: Val, got: Val) {
    match (exp, got)
    case (Num(e), Num(g)) => e == g
    case (RefTo(en, eh), RefTo(gn, gh)) => (gn ==> en) && HeapMatches(eh, gh)
    case _ => false
  }

  ghost predicate ValsMatch(exp: seq<Val>, got: seq<Val>) {
    && |exp| == |got|
    && (forall k | 0 <= k < |exp| :: ValMatches(exp[k], got[k]))
  }

  ghost predicate FieldMatches(exp: Field, got: Field) {
    && exp.mut == got.mut
    && ValMatches(exp.storage, got.storage)
    && (exp.mut.Var? ==> ValMatches(got.storage, exp.storage))
  }

  ghost predicate CompMatches(exp: Comp, got: Comp) {
    match (exp, got)
    case (FuncComp(eps, ers), FuncComp(gps, grs)) => ValsMatch(gps, eps) && ValsMatch(ers, grs)
    case (StructComp(efs), StructComp(gfs)) =>
      |efs| <= |gfs| && forall k | 0 <= k < |efs| :: FieldMatches(efs[k], gfs[k])
    case (ArrayComp(ef), ArrayComp(gf)) => FieldMatches(ef, gf)
    case _ => false
  }

  // ----- what the types of a list mean -----

  ghost function ResolveVal(ts: seq<SubType>, v: ValType): Val
    requires WfTypes(ts)
  {
    if !v.IsRefType() then Num(v.code)
    else RefTo(
      v.IsNullableRefType(),
      if !v.heapCode.TypeIndex? then Abs(v.heapCode)
      else if v.idx < |ts| then Def(Tree(ts, v.idx))
      else Dangling)
  }

  ghost function ResolveVals(ts: seq<SubType>, vs: seq<ValType>): (r: seq<Val>)
    requires WfTypes(ts)
    ensures |r| == |vs|
  {
    seq(|vs|, k requires 0 <= k < |vs| => ResolveVal(ts, vs[k]))
  }

  ghost function ResolveField(ts: seq<SubType>, f: FieldType): Field
    requires WfTypes(ts)
  {
    Field(ResolveVal(ts, f.storage), f.mut)
  }

  ghost function ResolveFields(ts: seq<SubType>, fs: seq<FieldType>): (r: seq<Field>)
    requires WfTypes(ts)
    ensures |r| == |fs|
  {
    seq(|fs|, k requires 0 <= k < |fs| => ResolveField(ts, fs[k]))
  }

  ghost function ResolveComp(ts: seq<SubType>, c: CompositeType): Comp
    requires WfTypes(ts)
  {
    match c
    case Func(ps, rs) => FuncComp(ResolveVals(ts, ps), ResolveVals(ts, rs))
    case Struct(fs) => StructComp(ResolveFields(ts, fs))
    case Array(f) => ArrayComp(ResolveField(ts, f))
  }
}
