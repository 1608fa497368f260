/** What the matching relations are for: a type matches another exactly when everything that can be
    done at the expected type can be done at the given one. */
module MatchingMeaning {
  import opened WasmTypes
  import opened TypeTrees
  import opened Matching
  import opened MatchingTheory

  // ----- abstract heap types -----

  /** The abstract heap types below each abstract heap type, written out. */
  function Subtypes(c: TypeCode): set<TypeCode> {
    match c
    case AnyRef => {AnyRef, EqRef, I31Ref, StructRef, ArrayRef, NullRef}
    case EqRef => {EqRef, I31Ref, StructRef, ArrayRef, NullRef}
    case I31Ref => {I31Ref, NullRef}
    case StructRef => {StructRef, NullRef}
    case ArrayRef => {ArrayRef, NullRef}
    case NullRef => {NullRef}
    case FuncRef => {FuncRef, NullFuncRef}
    case NullFuncRef => {NullFuncRef}
    case ExternRef => {ExternRef, NullExternRef}
    case NullExternRef => {NullExternRef}
    case ExnRef => {ExnRef, NullExnRef}
    case NullExnRef => {NullExnRef}
    case _ => {}
  }

  lemma CodesMatchIff(exp: TypeCode, got: TypeCode)
    requires IsAbsHeapCode(exp) && IsAbsHeapCode(got)
    ensures MatchTypeCode(exp, got) <==> got in Subtypes(exp)
  {
    match exp
    case AnyRef =>
    case EqRef =>
    case I31Ref =>
    case StructRef =>
    case ArrayRef =>
    case NullRef =>
    case _ =>
  }

  lemma AbstractMatchesIff(exp: TypeCode, got: TypeCode)
    requires IsAbsHeapCode(exp) && IsAbsHeapCode(got)
    ensures HeapMatches(Abs(exp), Abs(got)) <==> got in Subtypes(exp)
  {
    CodesMatchIff(exp, got);
    HeapMatchesIff(Abs(exp), Abs(got));
  }

  /** The abstract heap types above a declared type. */
  function Supertypes(c: CompositeType): set<TypeCode> {
    match c
    case Func(_, _) => {FuncRef}
    case Struct(_) => {StructRef, EqRef, AnyRef}
    case Array(_) => {ArrayRef, EqRef, AnyRef}
  }

  lemma IndexMatchesAbstractIff(ts: seq<SubType>, i: nat, c: TypeCode)
    requires WfTypes(ts) && i < |ts| && IsAbsHeapCode(c)
    ensures HeapMatches(Abs(c), Def(Tree(ts, i))) <==> c in Supertypes(ts[i].comp)
    ensures HeapMatches(Def(Tree(ts, i)), Abs(c)) <==> c == if ts[i].comp.Func? then NullFuncRef else NullRef
  {
    TreeShape(ts, i);
    TreeKnown(ts, i);
    HeapMatchesIff(Abs(c), Def(Tree(ts, i)));
    HeapMatchesIff(Def(Tree(ts, i)), Abs(c));
  }

  // ----- value types -----

  /** No type index of the value type is past the end of the list. */
  predicate Resolved(ts: seq<SubType>, v: ValType) {
    ValBelow(v, |ts|)
  }

  lemma ResolvedIsKnown(ts: seq<SubType>, v: ValType)
    requires WfTypes(ts) && Resolved(ts, v)
    ensures KnownVal(ResolveVal(ts, v))
  {
    if v.heapCode.TypeIndex? { TreeKnown(ts, v.idx); }
  }

  /** Numeric and packed types match themselves alone. */
  lemma NumericMatchesIff(exp: seq<SubType>, e: ValType, got: seq<SubType>, g: ValType)
    requires WfTypes(exp) && WfTypes(got) && e.Valid() && g.Valid() && (IsNumCode(e.code) || IsNumCode(g.code))
    ensures ValMatches(ResolveVal(exp, e), ResolveVal(got, g)) <==> e.code == g.code
  {
  }

  /** A nullable type is accepted only where a nullable one is expected, and a type that is not
      nullable is accepted in both places. */
  lemma NullabilityMatches(exp: seq<SubType>, e: ValType, got: seq<SubType>, g: ValType)
    requires WfTypes(exp) && WfTypes(got) && e.Valid() && g.Valid() && e.IsRefType() && g.IsRefType()
    ensures ValMatches(ResolveVal(exp, e), ResolveVal(got, g)) && g.code == RefNull ==> e.code == RefNull
    ensures var heap := HeapMatches(ResolveVal(exp, e).heap, ResolveVal(got, g).heap);
            ValMatches(ResolveVal(exp, e), ResolveVal(got, g)) <==> heap && (e.code == RefNull || g.code == Ref)
  {
  }

  lemma NonNullableIsBelowNullable(ts: seq<SubType>, heapCode: TypeCode, idx: nat)
    requires WfTypes(ts) && Resolved(ts, ValType(Ref, heapCode, idx))
    ensures var ref := ResolveVal(ts, ValType(Ref, heapCode, idx));
            var refNull := ResolveVal(ts, ValType(RefNull, heapCode, idx));
            ValMatches(refNull, ref) && !ValMatches(ref, refNull)
  {
    ResolvedIsKnown(ts, ValType(Ref, heapCode, idx));
    HeapMatchesReflexive(ResolveVal(ts, ValType(Ref, heapCode, idx)).heap);
  }

  /** Every value of a type that the second accepts is accepted by the first. */
  ghost predicate Accepts(e: Val, g: Val) {
    forall v: Val :: ValMatches(g, v) ==> ValMatches(e, v)
  }

  lemma AcceptsIff(e: Val, g: Val)
    requires KnownVal(g)
    ensures Accepts(e, g) <==> ValMatches(e, g)
  {
    ValMatchesReflexive(g);
    if ValMatches(e, g) {
      forall v: Val | ValMatches(g, v) ensures ValMatches(e, v) {
        ValMatchesTransitive(e, g, v);
      }
    }
  }

  /** The values, one for each type of the list, whose types match those of the list. */
  ghost predicate Fits(types: seq<Val>, vs: seq<Val>) {
    |types| == |vs| && forall k | 0 <= k < |vs| :: ValMatches(types[k], vs[k])
  }

  /** Every list of values that fits the second fits the first. */
  ghost predicate AcceptsAll(es: seq<Val>, gs: seq<Val>) {
    forall vs: seq<Val> :: Fits(gs, vs) ==> Fits(es, vs)
  }

  lemma AcceptsAllIff(es: seq<Val>, gs: seq<Val>)
    requires forall k | 0 <= k < |gs| :: KnownVal(gs[k])
    ensures AcceptsAll(es, gs) <==> ValsMatch(es, gs)
  {
    assert Fits(gs, gs) by {
      forall k | 0 <= k < |gs| ensures ValMatches(gs[k], gs[k]) { ValMatchesReflexive(gs[k]); }
    }
    if ValsMatch(es, gs) {
      forall vs: seq<Val> | Fits(gs, vs) ensures Fits(es, vs) {
        forall k | 0 <= k < |vs| ensures ValMatches(es[k], vs[k]) { ValMatchesTransitive(es[k], gs[k], vs[k]); }
      }
    }
  }

  // ----- composite types -----

  predicate AllResolved(ts: seq<SubType>, vs: seq<ValType>) {
    forall k | 0 <= k < |vs| :: Resolved(ts, vs[k])
  }

  lemma ResolvedAreKnown(ts: seq<SubType>, vs: seq<ValType>)
    requires WfTypes(ts) && AllResolved(ts, vs)
    ensures forall k | 0 <= k < |vs| :: KnownVal(ResolveVals(ts, vs)[k])
  {
    forall k | 0 <= k < |vs| ensures KnownVal(ResolveVals(ts, vs)[k]) { ResolvedIsKnown(ts, vs[k]); }
  }

  /** A function type matches exactly when a function of it can be called with every list of arguments
      that fits the expected parameters, and every list of results that it can give fits the expected
      results. */
  lemma FunctionMatchesIff(
    ts: seq<SubType>, eps: seq<ValType>, ers: seq<ValType>, gps: seq<ValType>, grs: seq<ValType>)
    requires WfTypes(ts)
    requires AllResolved(ts, eps) && AllResolved(ts, ers) && AllResolved(ts, gps) && AllResolved(ts, grs)
    ensures CompMatches(ResolveComp(ts, Func(eps, ers)), ResolveComp(ts, Func(gps, grs))) <==>
              && AcceptsAll(ResolveVals(ts, gps), ResolveVals(ts, eps))
              && AcceptsAll(ResolveVals(ts, ers), ResolveVals(ts, grs))
  {
    ResolvedAreKnown(ts, eps);
    ResolvedAreKnown(ts, grs);
    AcceptsAllIff(ResolveVals(ts, gps), ResolveVals(ts, eps));
    AcceptsAllIff(ResolveVals(ts, ers), ResolveVals(ts, grs));
  }

  /** A field can stand for the expected one: what is read from it is accepted at the expected type,
      it is mutable exactly if the expected one is, and then what may be written at the expected type
      may be written to it. */
  ghost predicate FieldServes(ts: seq<SubType>, e: FieldType, g: FieldType)
    requires WfTypes(ts)
  {
    var es, gs := ResolveVal(ts, e.storage), ResolveVal(ts, g.storage);
    && Accepts(es, gs)
    && match e.mut
       case Const => g.mut == Const
       case Var => g.mut == Var && Accepts(gs, es)
  }

  lemma FieldMatchesIff(ts: seq<SubType>, e: FieldType, g: FieldType)
    requires WfTypes(ts) && Resolved(ts, e.storage) && Resolved(ts, g.storage)
    ensures FieldMatches(ResolveField(ts, e), ResolveField(ts, g)) <==> FieldServes(ts, e, g)
  {
    ResolvedIsKnown(ts, e.storage);
    ResolvedIsKnown(ts, g.storage);
    AcceptsIff(ResolveVal(ts, e.storage), ResolveVal(ts, g.storage));
    AcceptsIff(ResolveVal(ts, g.storage), ResolveVal(ts, e.storage));
  }

  ghost predicate HasField(ts: seq<SubType>, e: FieldType, gfs: seq<FieldType>, k: nat)
    requires WfTypes(ts)
  {
    k < |gfs| && FieldServes(ts, e, gfs[k])
  }

  /** A struct type matches exactly when it has a field in the place of each expected one that can
      stand for it. */
  lemma StructMatchesIff(ts: seq<SubType>, efs: seq<FieldType>, gfs: seq<FieldType>)
    requires WfTypes(ts)
    requires forall k | 0 <= k < |efs| :: Resolved(ts, efs[k].storage)
    requires forall k | 0 <= k < |gfs| :: Resolved(ts, gfs[k].storage)
    ensures CompMatches(ResolveComp(ts, Struct(efs)), ResolveComp(ts, Struct(gfs))) <==>
              forall k | 0 <= k < |efs| :: HasField(ts, efs[k], gfs, k)
  {
    forall k | 0 <= k < |efs| && k < |gfs|
      ensures FieldMatches(ResolveFields(ts, efs)[k], ResolveFields(ts, gfs)[k]) <==> FieldServes(ts, efs[k], gfs[k])
    {
      FieldMatchesIff(ts, efs[k], gfs[k]);
    }
    if |gfs| < |efs| { assert !HasField(ts, efs[|gfs|], gfs, |gfs|); }
  }

  lemma ArrayMatchesIff(ts: seq<SubType>, e: FieldType, g: FieldType)
    requires WfTypes(ts) && Resolved(ts, e.storage) && Resolved(ts, g.storage)
    ensures CompMatches(ResolveComp(ts, Array(e)), ResolveComp(ts, Array(g))) <==> FieldServes(ts, e, g)
  {
    FieldMatchesIff(ts, e, g);
  }

  /** Composite types of different kinds do not match. */
  lemma KindsMatch(exp: seq<SubType>, e: CompositeType, got: seq<SubType>, g: CompositeType)
    requires WfTypes(exp) && WfTypes(got) && CompMatches(ResolveComp(exp, e), ResolveComp(got, g))
    ensures e.Expand() == g.Expand()
  {
  }
}
