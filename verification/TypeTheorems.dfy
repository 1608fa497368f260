/** What defined-type matching guarantees about whole type sections, across modules. */
module TypeTheorems {
  import opened Options
  import opened WasmTypes
  import opened TypeTrees
  import opened Closure
  import opened Matching
  import opened MatchingTheory

  // ----- the composite type of a tree -----

  function UnrollVal(group: seq<RolledSub>, v: RolledVal): Val {
    if !v.code.Ref? && !v.code.RefNull? then Num(v.code)
    else RefTo(
      v.code.RefNull?,
      match v.heap
      case RolledAbs(c) => Abs(c)
      case RolledDef(r) => Def(Unfold(group, r)))
  }

  function UnrollVals(group: seq<RolledSub>, vs: seq<RolledVal>): seq<Val> {
    seq(|vs|, k requires 0 <= k < |vs| => UnrollVal(group, vs[k]))
  }

  function UnrollField(group: seq<RolledSub>, f: RolledField): Field {
    Field(UnrollVal(group, f.storage), f.mut)
  }

  function UnrollFields(group: seq<RolledSub>, fs: seq<RolledField>): seq<Field> {
    seq(|fs|, k requires 0 <= k < |fs| => UnrollField(group, fs[k]))
  }

  function UnrollComp(group: seq<RolledSub>, c: RolledComp): Comp {
    match c
    case RolledFunc(ps, rs) => FuncComp(UnrollVals(group, ps), UnrollVals(group, rs))
    case RolledStruct(fs) => StructComp(UnrollFields(group, fs))
    case RolledArray(f) => ArrayComp(UnrollField(group, f))
  }

  lemma UnrollsToResolvedVal(ts: seq<SubType>, start: nat, size: nat, v: ValType)
    requires WfTypes(ts) && IsGroup(ts, start, size) && ValBelow(v, start + size)
    ensures UnrollVal(RollGroup(ts, start, size), RollVal(ts, start, size, v)) == ResolveVal(ts, v)
  {
    if v.heapCode.TypeIndex? {
      UnfoldRef(ts, start, size, v.idx);
    }
  }

  lemma UnrollsToResolvedVals(ts: seq<SubType>, start: nat, size: nat, vs: seq<ValType>)
    requires WfTypes(ts) && IsGroup(ts, start, size) && ValsBelow(vs, start + size)
    ensures UnrollVals(RollGroup(ts, start, size), RollVals(ts, start, size, vs)) == ResolveVals(ts, vs)
  {
    forall k | 0 <= k < |vs|
      ensures UnrollVal(RollGroup(ts, start, size), RollVal(ts, start, size, vs[k])) == ResolveVal(ts, vs[k])
    {
      UnrollsToResolvedVal(ts, start, size, vs[k]);
    }
  }

  lemma UnrollsToResolvedFields(ts: seq<SubType>, start: nat, size: nat, fs: seq<FieldType>)
    requires WfTypes(ts) && IsGroup(ts, start, size) && FieldsBelow(fs, start + size)
    ensures UnrollFields(RollGroup(ts, start, size), RollFields(ts, start, size, fs)) == ResolveFields(ts, fs)
  {
    var group := RollGroup(ts, start, size);
    forall k | 0 <= k < |fs|
      ensures UnrollVal(group, RollVal(ts, start, size, fs[k].storage)) == ResolveVal(ts, fs[k].storage)
    {
      UnrollsToResolvedVal(ts, start, size, fs[k].storage);
    }
  }

  /** The composite type is determined by the tree. */
  lemma TreeDeterminesComp(ts: seq<SubType>, i: nat)
    requires WfTypes(ts) && i < |ts|
    ensures var t := Tree(ts, i);
            t.pos < |t.group| && UnrollComp(t.group, t.group[t.pos].comp) == ResolveComp(ts, ts[i].comp)
  {
    TreeShape(ts, i);
    assert WfAt(ts, i);
    var start, size := Start(ts, i), GroupSize(ts[i]);
    match ts[i].comp {
      case Func(ps, rs) =>
        UnrollsToResolvedVals(ts, start, size, ps);
        UnrollsToResolvedVals(ts, start, size, rs);
      case Struct(fs) =>
        UnrollsToResolvedFields(ts, start, size, fs);
      case Array(f) =>
        UnrollsToResolvedVal(ts, start, size, f.storage);
    }
  }

  // ----- validated type sections -----

  /** The checks of the validator on the declared supertypes of the type at `i`. */
  ghost predicate SupersChecked(ts: seq<SubType>, i: nat)
    requires WfTypes(ts) && i < |ts|
  {
    forall k | 0 <= k < |ts[i].supers| ::
      && ts[i].supers[k] < |ts|
      && !ts[ts[i].supers[k]].isFinal
      && CompMatches(ResolveComp(ts, ts[ts[i].supers[k]].comp), ResolveComp(ts, ts[i].comp))
  }

  ghost predicate Validated(ts: seq<SubType>) {
    WfTypes(ts) && forall i | 0 <= i < |ts| :: SupersChecked(ts, i)
  }

  /** A validated section in which a supertype stands after its subtype, in one recursion group. */
  lemma SupertypeMayFollow()
    ensures var sub := SubType(false, [1], Struct([]), Some(RecInfo(0, 2)));
            var base := SubType(false, [], Struct([]), Some(RecInfo(1, 2)));
            Validated([sub, base])
  {
    var sub := SubType(false, [1], Struct([]), Some(RecInfo(0, 2)));
    var base := SubType(false, [], Struct([]), Some(RecInfo(1, 2)));
    var ts := [sub, base];
    assert IsGroup(ts, 0, 2);
    assert WfAt(ts, 0) && WfAt(ts, 1);
    assert RankFallsAt(ts, [1, 0], 0) && RankFallsAt(ts, [1, 0], 1);
    assert Ranked(ts, [1, 0]);
    CompKnown(ts, 0);
    CompMatchesReflexive(ResolveComp(ts, sub.comp));
    assert SupersChecked(ts, 0) && SupersChecked(ts, 1);
  }

  /** Types of a well-formed list refer only to known types. */
  lemma CompKnown(ts: seq<SubType>, i: nat)
    requires WfTypes(ts) && i < |ts|
    ensures KnownComp(ResolveComp(ts, ts[i].comp))
  {
    assert WfAt(ts, i);
    var end := Start(ts, i) + GroupSize(ts[i]);
    forall v: ValType | ValBelow(v, end) ensures KnownVal(ResolveVal(ts, v)) {
      if v.heapCode.TypeIndex? { TreeKnown(ts, v.idx); }
    }
  }

  lemma {:induction false} AncestorsMatch(n: nat, ts: seq<SubType>, j: nat, to: DefTree) returns (a: nat)
    requires Validated(ts) && j < |ts| && Reaches(DefStep, n, Tree(ts, j), to)
    ensures a < |ts| && Tree(ts, a) == to
    ensures CompMatches(ResolveComp(ts, ts[a].comp), ResolveComp(ts, ts[j].comp))
    ensures n > 0 ==> !ts[a].isFinal
    ensures n == 0 ==> a == j
  {
    if n == 0 {
      CompKnown(ts, j);
      CompMatchesReflexive(ResolveComp(ts, ts[j].comp));
      return j;
    }
    var mid :| DefStep(Tree(ts, j), mid) && Reaches(DefStep, n - 1, mid, to);
    var k := StepInList(ts, j, mid);
    var s := ts[j].supers[k];
    assert SupersChecked(ts, j);
    a := AncestorsMatch(n - 1, ts, s, to);
    CompMatchesTransitive(ResolveComp(ts, ts[a].comp), ResolveComp(ts, ts[s].comp), ResolveComp(ts, ts[j].comp));
  }

  /** Nominal matching implies structural matching across two modules: a value of the got type can
      be used at the expected type. */
  lemma DefMatchingIsSound(exp: seq<SubType>, i: nat, got: seq<SubType>, j: nat)
    requires WfTypes(exp) && i < |exp| && Validated(got) && j < |got|
    requires DefMatches(Tree(exp, i), Tree(got, j))
    ensures CompMatches(ResolveComp(exp, exp[i].comp), ResolveComp(got, got[j].comp))
  {
    var n: nat :| Reaches(DefStep, n, Tree(got, j), Tree(exp, i));
    var a := AncestorsMatch(n, got, j, Tree(exp, i));
    TreeDeterminesComp(exp, i);
    TreeDeterminesComp(got, a);
  }

  /** Only a final type itself matches a final type. */
  lemma FinalHasNoProperSubtype(exp: seq<SubType>, i: nat, got: seq<SubType>, j: nat)
    requires WfTypes(exp) && i < |exp| && exp[i].isFinal && Validated(got) && j < |got|
    ensures DefMatches(Tree(exp, i), Tree(got, j)) <==> Tree(exp, i) == Tree(got, j)
  {
    if Tree(exp, i) == Tree(got, j) {
      StarReflexive(DefStep, Tree(got, j));
    }
    if DefMatches(Tree(exp, i), Tree(got, j)) {
      var n: nat :| Reaches(DefStep, n, Tree(got, j), Tree(exp, i));
      var a := AncestorsMatch(n, got, j, Tree(exp, i));
      TreeShape(exp, i);
      TreeShape(got, a);
    }
  }

  // ----- an order across modules -----

  lemma DefMatchingIsTransitive(a: seq<SubType>, i: nat, b: seq<SubType>, j: nat, c: seq<SubType>, k: nat)
    requires WfTypes(a) && WfTypes(b) && WfTypes(c) && i < |a| && j < |b| && k < |c|
    requires DefMatches(Tree(a, i), Tree(b, j)) && DefMatches(Tree(b, j), Tree(c, k))
    ensures DefMatches(Tree(a, i), Tree(c, k))
  {
    StarTransitive(DefStep, Tree(c, k), Tree(b, j), Tree(a, i));
  }

  /** Value types of two modules that match each other are the same type. */
  lemma ValMatchingIsAntisymmetric(a: seq<SubType>, v: ValType, b: seq<SubType>, w: ValType)
    requires WfTypes(a) && WfTypes(b) && v.Valid() && w.Valid()
    requires ValMatches(ResolveVal(a, v), ResolveVal(b, w)) && ValMatches(ResolveVal(b, w), ResolveVal(a, v))
    ensures ResolveVal(a, v) == ResolveVal(b, w)
  {
    if v.IsRefType() {
      var h, g := ResolveVal(a, v).heap, ResolveVal(b, w).heap;
      HeapMatchesIff(h, g);
      HeapMatchesIff(g, h);
      DecidesBothWays(h, g);
      if h != g {
        DefMatchesAntisymmetric(a, v.idx, g.t);
      }
    }
  }

  /** The top of a hierarchy is the abstract type that all of its members match. */
  lemma TopMatches(h: Heap, top: TypeCode)
    requires Known(h) && top in {FuncRef, ExternRef, ExnRef, AnyRef}
    ensures HeapMatches(Abs(top), h) <==> Top(h) == top
  {
    HeapMatchesIff(Abs(top), h);
  }
}
