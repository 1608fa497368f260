/** Facts about the matching relation, and the closed form that the runtime decides. */
module MatchingTheory {
  import opened WasmTypes
  import opened TypeTrees
  import opened Matching
  import opened Closure

  // ----- trees of one list -----

  /** The tree of a type knows the position, the kind and the members of its group. */
  lemma TreeShape(ts: seq<SubType>, i: nat)
    requires WfTypes(ts) && i < |ts|
    ensures var t, s := Tree(ts, i), Start(ts, i);
            && t.pos < |t.group|
            && t.group == RollGroup(ts, s, GroupSize(ts[i]))
            && t.group[t.pos] == RollSub(ts, s, GroupSize(ts[i]), i)
            && Kind(t) == ts[i].comp.Expand()
  {
  }

  /** Unfolding a rolled reference gives the tree of the type referred to. */
  lemma UnfoldRef(ts: seq<SubType>, start: nat, size: nat, idx: nat)
    requires WfTypes(ts) && IsGroup(ts, start, size) && idx < start + size
    ensures idx < |ts|
    ensures Unfold(RollGroup(ts, start, size), RollRef(ts, start, size, idx)) == Tree(ts, idx)
  {
    if start <= idx {
      assert GroupOffset(ts[idx]) == idx - start && GroupSize(ts[idx]) == size;
    }
  }

  lemma UnfoldRefs(ts: seq<SubType>, i: nat, k: nat)
    requires WfTypes(ts) && i < |ts| && k < |ts[i].supers|
    ensures ts[i].supers[k] < |ts|
    ensures var t := Tree(ts, i);
            && t.pos < |t.group| && k < |t.group[t.pos].supers|
            && Unfold(t.group, t.group[t.pos].supers[k]) == Tree(ts, ts[i].supers[k])
  {
    TreeShape(ts, i);
    var start, size := Start(ts, i), GroupSize(ts[i]);
    assert WfAt(ts, i);
    UnfoldRef(ts, start, size, ts[i].supers[k]);
  }

  /** The supertypes of a tree are the trees of the declared supertypes. */
  lemma DefStepIff(ts: seq<SubType>, i: nat, u: DefTree)
    requires WfTypes(ts) && i < |ts|
    ensures forall k | 0 <= k < |ts[i].supers| :: ts[i].supers[k] < |ts|
    ensures DefStep(Tree(ts, i), u) <==> exists k | 0 <= k < |ts[i].supers| :: Tree(ts, ts[i].supers[k]) == u
  {
    TreeShape(ts, i);
    assert WfAt(ts, i);
    var t, supers := Tree(ts, i), ts[i].supers;
    forall k | 0 <= k < |supers|
      ensures Unfold(t.group, t.group[t.pos].supers[k]) == Tree(ts, supers[k])
    {
      UnfoldRefs(ts, i, k);
    }
  }

  // ----- the order of defined types -----

  /** Matching unfolds once along the declared supertypes of the got type. */
  lemma DefMatchesUnfold(exp: DefTree, ts: seq<SubType>, got: nat)
    requires WfTypes(ts) && got < |ts|
    ensures forall k | 0 <= k < |ts[got].supers| :: ts[got].supers[k] < |ts|
    ensures DefMatches(exp, Tree(ts, got)) <==>
            || exp == Tree(ts, got)
            || exists k | 0 <= k < |ts[got].supers| :: DefMatches(exp, Tree(ts, ts[got].supers[k]))
  {
    var t, supers := Tree(ts, got), ts[got].supers;
    DefStepIff(ts, got, t);
    StarReflexive(DefStep, t);
    if k :| 0 <= k < |supers| && DefMatches(exp, Tree(ts, supers[k])) {
      DefStepIff(ts, got, Tree(ts, supers[k]));
      StarStep(DefStep, t, Tree(ts, supers[k]), exp);
    }
    if DefMatches(exp, t) && exp != t {
      var mid := StarUnfold(DefStep, t, exp);
      DefStepIff(ts, got, mid);
    }
  }

  /** A step from a type of the list leads to a declared supertype: a type of the list, of the same
      kind and of lower rank. */
  lemma StepInList(ts: seq<SubType>, i: nat, to: DefTree) returns (k: nat)
    requires WfTypes(ts) && i < |ts| && DefStep(Tree(ts, i), to)
    ensures k < |ts[i].supers| && ts[i].supers[k] < |ts| && Tree(ts, ts[i].supers[k]) == to
    ensures ts[ts[i].supers[k]].comp.Expand() == ts[i].comp.Expand()
    ensures Rank(ts)[ts[i].supers[k]] < Rank(ts)[i]
  {
    DefStepIff(ts, i, to);
    k :| 0 <= k < |ts[i].supers| && Tree(ts, ts[i].supers[k]) == to;
    assert WfAt(ts, i) && RankFallsAt(ts, Rank(ts), i);
  }

  lemma {:induction false} StepsInList(n: nat, ts: seq<SubType>, i: nat, to: DefTree) returns (j: nat)
    requires WfTypes(ts) && i < |ts| && Reaches(DefStep, n, Tree(ts, i), to)
    ensures j < |ts| && Tree(ts, j) == to && ts[j].comp.Expand() == ts[i].comp.Expand()
    ensures if n == 0 then j == i else Rank(ts)[j] < Rank(ts)[i]
  {
    if n == 0 {
      return i;
    }
    var mid :| DefStep(Tree(ts, i), mid) && Reaches(DefStep, n - 1, mid, to);
    var k := StepInList(ts, i, mid);
    j := StepsInList(n - 1, ts, ts[i].supers[k], to);
  }

  /** The defined types of a well-formed list are known heap types. */
  lemma TreeKnown(ts: seq<SubType>, i: nat)
    requires WfTypes(ts) && i < |ts|
    ensures WellKinded(Tree(ts, i))
  {
    TreeShape(ts, i);
    forall u | DefMatches(u, Tree(ts, i)) ensures Kind(u) == Kind(Tree(ts, i)) {
      var n: nat :| Reaches(DefStep, n, Tree(ts, i), u);
      var j := StepsInList(n, ts, i, u);
      TreeShape(ts, j);
    }
  }

  /** No type is a proper ancestor of itself, although other types of the list may have its tree. */
  lemma {:induction false} NoCycle(n: nat, ts: seq<SubType>, i: nat)
    requires WfTypes(ts) && i < |ts| && Reaches(DefStep, n, Tree(ts, i), Tree(ts, i))
    ensures n == 0
    decreases Rank(ts)[i]
  {
    if n > 0 {
      var j := StepsInList(n, ts, i, Tree(ts, i));
      NoCycle(n, ts, j);
    }
  }

  lemma DefMatchesAntisymmetric(ts: seq<SubType>, i: nat, u: DefTree)
    requires WfTypes(ts) && i < |ts|
    requires DefMatches(Tree(ts, i), u) && DefMatches(u, Tree(ts, i))
    ensures u == Tree(ts, i)
  {
    var t := Tree(ts, i);
    var m: nat :| Reaches(DefStep, m, t, u);
    var n: nat :| Reaches(DefStep, n, u, t);
    ReachesAdds(DefStep, m, n, t, u, t);
    NoCycle(m + n, ts, i);
  }

  // ----- the closed form for heap types -----

  /** `matchTypeCode`: matching of two abstract heap types. */
  predicate MatchTypeCode(exp: TypeCode, got: TypeCode) {
    if exp == got then true
    else if exp == FuncRef || exp == NullFuncRef then got == NullFuncRef
    else if got == FuncRef || got == NullFuncRef then false
    else if exp == ExternRef || exp == NullExternRef then got == NullExternRef
    else if got == ExternRef || got == NullExternRef then false
    else if exp == ExnRef || exp == NullExnRef then got == NullExnRef
    else if got == ExnRef || got == NullExnRef then false
    else match exp
      case I31Ref | StructRef | ArrayRef => got == NullRef
      case EqRef => got != AnyRef
      case AnyRef => true
      case _ => false
  }

  /** The decision taken on heap types, by the cases of the value-type matcher. */
  ghost predicate Decides(exp: Heap, got: Heap) {
    && Known(exp) && Known(got)
    && match (exp, got)
       case (Abs(e), Abs(g)) => MatchTypeCode(e, g)
       case (Abs(e), Def(g)) => MatchTypeCode(e, Kind(g))
       case (Def(e), Abs(NullRef)) => MatchTypeCode(AnyRef, Kind(e))
       case (Def(e), Abs(NullFuncRef)) => MatchTypeCode(FuncRef, Kind(e))
       case (Def(e), Abs(NullExternRef)) => MatchTypeCode(ExternRef, Kind(e))
       case (Def(e), Def(g)) => DefMatches(e, g)
       case _ => false
  }

  lemma HeapMatchesReflexive(h: Heap)
    requires Known(h)
    ensures HeapMatches(h, h)
  {
    StarReflexive(HeapStep, h);
  }

  lemma HeapMatchesTransitive(a: Heap, b: Heap, c: Heap)
    requires HeapMatches(a, b) && HeapMatches(b, c)
    ensures HeapMatches(a, c)
  {
    StarTransitive(HeapStep, c, b, a);
  }

  lemma HeapStepMatches(sub: Heap, sup: Heap)
    requires HeapStep(sub, sup)
    ensures HeapMatches(sup, sub)
  {
    StarReflexive(HeapStep, sup);
    StarStep(HeapStep, sub, sup, sup);
  }

  lemma StepKnown(sub: DefTree, sup: DefTree)
    requires WellKinded(sub) && DefMatches(sup, sub)
    ensures WellKinded(sup) && Kind(sup) == Kind(sub)
  {
    forall u | DefMatches(u, sup) ensures Kind(u) == Kind(sub) {
      StarTransitive(DefStep, sub, sup, u);
      assert DefMatches(u, sub);
    }
  }

  /** Completeness of the closed form, one step at a time. */
  lemma DecidesStep(exp: Heap, sub: Heap, got: Heap)
    requires Decides(sub, got) && HeapStep(sub, exp)
    ensures Decides(exp, got)
  {
    if sub.Def? && exp.Def? {
      DecidesDefStep(exp.t, sub.t, got);
    } else if sub.Def? {
      DecidesKindStep(sub.t, got);
    } else if sub == Abs(Bottom(Top(exp))) {
      BelowBottom(Top(exp), got);
      BottomDecides(exp);
    }
  }

  lemma DecidesDefStep(exp: DefTree, sub: DefTree, got: Heap)
    requires Decides(Def(sub), got) && DefStep(sub, exp)
    ensures Decides(Def(exp), got)
  {
    StarReflexive(DefStep, exp);
    StarStep(DefStep, sub, exp, exp);
    StepKnown(sub, exp);
    if got.Def? {
      StarTransitive(DefStep, got.t, sub, exp);
    }
  }

  lemma DecidesKindStep(sub: DefTree, got: Heap)
    requires Decides(Def(sub), got)
    ensures Decides(Abs(Kind(sub)), got)
  {
    if got.Def? {
      assert Kind(sub) == Kind(got.t);
    }
  }

  /** Only a bottom type matches a bottom type. */
  lemma BelowBottom(top: TypeCode, got: Heap)
    requires top in {FuncRef, ExternRef, ExnRef, AnyRef} && Decides(Abs(Bottom(top)), got)
    ensures got == Abs(Bottom(top))
  {
  }

  lemma BottomDecides(exp: Heap)
    requires Known(exp)
    ensures Decides(exp, Abs(Bottom(Top(exp))))
  {
    if exp.Abs? {
      assert MatchTypeCode(exp.code, Bottom(Top(exp)));
    } else {
      assert Top(exp) == if Kind(exp.t) == FuncRef then FuncRef else AnyRef;
    }
  }

  lemma StarDecides(got: Heap, exp: Heap)
    requires Known(got) && Star(HeapStep, got, exp)
    ensures Decides(exp, got)
  {
    if got.Def? { StarReflexive(DefStep, got.t); }
    forall x, y | Decides(x, got) && HeapStep(x, y) ensures Decides(y, got) {
      DecidesStep(y, x, got);
    }
    StarKeeps(HeapStep, h => Decides(h, got), got, exp);
  }

  /** Soundness on defined types: the steps between them are steps between heap types. */
  lemma {:induction false} ReachesLifts(n: nat, got: DefTree, exp: DefTree)
    requires WellKinded(got) && Reaches(DefStep, n, got, exp)
    ensures HeapMatches(Def(exp), Def(got))
  {
    if n == 0 {
      HeapMatchesReflexive(Def(got));
    } else {
      var mid :| DefStep(got, mid) && Reaches(DefStep, n - 1, mid, exp);
      StepLifts(got, mid);
      ReachesLifts(n - 1, mid, exp);
      HeapMatchesTransitive(Def(exp), Def(mid), Def(got));
    }
  }

  lemma StepLifts(got: DefTree, mid: DefTree)
    requires WellKinded(got) && DefStep(got, mid)
    ensures WellKinded(mid) && HeapMatches(Def(mid), Def(got))
  {
    StarReflexive(DefStep, mid);
    StarStep(DefStep, got, mid, mid);
    StepKnown(got, mid);
    HeapStepMatches(Def(got), Def(mid));
  }

  lemma AbsMatches(exp: TypeCode, got: TypeCode)
    requires IsAbsHeapCode(exp) && IsAbsHeapCode(got) && MatchTypeCode(exp, got)
    ensures HeapMatches(Abs(exp), Abs(got))
  {
    if exp == got {
      HeapMatchesReflexive(Abs(exp));
    } else if got == Bottom(Top(Abs(exp))) || exp == EqRef || got == EqRef {
      HeapStepMatches(Abs(got), Abs(exp));
    } else {
      HeapStepMatches(Abs(got), Abs(EqRef));
      HeapStepMatches(Abs(EqRef), Abs(AnyRef));
      HeapMatchesTransitive(Abs(AnyRef), Abs(EqRef), Abs(got));
    }
  }

  /** The closed form decides the closure of the rules, both ways. */
  lemma HeapMatchesIff(exp: Heap, got: Heap)
    ensures HeapMatches(exp, got) <==> Decides(exp, got)
  {
    if HeapMatches(exp, got) {
      StarDecides(got, exp);
    }
    if Decides(exp, got) {
      match (exp, got) {
        case (Abs(e), Abs(g)) =>
          AbsMatches(e, g);
        case (Abs(e), Def(g)) =>
          AbsMatches(e, Kind(g));
          HeapStepMatches(got, Abs(Kind(g)));
          HeapMatchesTransitive(exp, Abs(Kind(g)), got);
        case (Def(e), Abs(g)) =>
          HeapStepMatches(got, exp);
        case (Def(e), Def(g)) =>
          var n: nat :| Reaches(DefStep, n, g, e);
          ReachesLifts(n, g, e);
      }
    }
  }

  /** Two heap types that match each other are equal, up to the order of defined types. */
  lemma DecidesBothWays(a: Heap, b: Heap)
    requires Decides(a, b) && Decides(b, a)
    ensures a == b || (a.Def? && b.Def? && DefMatches(a.t, b.t) && DefMatches(b.t, a.t))
  {
  }

  // ----- value and composite types -----

  /** No type index of the value type dangles. */
  ghost predicate KnownVal(v: Val) {
    v.RefTo? ==> Known(v.heap)
  }

  ghost predicate KnownComp(c: Comp) {
    match c
    case FuncComp(ps, rs) =>
      && (forall k | 0 <= k < |ps| :: KnownVal(ps[k]))
      && (forall k | 0 <= k < |rs| :: KnownVal(rs[k]))
    case StructComp(fs) => forall k | 0 <= k < |fs| :: KnownVal(fs[k].storage)
    case ArrayComp(f) => KnownVal(f.storage)
  }

  lemma ValMatchesReflexive(v: Val)
    requires KnownVal(v)
    ensures ValMatches(v, v)
  {
    if v.RefTo? { HeapMatchesReflexive(v.heap); }
  }

  lemma ValMatchesTransitive(a: Val, b: Val, c: Val)
    requires ValMatches(a, b) && ValMatches(b, c)
    ensures ValMatches(a, c)
  {
    if a.RefTo? { HeapMatchesTransitive(a.heap, b.heap, c.heap); }
  }

  lemma FieldMatchesReflexive(f: Field)
    requires KnownVal(f.storage)
    ensures FieldMatches(f, f)
  {
    ValMatchesReflexive(f.storage);
  }

  lemma FieldMatchesTransitive(a: Field, b: Field, c: Field)
    requires FieldMatches(a, b) && FieldMatches(b, c)
    ensures FieldMatches(a, c)
  {
    ValMatchesTransitive(a.storage, b.storage, c.storage);
    if a.mut.Var? { ValMatchesTransitive(c.storage, b.storage, a.storage); }
  }

  lemma ValsMatchTransitive(a: seq<Val>, b: seq<Val>, c: seq<Val>)
    requires ValsMatch(a, b) && ValsMatch(b, c)
    ensures ValsMatch(a, c)
  {
    forall k | 0 <= k < |a| ensures ValMatches(a[k], c[k]) {
      ValMatchesTransitive(a[k], b[k], c[k]);
    }
  }

  lemma CompMatchesReflexive(c: Comp)
    requires KnownComp(c)
    ensures CompMatches(c, c)
  {
    match c {
      case FuncComp(ps, rs) =>
        forall k | 0 <= k < |ps| ensures ValMatches(ps[k], ps[k]) { ValMatchesReflexive(ps[k]); }
        forall k | 0 <= k < |rs| ensures ValMatches(rs[k], rs[k]) { ValMatchesReflexive(rs[k]); }
      case StructComp(fs) =>
        forall k | 0 <= k < |fs| ensures FieldMatches(fs[k], fs[k]) { FieldMatchesReflexive(fs[k]); }
      case ArrayComp(f) =>
        FieldMatchesReflexive(f);
    }
  }

  lemma CompMatchesTransitive(a: Comp, b: Comp, c: Comp)
    requires CompMatches(a, b) && CompMatches(b, c)
    ensures CompMatches(a, c)
  {
    match a {
      case FuncComp(_, _) =>
        ValsMatchTransitive(c.params, b.params, a.params);
        ValsMatchTransitive(a.results, b.results, c.results);
      case StructComp(fs) =>
        forall k | 0 <= k < |fs| ensures FieldMatches(fs[k], c.fields[k]) {
          FieldMatchesTransitive(fs[k], b.fields[k], c.fields[k]);
        }
      case ArrayComp(_) =>
        FieldMatchesTransitive(a.field, b.field, c.field);
    }
  }
}
