/** Equality of defined types on the declarations themselves: two types are equal exactly when their
    recursion groups are declared alike. */
module TypeEquality {
  import opened WasmTypes
  import opened TypeTrees
  import opened MatchingTheory

  /** Two type indices, seen from two recursion groups: both inside at one offset, or both outside
      and of equal types. */
  ghost predicate SameRef(l: seq<SubType>, ls: nat, r: seq<SubType>, rs: nat, size: nat, i: nat, j: nat)
    requires WfTypes(l) && WfTypes(r) && IsGroup(l, ls, size) && IsGroup(r, rs, size)
    requires i < ls + size && j < rs + size
  {
    || (ls <= i && rs <= j && i - ls == j - rs)
    || (i < ls && j < rs && Tree(l, i) == Tree(r, j))
  }

  ghost predicate SameVal(l: seq<SubType>, ls: nat, r: seq<SubType>, rs: nat, size: nat, v: ValType, w: ValType)
    requires WfTypes(l) && WfTypes(r) && IsGroup(l, ls, size) && IsGroup(r, rs, size)
    requires ValBelow(v, ls + size) && ValBelow(w, rs + size)
  {
    && v.code == w.code && v.heapCode == w.heapCode
    && (v.heapCode.TypeIndex? ==> SameRef(l, ls, r, rs, size, v.idx, w.idx))
  }

  ghost predicate SameVals(
    l: seq<SubType>, ls: nat, r: seq<SubType>, rs: nat, size: nat, vs: seq<ValType>, ws: seq<ValType>)
    requires WfTypes(l) && WfTypes(r) && IsGroup(l, ls, size) && IsGroup(r, rs, size)
    requires ValsBelow(vs, ls + size) && ValsBelow(ws, rs + size)
  {
    |vs| == |ws| && forall k | 0 <= k < |vs| :: SameVal(l, ls, r, rs, size, vs[k], ws[k])
  }

  ghost predicate SameFields(
    l: seq<SubType>, ls: nat, r: seq<SubType>, rs: nat, size: nat, fs: seq<FieldType>, gs: seq<FieldType>)
    requires WfTypes(l) && WfTypes(r) && IsGroup(l, ls, size) && IsGroup(r, rs, size)
    requires FieldsBelow(fs, ls + size) && FieldsBelow(gs, rs + size)
  {
    && |fs| == |gs|
    && forall k | 0 <= k < |fs| ::
         fs[k].mut == gs[k].mut && SameVal(l, ls, r, rs, size, fs[k].storage, gs[k].storage)
  }

  ghost predicate SameComp(
    l: seq<SubType>, ls: nat, r: seq<SubType>, rs: nat, size: nat, c: CompositeType, d: CompositeType)
    requires WfTypes(l) && WfTypes(r) && IsGroup(l, ls, size) && IsGroup(r, rs, size)
    requires CompBelow(c, ls + size) && CompBelow(d, rs + size)
  {
    match (c, d)
    case (Func(ps, qs), Func(ps', qs')) =>
      SameVals(l, ls, r, rs, size, ps, ps') && SameVals(l, ls, r, rs, size, qs, qs')
    case (Struct(fs), Struct(gs)) => SameFields(l, ls, r, rs, size, fs, gs)
    case (Array(f), Array(g)) => SameFields(l, ls, r, rs, size, [f], [g])
    case _ => false
  }

  /** The k-th members of two groups are declared alike. */
  ghost predicate SameMember(l: seq<SubType>, ls: nat, r: seq<SubType>, rs: nat, size: nat, k: nat)
    requires WfTypes(l) && WfTypes(r) && IsGroup(l, ls, size) && IsGroup(r, rs, size) && k < size
  {
    assert WfAt(l, ls + k) && WfAt(r, rs + k);
    var a, b := l[ls + k], r[rs + k];
    && a.isFinal == b.isFinal
    && |a.supers| == |b.supers|
    && (forall j | 0 <= j < |a.supers| :: SameRef(l, ls, r, rs, size, a.supers[j], b.supers[j]))
    && SameComp(l, ls, r, rs, size, a.comp, b.comp)
  }

  /** The two types stand at one offset of groups of one size, all of whose members are declared alike. */
  ghost predicate SameDeclaration(l: seq<SubType>, i: nat, r: seq<SubType>, j: nat)
    requires WfTypes(l) && WfTypes(r) && i < |l| && j < |r|
  {
    && GroupSize(l[i]) == GroupSize(r[j]) && GroupOffset(l[i]) == GroupOffset(r[j])
    && forall k | 0 <= k < GroupSize(l[i]) ::
         SameMember(l, Start(l, i), r, Start(r, j), GroupSize(l[i]), k)
  }

  lemma ValEqualIff(l: seq<SubType>, ls: nat, r: seq<SubType>, rs: nat, size: nat, v: ValType, w: ValType)
    requires WfTypes(l) && WfTypes(r) && IsGroup(l, ls, size) && IsGroup(r, rs, size)
    requires ValBelow(v, ls + size) && ValBelow(w, rs + size)
    ensures RollVal(l, ls, size, v) == RollVal(r, rs, size, w) <==> SameVal(l, ls, r, rs, size, v, w)
  {
  }

  lemma ValsEqualIff(
    l: seq<SubType>, ls: nat, r: seq<SubType>, rs: nat, size: nat, vs: seq<ValType>, ws: seq<ValType>)
    requires WfTypes(l) && WfTypes(r) && IsGroup(l, ls, size) && IsGroup(r, rs, size)
    requires ValsBelow(vs, ls + size) && ValsBelow(ws, rs + size)
    ensures RollVals(l, ls, size, vs) == RollVals(r, rs, size, ws) <==> SameVals(l, ls, r, rs, size, vs, ws)
  {
    var a, b := RollVals(l, ls, size, vs), RollVals(r, rs, size, ws);
    if |vs| == |ws| {
      forall k | 0 <= k < |vs| ensures a[k] == b[k] <==> SameVal(l, ls, r, rs, size, vs[k], ws[k]) {
        ValEqualIff(l, ls, r, rs, size, vs[k], ws[k]);
      }
    } else {
      assert |a| != |b|;
    }
  }

  lemma FieldsEqualIff(
    l: seq<SubType>, ls: nat, r: seq<SubType>, rs: nat, size: nat, fs: seq<FieldType>, gs: seq<FieldType>)
    requires WfTypes(l) && WfTypes(r) && IsGroup(l, ls, size) && IsGroup(r, rs, size)
    requires FieldsBelow(fs, ls + size) && FieldsBelow(gs, rs + size)
    ensures RollFields(l, ls, size, fs) == RollFields(r, rs, size, gs) <==> SameFields(l, ls, r, rs, size, fs, gs)
  {
    var a, b := RollFields(l, ls, size, fs), RollFields(r, rs, size, gs);
    if |fs| == |gs| {
      forall k | 0 <= k < |fs|
        ensures a[k] == b[k] <==>
                fs[k].mut == gs[k].mut && SameVal(l, ls, r, rs, size, fs[k].storage, gs[k].storage)
      {
        ValEqualIff(l, ls, r, rs, size, fs[k].storage, gs[k].storage);
      }
    } else {
      assert |a| != |b|;
    }
  }

  lemma CompEqualIff(
    l: seq<SubType>, ls: nat, r: seq<SubType>, rs: nat, size: nat, c: CompositeType, d: CompositeType)
    requires WfTypes(l) && WfTypes(r) && IsGroup(l, ls, size) && IsGroup(r, rs, size)
    requires CompBelow(c, ls + size) && CompBelow(d, rs + size)
    ensures RollComp(l, ls, size, c) == RollComp(r, rs, size, d) <==> SameComp(l, ls, r, rs, size, c, d)
  {
    match (c, d) {
      case (Func(ps, qs), Func(ps', qs')) =>
        ValsEqualIff(l, ls, r, rs, size, ps, ps');
        ValsEqualIff(l, ls, r, rs, size, qs, qs');
      case (Struct(fs), Struct(gs)) =>
        FieldsEqualIff(l, ls, r, rs, size, fs, gs);
      case (Array(f), Array(g)) =>
        ArrayEqualIff(l, ls, r, rs, size, f, g);
      case _ =>
    }
  }

  lemma ArrayEqualIff(l: seq<SubType>, ls: nat, r: seq<SubType>, rs: nat, size: nat, f: FieldType, g: FieldType)
    requires WfTypes(l) && WfTypes(r) && IsGroup(l, ls, size) && IsGroup(r, rs, size)
    requires ValBelow(f.storage, ls + size) && ValBelow(g.storage, rs + size)
    ensures RollComp(l, ls, size, Array(f)) == RollComp(r, rs, size, Array(g))
            <==> SameFields(l, ls, r, rs, size, [f], [g])
  {
    var fs, gs := [f], [g];
    ValEqualIff(l, ls, r, rs, size, f.storage, g.storage);
    assert fs[0] == f && gs[0] == g;
  }

  lemma RollSubIs(ts: seq<SubType>, start: nat, size: nat, i: nat)
    requires WfTypes(ts) && IsGroup(ts, start, size) && start <= i < start + size
    ensures SubBelow(ts[i], start + size)
    ensures RollSub(ts, start, size, i)
         == RolledSub(
              ts[i].isFinal, RollRefs(ts, start, size, ts[i].supers), RollComp(ts, start, size, ts[i].comp))
  {
    assert WfAt(ts, i);
  }

  lemma MemberEqualIff(l: seq<SubType>, ls: nat, r: seq<SubType>, rs: nat, size: nat, k: nat)
    requires WfTypes(l) && WfTypes(r) && IsGroup(l, ls, size) && IsGroup(r, rs, size) && k < size
    ensures RollSub(l, ls, size, ls + k) == RollSub(r, rs, size, rs + k) <==> SameMember(l, ls, r, rs, size, k)
  {
    RollSubIs(l, ls, size, ls + k);
    RollSubIs(r, rs, size, rs + k);
    CompEqualIff(l, ls, r, rs, size, l[ls + k].comp, r[rs + k].comp);
    RefsEqualIff(l, ls, r, rs, size, l[ls + k].supers, r[rs + k].supers);
  }

  lemma RefsEqualIff(l: seq<SubType>, ls: nat, r: seq<SubType>, rs: nat, size: nat, xs: seq<nat>, ys: seq<nat>)
    requires WfTypes(l) && WfTypes(r) && IsGroup(l, ls, size) && IsGroup(r, rs, size)
    requires forall k | 0 <= k < |xs| :: xs[k] < ls + size
    requires forall k | 0 <= k < |ys| :: ys[k] < rs + size
    ensures RollRefs(l, ls, size, xs) == RollRefs(r, rs, size, ys) <==>
              |xs| == |ys| && forall k | 0 <= k < |xs| :: SameRef(l, ls, r, rs, size, xs[k], ys[k])
  {
    var a, b := RollRefs(l, ls, size, xs), RollRefs(r, rs, size, ys);
    if |xs| == |ys| {
      forall k | 0 <= k < |xs| ensures a[k] == b[k] <==> SameRef(l, ls, r, rs, size, xs[k], ys[k]) {
        assert a[k] == RollRef(l, ls, size, xs[k]) && b[k] == RollRef(r, rs, size, ys[k]);
      }
    } else {
      assert |a| != |b|;
    }
  }

  lemma GroupEqualIff(l: seq<SubType>, ls: nat, r: seq<SubType>, rs: nat, size: nat)
    requires WfTypes(l) && WfTypes(r) && IsGroup(l, ls, size) && IsGroup(r, rs, size)
    ensures RollGroup(l, ls, size) == RollGroup(r, rs, size)
            <==> forall k | 0 <= k < size :: SameMember(l, ls, r, rs, size, k)
  {
    var a, b := RollGroup(l, ls, size), RollGroup(r, rs, size);
    forall k | 0 <= k < size ensures a[k] == b[k] <==> SameMember(l, ls, r, rs, size, k) {
      MemberEqualIff(l, ls, r, rs, size, k);
    }
  }

  /** Types have equal trees exactly when they are declared alike. */
  lemma TreesEqualIff(l: seq<SubType>, i: nat, r: seq<SubType>, j: nat)
    requires WfTypes(l) && WfTypes(r) && i < |l| && j < |r|
    ensures Tree(l, i) == Tree(r, j) <==> SameDeclaration(l, i, r, j)
  {
    TreeShape(l, i);
    TreeShape(r, j);
    if GroupSize(l[i]) == GroupSize(r[j]) {
      GroupEqualIff(l, Start(l, i), r, Start(r, j), GroupSize(l[i]));
    } else {
      assert |Tree(l, i).group| != |Tree(r, j).group|;
    }
  }
}
