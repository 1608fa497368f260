/** The index-based decision procedures of `TypeMatcher` (include/ast/type.h), each proved
    against the trees and the matching relation. */
module TypeMatcher {
  import opened WasmTypes
  import opened TypeTrees
  import opened Matching
  import opened MatchingTheory

  /** Spans with one storage address show the same types. */
  ghost predicate SameStorage(l: TypeList, r: TypeList) {
    l.data == r.data ==> l.types == r.types
  }

  method IsDefTypeEqual(l: TypeList, li: nat, r: TypeList, ri: nat) returns (eq: bool)
    requires WfTypes(l.types) && WfTypes(r.types) && SameStorage(l, r)
    requires li < |l.types| && ri < |r.types|
    ensures eq == (Tree(l.types, li) == Tree(r.types, ri))
    decreases Start(l.types, li), 6
  {
    if l.data == r.data && li == ri {
      return true;
    }
    var lt, rt := l.types[li], r.types[ri];
    assert WfAt(l.types, li) && WfAt(r.types, ri);
    ghost var ls, rs := Start(l.types, li), Start(r.types, ri);
    var lSize := if lt.recInfo.Some? then lt.recInfo.value.size else 1;
    var rSize := if rt.recInfo.Some? then rt.recInfo.value.size else 1;
    if lSize != rSize {
      assert |RollGroup(l.types, ls, lSize)| != |RollGroup(r.types, rs, rSize)|;
      return false;
    }
    if lSize > 1 {
      if lt.recInfo.value.index != rt.recInfo.value.index {
        return false;
      }
      var lStart := li - lt.recInfo.value.index;
      var rStart := ri - rt.recInfo.value.index;
      eq := IsRecTypeEqual(l, lStart, r, rStart, lSize);
    } else {
      eq := IsRecTypeEqual(l, li, r, ri, 1);
    }
  }

  method IsRecTypeEqual(l: TypeList, ls: nat, r: TypeList, rs: nat, size: nat) returns (eq: bool)
    requires WfTypes(l.types) && WfTypes(r.types) && SameStorage(l, r)
    requires IsGroup(l.types, ls, size) && IsGroup(r.types, rs, size)
    ensures eq == (RollGroup(l.types, ls, size) == RollGroup(r.types, rs, size))
    decreases ls, 5
  {
    ghost var lg, rg := RollGroup(l.types, ls, size), RollGroup(r.types, rs, size);
    for i := 0 to size
      invariant forall k | 0 <= k < i :: lg[k] == rg[k]
    {
      var same := IsSubTypeEqual(l, ls, r, rs, size, i);
      assert same == (lg[i] == rg[i]);
      if !same {
        return false;
      }
    }
    return true;
  }

  /** The body of the loop over the members of two groups. */
  method IsSubTypeEqual(l: TypeList, ls: nat, r: TypeList, rs: nat, size: nat, i: nat) returns (eq: bool)
    requires WfTypes(l.types) && WfTypes(r.types) && SameStorage(l, r)
    requires IsGroup(l.types, ls, size) && IsGroup(r.types, rs, size) && i < size
    ensures eq == (RollSub(l.types, ls, size, ls + i) == RollSub(r.types, rs, size, rs + i))
    decreases ls, 4, 1
  {
    var lt, rt := l.types[ls + i], r.types[rs + i];
    assert WfAt(l.types, ls + i) && WfAt(r.types, rs + i);
    ghost var lsup := RollRefs(l.types, ls, size, lt.supers);
    ghost var rsup := RollRefs(r.types, rs, size, rt.supers);
    if lt.isFinal != rt.isFinal {
      return false;
    }
    if |lt.supers| != |rt.supers| {
      assert |lsup| != |rsup|;
      return false;
    }
    for j := 0 to |lt.supers|
      invariant forall k | 0 <= k < j :: lsup[k] == rsup[k]
    {
      var same := IsValTypeEqual(l, ls, r, rs, size,
        ValType(Ref, TypeIndex, lt.supers[j]), ValType(Ref, TypeIndex, rt.supers[j]));
      assert same == (lsup[j] == rsup[j]);
      if !same {
        return false;
      }
    }
    assert lsup == rsup;
    eq := IsCompTypeEqual(l, ls, r, rs, size, lt.comp, rt.comp);
  }

  method IsCompTypeEqual(l: TypeList, ls: nat, r: TypeList, rs: nat, size: nat, lc: CompositeType, rc: CompositeType)
    returns (eq: bool)
    requires WfTypes(l.types) && WfTypes(r.types) && SameStorage(l, r)
    requires IsGroup(l.types, ls, size) && IsGroup(r.types, rs, size)
    requires CompBelow(lc, ls + size) && CompBelow(rc, rs + size)
    ensures eq == (RollComp(l.types, ls, size, lc) == RollComp(r.types, rs, size, rc))
    decreases ls, 4, 0
  {
    match (lc, rc) {
      case (Func(lps, lrs), Func(rps, rrs)) =>
        eq := IsFuncTypeEqual(l, ls, r, rs, size, lps, lrs, rps, rrs);
      case (Struct(lfs), Struct(rfs)) =>
        eq := IsFieldTypeEqual(l, ls, r, rs, size, lfs, rfs);
      case (Array(lf), Array(rf)) =>
        eq := IsFieldTypeEqual(l, ls, r, rs, size, [lf], [rf]);
        assert RollFields(l.types, ls, size, [lf]) == [RolledField(RollVal(l.types, ls, size, lf.storage), lf.mut)];
        assert RollFields(r.types, rs, size, [rf]) == [RolledField(RollVal(r.types, rs, size, rf.storage), rf.mut)];
      case _ =>
        eq := false;
    }
  }

  method IsFuncTypeEqual(l: TypeList, ls: nat, r: TypeList, rs: nat, size: nat,
                         lps: seq<ValType>, lrs: seq<ValType>, rps: seq<ValType>, rrs: seq<ValType>)
    returns (eq: bool)
    requires WfTypes(l.types) && WfTypes(r.types) && SameStorage(l, r)
    requires IsGroup(l.types, ls, size) && IsGroup(r.types, rs, size)
    requires ValsBelow(lps, ls + size) && ValsBelow(lrs, ls + size)
    requires ValsBelow(rps, rs + size) && ValsBelow(rrs, rs + size)
    ensures eq == (&& RollVals(l.types, ls, size, lps) == RollVals(r.types, rs, size, rps)
                   && RollVals(l.types, ls, size, lrs) == RollVals(r.types, rs, size, rrs))
    decreases ls, 3
  {
    ghost var lp, rp := RollVals(l.types, ls, size, lps), RollVals(r.types, rs, size, rps);
    ghost var lr, rr := RollVals(l.types, ls, size, lrs), RollVals(r.types, rs, size, rrs);
    if |lps| != |rps| || |lrs| != |rrs| {
      assert |lp| != |rp| || |lr| != |rr|;
      return false;
    }
    for i := 0 to |lps|
      invariant lp[..i] == rp[..i]
    {
      var same := IsValTypeEqual(l, ls, r, rs, size, lps[i], rps[i]);
      assert same == (lp[i] == rp[i]);
      if !same {
        return false;
      }
    }
    for i := 0 to |lrs|
      invariant lr[..i] == rr[..i]
    {
      var same := IsValTypeEqual(l, ls, r, rs, size, lrs[i], rrs[i]);
      assert same == (lr[i] == rr[i]);
      if !same {
        return false;
      }
    }
    return true;
  }

  method IsFieldTypeEqual(l: TypeList, ls: nat, r: TypeList, rs: nat, size: nat,
                          lfs: seq<FieldType>, rfs: seq<FieldType>)
    returns (eq: bool)
    requires WfTypes(l.types) && WfTypes(r.types) && SameStorage(l, r)
    requires IsGroup(l.types, ls, size) && IsGroup(r.types, rs, size)
    requires FieldsBelow(lfs, ls + size) && FieldsBelow(rfs, rs + size)
    ensures eq == (RollFields(l.types, ls, size, lfs) == RollFields(r.types, rs, size, rfs))
    decreases ls, 3
  {
    ghost var lf, rf := RollFields(l.types, ls, size, lfs), RollFields(r.types, rs, size, rfs);
    if |lfs| != |rfs| {
      assert |lf| != |rf|;
      return false;
    }
    for i := 0 to |lfs|
      invariant lf[..i] == rf[..i]
    {
      assert lf[i].mut == lfs[i].mut && rf[i].mut == rfs[i].mut;
      if lfs[i].mut != rfs[i].mut {
        return false;
      }
      var same := IsValTypeEqual(l, ls, r, rs, size, lfs[i].storage, rfs[i].storage);
      assert same == (lf[i] == rf[i]);
      if !same {
        return false;
      }
    }
    return true;
  }

  method IsValTypeEqual(l: TypeList, ls: nat, r: TypeList, rs: nat, size: nat, lv: ValType, rv: ValType)
    returns (eq: bool)
    requires WfTypes(l.types) && WfTypes(r.types) && SameStorage(l, r)
    requires IsGroup(l.types, ls, size) && IsGroup(r.types, rs, size)
    requires ValBelow(lv, ls + size) && ValBelow(rv, rs + size)
    ensures eq == (RollVal(l.types, ls, size, lv) == RollVal(r.types, rs, size, rv))
    decreases ls, 2
  {
    if lv.heapCode == TypeIndex && rv.heapCode == TypeIndex {
      if lv.code != rv.code {
        return false;
      }
      var lIdx, rIdx := lv.idx, rv.idx;
      assert lIdx < |l.types| && rIdx < |r.types|;  // the source's `assuming`
      var lInner := ls <= lIdx < ls + size;
      var rInner := rs <= rIdx < rs + size;
      if lInner != rInner {
        return false;
      }
      if lInner {
        return lIdx - ls == rIdx - rs;
      }
      eq := IsDefTypeEqual(l, lIdx, r, rIdx);
    } else {
      return lv.code == rv.code && lv.heapCode == rv.heapCode;
    }
  }

  // ----- matching -----

  method MatchDefType(exp: TypeList, expIdx: nat, got: TypeList, gotIdx: nat) returns (ok: bool)
    requires WfTypes(exp.types) && WfTypes(got.types) && SameStorage(exp, got)
    ensures ok == (&& expIdx < |exp.types| && gotIdx < |got.types|
                   && DefMatches(Tree(exp.types, expIdx), Tree(got.types, gotIdx)))
    decreases if gotIdx < |got.types| then Rank(got.types)[gotIdx] else 0
  {
    if expIdx >= |exp.types| || gotIdx >= |got.types| {
      return false;
    }
    ghost var want := Tree(exp.types, expIdx);
    DefMatchesUnfold(want, got.types, gotIdx);
    var same := IsDefTypeEqual(exp, expIdx, got, gotIdx);
    if same {
      return true;
    }
    var supers := got.types[gotIdx].supers;
    for k := 0 to |supers|
      invariant forall j | 0 <= j < k :: !DefMatches(want, Tree(got.types, supers[j]))
    {
      assert RankFallsAt(got.types, Rank(got.types), gotIdx);
      var found := MatchDefType(exp, expIdx, got, supers[k]);
      if found {
        return true;
      }
    }
    return false;
  }

  method MatchValType(exp: TypeList, e: ValType, got: TypeList, g: ValType) returns (ok: bool)
    requires WfTypes(exp.types) && WfTypes(got.types) && SameStorage(exp, got)
    requires e.Valid() && g.Valid()
    ensures ok == ValMatches(ResolveVal(exp.types, e), ResolveVal(got.types, g))
  {
    if !e.IsRefType() && !g.IsRefType() && e.code == g.code {
      return true;
    }
    if e.IsRefType() && g.IsRefType() {
      if !e.IsNullableRefType() && g.IsNullableRefType() {
        return false;
      }
      ok := MatchHeapType(exp, e, got, g);
      return;
    }
    return false;
  }

  /** The heap types of two reference types: abstract or defined on either side. */
  method MatchHeapType(exp: TypeList, e: ValType, got: TypeList, g: ValType) returns (ok: bool)
    requires WfTypes(exp.types) && WfTypes(got.types) && SameStorage(exp, got)
    requires e.Valid() && g.Valid() && e.IsRefType() && g.IsRefType()
    ensures ok == HeapMatches(ResolveVal(exp.types, e).heap, ResolveVal(got.types, g).heap)
  {
    if e.IsAbsHeapType() && g.IsAbsHeapType() {
      HeapMatchesIff(Abs(e.heapCode), Abs(g.heapCode));
      ok := MatchTypeCode(e.heapCode, g.heapCode);
    } else if e.IsAbsHeapType() {
      ok := MatchAbsToIndex(e.heapCode, got.types, g);
    } else if g.IsAbsHeapType() {
      ok := MatchIndexToAbs(exp.types, e, g.heapCode);
    } else {
      HeapMatchesIff(ResolveVal(exp.types, e).heap, ResolveVal(got.types, g).heap);
      ok := MatchDefType(exp, e.idx, got, g.idx);
      if e.idx < |exp.types| && g.idx < |got.types| {
        TreeKnown(exp.types, e.idx);
        TreeKnown(got.types, g.idx);
      }
    }
  }

  /** An abstract heap type is expected and an indexed one is given. */
  method MatchAbsToIndex(e: TypeCode, got: seq<SubType>, g: ValType) returns (ok: bool)
    requires WfTypes(got) && IsAbsHeapCode(e) && g.Valid() && g.IsRefType() && g.heapCode.TypeIndex?
    ensures ok == HeapMatches(Abs(e), ResolveVal(got, g).heap)
  {
    HeapMatchesIff(Abs(e), ResolveVal(got, g).heap);
    if g.idx >= |got| {
      return false;
    }
    TreeShape(got, g.idx);
    TreeKnown(got, g.idx);
    ok := MatchTypeCode(e, got[g.idx].comp.Expand());
  }

  /** An indexed heap type is expected and an abstract one is given: only the bottom types match. */
  method MatchIndexToAbs(exp: seq<SubType>, e: ValType, g: TypeCode) returns (ok: bool)
    requires WfTypes(exp) && e.Valid() && e.IsRefType() && e.heapCode.TypeIndex? && IsAbsHeapCode(g)
    ensures ok == HeapMatches(ResolveVal(exp, e).heap, Abs(g))
  {
    HeapMatchesIff(ResolveVal(exp, e).heap, Abs(g));
    if e.idx >= |exp| {
      return false;
    }
    TreeShape(exp, e.idx);
    TreeKnown(exp, e.idx);
    var expanded := exp[e.idx].comp.Expand();
    match g {
      case NullRef => ok := MatchTypeCode(AnyRef, expanded);
      case NullFuncRef => ok := MatchTypeCode(FuncRef, expanded);
      case NullExternRef => ok := MatchTypeCode(ExternRef, expanded);
      case _ => ok := false;
    }
  }

  method MatchValTypes(types: TypeList, exp: seq<ValType>, got: seq<ValType>) returns (ok: bool)
    requires WfTypes(types.types) && ValsValid(exp) && ValsValid(got)
    ensures ok == ValsMatch(ResolveVals(types.types, exp), ResolveVals(types.types, got))
  {
    ghost var e, g := ResolveVals(types.types, exp), ResolveVals(types.types, got);
    if |exp| != |got| {
      return false;
    }
    for i := 0 to |exp|
      invariant forall k | 0 <= k < i :: ValMatches(e[k], g[k])
    {
      var same := MatchValType(types, exp[i], types, got[i]);
      assert same == ValMatches(e[i], g[i]);
      if !same {
        return false;
      }
    }
    return true;
  }

  method MatchFieldType(types: TypeList, exp: FieldType, got: FieldType) returns (ok: bool)
    requires WfTypes(types.types) && exp.storage.Valid() && got.storage.Valid()
    ensures ok == FieldMatches(ResolveField(types.types, exp), ResolveField(types.types, got))
  {
    ok := false;
    if exp.mut == got.mut {
      ok := MatchValType(types, exp.storage, types, got.storage);
      if exp.mut == Var {
        var back := MatchValType(types, got.storage, types, exp.storage);
        ok := ok && back;
      }
    }
  }

  method MatchCompType(types: TypeList, exp: CompositeType, got: CompositeType) returns (ok: bool)
    requires WfTypes(types.types) && exp.Valid() && got.Valid()
    ensures ok == CompMatches(ResolveComp(types.types, exp), ResolveComp(types.types, got))
  {
    match (exp, got) {
      case (Func(eps, ers), Func(gps, grs)) =>
        ok := MatchValTypes(types, gps, eps);
        if ok {
          ok := MatchValTypes(types, ers, grs);
        }
      case (Struct(efs), Struct(gfs)) =>
        if |gfs| < |efs| {
          return false;
        }
        ghost var e, g := ResolveFields(types.types, efs), ResolveFields(types.types, gfs);
        for i := 0 to |efs|
          invariant forall k | 0 <= k < i :: FieldMatches(e[k], g[k])
        {
          var same := MatchFieldType(types, efs[i], gfs[i]);
          assert same == FieldMatches(e[i], g[i]);
          if !same {
            return false;
          }
        }
        return true;
      case (Array(ef), Array(gf)) =>
        ok := MatchFieldType(types, ef, gf);
      case _ =>
        ok := false;
    }
  }
}
