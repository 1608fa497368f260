/** The flat stack manager (include/runtime/stackmgr.h): one vector of values, and frames and
    exception handlers that hold offsets into it. Each method is proved to carry out the operation
    of the same name on the nested activations that the vectors represent. */
module StackManager {
  import opened Options
  import opened Activations

  datatype Handler<C> = Handler(pc: int, jumpEnd: nat, vpos: nat, catches: C)

  datatype Frame<M, C> = Frame(
    mod: M, from: int, locals: nat, arity: nat, vpos: nat, handlers: seq<Handler<C>>)

  // ----- the flat form of nested activations -----

  ghost function Values<V, M, C>(n: Nested<V, M, C>): seq<V>
    decreases n, 1
  {
    Below(n) + n.Operands()
  }

  /** The values under the operands of the innermost activation. */
  ghost function Below<V, M, C>(n: Nested<V, M, C>): seq<V>
    decreases n, 0
  {
    if n.Bottom? then [] else Values(n.outer) + n.locals
  }

  ghost function Base<V, M, C>(n: Nested<V, M, C>): nat {
    |Below(n)|
  }

  function Handlers<C>(ts: seq<Try<C>>, base: nat): (hs: seq<Handler<C>>)
    ensures |hs| == |ts|
  {
    seq(|ts|, i requires 0 <= i < |ts| => Handler(ts[i].pc, ts[i].jumpEnd, base + ts[i].height, ts[i].catches))
  }

  ghost function FrameOf<V, M, C>(n: Nested<V, M, C>): Frame<M, C>
    requires n.Act?
  {
    Frame(n.mod, n.from, |n.locals|, n.arity, Base(n), Handlers(n.tries, Base(n)))
  }

  ghost function Frames<V, M, C>(n: Nested<V, M, C>): seq<Frame<M, C>> {
    if n.Bottom? then [] else Frames(n.outer) + [FrameOf(n)]
  }

  lemma FramesEnd<V, M, C>(n: Nested<V, M, C>)
    requires n.Act?
    ensures var fs := Frames(n);
            && fs != [] && fs[|fs| - 1] == FrameOf(n) && fs[..|fs| - 1] == Frames(n.outer)
  {
  }

  // ----- sequences -----

  /** Removing the elements from `begin` up to `end`. */
  function Erase<V>(s: seq<V>, begin: nat, end: nat): seq<V>
    requires begin <= end <= |s|
  {
    s[..begin] + s[end..]
  }

  lemma EraseCut<V>(kept: seq<V>, cut: seq<V>, rest: seq<V>)
    ensures Erase(kept + cut + rest, |kept|, |kept| + |cut|) == kept + rest
  {
  }

  lemma TopAbove<V>(low: seq<V>, s: seq<V>, k: nat)
    requires k <= |s|
    ensures Top(low + s, k) == Top(s, k) && Drop(low + s, k) == low + Drop(s, k)
  {
  }

  lemma HandlersAppend<C>(ts: seq<Try<C>>, t: Try<C>, base: nat)
    ensures Handlers(ts + [t], base) == Handlers(ts, base) + [Handler(t.pc, t.jumpEnd, base + t.height, t.catches)]
  {
  }

  lemma HandlersPrefix<C>(ts: seq<Try<C>>, k: nat, base: nat)
    requires k <= |ts|
    ensures Handlers(ts[..k], base) == Handlers(ts, base)[..k]
  {
  }

  /** The nested activations are determined by the flat form. */
  lemma {:induction false} FlatIsInjective<V, M, C>(n: Nested<V, M, C>, m: Nested<V, M, C>)
    requires Values(n) == Values(m) && Frames(n) == Frames(m)
    ensures n == m
    decreases n
  {
    if n.Act? && m.Act? {
      FramesEnd(n);
      FramesEnd(m);
      SplitsEqual(Below(n), n.operands, Below(m), m.operands);
      SplitsEqual(Values(n.outer), n.locals, Values(m.outer), m.locals);
      FlatIsInjective(n.outer, m.outer);
      TriesInjective(n.tries, m.tries, Base(n));
    } else if n.Act? {
      FramesEnd(n);
    } else if m.Act? {
      FramesEnd(m);
    } else {
      assert [] + n.values == n.values && [] + m.values == m.values;
    }
  }

  lemma SplitsEqual<V>(a: seq<V>, b: seq<V>, c: seq<V>, d: seq<V>)
    requires a + b == c + d && |b| == |d|
    ensures a == c && b == d
  {
    assert a == (a + b)[..|a|] && c == (c + d)[..|c|];
    assert b == (a + b)[|a|..] && d == (c + d)[|c|..];
  }

  lemma TriesInjective<C>(ts: seq<Try<C>>, us: seq<Try<C>>, base: nat)
    requires Handlers(ts, base) == Handlers(us, base)
    ensures ts == us
  {
    assert |ts| == |Handlers(ts, base)| == |us|;
    forall i | 0 <= i < |ts| ensures ts[i] == us[i] {
      assert Handlers(ts, base)[i] == Handlers(us, base)[i];
    }
  }

  // ----- each operation on the flat form -----

  lemma OperandsReplaced<V, M, C>(n: Nested<V, M, C>, ops: seq<V>)
    ensures Values(n) == Below(n) + n.Operands()
    ensures Values(n.WithOperands(ops)) == Below(n) + ops
    ensures Frames(n.WithOperands(ops)) == Frames(n)
  {
  }

  lemma {:induction false} PushIsFlat<V, M, C>(n: Nested<V, M, C>, vs: seq<V>)
    ensures var m := n.WithOperands(n.Operands() + vs);
            Values(m) == Values(n) + vs && Frames(m) == Frames(n)
  {
    OperandsReplaced(n, n.Operands() + vs);
    assert Below(n) + (n.Operands() + vs) == Below(n) + n.Operands() + vs;
  }

  lemma PopIsFlat<V, M, C>(n: Nested<V, M, C>, k: nat)
    requires k <= |n.Operands()|
    ensures var m := n.WithOperands(Drop(n.Operands(), k));
            && k <= |Values(n)| && Top(Values(n), k) == Top(n.Operands(), k)
            && Values(m) == Drop(Values(n), k) && Frames(m) == Frames(n)
  {
    OperandsReplaced(n, Drop(n.Operands(), k));
    TopAbove(Below(n), n.Operands(), k);
  }

  lemma BranchIsFlat<V, M, C>(n: Nested<V, M, C>, begin: nat, end: nat)
    returns (kept: seq<V>, cut: seq<V>, carried: seq<V>)
    requires end <= begin <= |n.Operands()|
    ensures Values(n) == kept + cut + carried && Values(Branch(n, begin, end)) == kept + carried
    ensures |cut| == begin - end && |carried| == end
  {
    var ops := n.Operands();
    kept, cut, carried := Below(n) + Drop(ops, begin), ops[|ops| - begin..|ops| - end], Top(ops, end);
    OperandsReplaced(n, Drop(ops, begin) + carried);
    RegroupCut(Below(n), ops, begin, end);
  }

  lemma RegroupCut<V>(low: seq<V>, ops: seq<V>, begin: nat, end: nat)
    requires end <= begin <= |ops|
    ensures low + ops == low + Drop(ops, begin) + ops[|ops| - begin..|ops| - end] + Top(ops, end)
    ensures low + (Drop(ops, begin) + Top(ops, end)) == low + Drop(ops, begin) + Top(ops, end)
  {
    assert ops == Drop(ops, begin) + ops[|ops| - begin..|ops| - end] + Top(ops, end);
  }

  lemma BranchKeepsFrames<V, M, C>(n: Nested<V, M, C>, begin: nat, end: nat)
    requires end <= begin <= |n.Operands()|
    ensures Frames(Branch(n, begin, end)) == Frames(n)
  {
  }

  lemma {:induction false} SizeIs<V, M, C>(n: Nested<V, M, C>)
    ensures |Values(n)| == Size(n)
  {
    if n.Act? { SizeIs(n.outer); }
  }

  lemma {:induction false} StoreIsFlat<V, M, C>(n: Nested<V, M, C>, offset: nat, v: V)
    requires 0 < offset <= Size(n)
    ensures var m, vs := Store(n, offset, v), Values(n);
            && |vs| == Size(n) && Values(m) == vs[|vs| - offset := v]
            && Frames(m) == Frames(n)
  {
    SizeIs(n);
    var ops := n.Operands();
    if n.Act? {
      UpdateConcat(Values(n.outer), n.locals, ops, offset, v);
      if offset > |ops| + |n.locals| {
        StoreIsFlat(n.outer, offset - |ops| - |n.locals|, v);
        FramesAgree(n, Store(n, offset, v));
      } else {
        FramesAgree(n, Store(n, offset, v));
      }
    } else {
      EmptyBelow(ops);
      EmptyBelow(ops[|ops| - offset := v]);
    }
  }

  lemma EmptyBelow<V>(s: seq<V>)
    ensures [] + s == s
  {
  }

  /** A frame does not depend on the values, only on how many there are. */
  lemma {:induction false} FramesAgree<V, M, C>(n: Nested<V, M, C>, m: Nested<V, M, C>)
    requires n.Act? && m.Act? && n.mod == m.mod && n.from == m.from && n.arity == m.arity && n.tries == m.tries
    requires |n.locals| == |m.locals| && |Values(n.outer)| == |Values(m.outer)| && Frames(n.outer) == Frames(m.outer)
    ensures Frames(n) == Frames(m)
  {
  }

  lemma UpdateConcat<V>(a: seq<V>, b: seq<V>, c: seq<V>, offset: nat, v: V)
    requires 0 < offset <= |a| + |b| + |c|
    ensures var all := a + b + c;
            all[|all| - offset := v] == if offset <= |c| then a + b + c[|c| - offset := v]
                                        else if offset <= |c| + |b| then a + b[|b| + |c| - offset := v] + c
                                        else a[|a| + |b| + |c| - offset := v] + b + c
  {
  }

  lemma CallIsFlat<V, M, C>(n: Nested<V, M, C>, mod: M, from: int, args: nat, arity: nat)
    requires args <= |n.Operands()|
    ensures var m := Call(n, mod, from, args, arity);
            && Values(m) == Values(n)
            && Frames(m) == Frames(n) + [Frame(mod, from, args, arity, |Values(n)|, [])]
  {
    var ops := n.Operands();
    OperandsReplaced(n, Drop(ops, args));
    assert Below(n) + Drop(ops, args) + Top(ops, args) + [] == Below(n) + ops;
  }

  /** The values at a return or a tail call: the callers', those that go, and the top ones. */
  lemma ActivationSplits<V, M, C>(n: Nested<V, M, C>, k: nat) returns (cut: seq<V>)
    requires n.Act? && k <= |n.operands|
    ensures Values(n) == Values(n.outer) + cut + Top(n.operands, k)
    ensures FrameOf(n).vpos - FrameOf(n).locals == |Values(n.outer)|
  {
    cut := n.locals + Drop(n.operands, k);
    SplitTop(Values(n.outer), n.locals, n.operands, k);
  }

  lemma SplitTop<V>(a: seq<V>, b: seq<V>, s: seq<V>, k: nat)
    requires k <= |s|
    ensures a + b + s == a + (b + Drop(s, k)) + Top(s, k)
  {
    assert s == Drop(s, k) + Top(s, k);
  }

  lemma TailCallIsFlat<V, M, C>(n: Nested<V, M, C>, mod: M, args: nat, arity: nat)
    requires n.Act? && args <= |n.operands|
    ensures var m := TailCall(n, mod, args, arity);
            && Values(m) == Values(n.outer) + Top(n.operands, args)
            && Frames(m) == Frames(n.outer) + [Frame(mod, n.from, args, arity, |Values(m)|, [])]
  {
    var m := TailCall(n, mod, args, arity);
    assert Values(m) == Below(m) + [] == Below(m);
  }

  lemma ReturnIsFlat<V, M, C>(n: Nested<V, M, C>)
    requires n.Act? && n.arity <= |n.operands|
    ensures Values(Return(n)) == Values(n.outer) + Top(n.operands, n.arity)
    ensures Frames(Return(n)) == Frames(n.outer)
  {
    PushIsFlat(n.outer, Top(n.operands, n.arity));
  }

  lemma EnterIsFlat<V, M, C>(n: Nested<V, M, C>, pc: int, jumpEnd: nat, params: nat, catches: C)
    requires n.Act? && params <= |n.operands|
    ensures var m, f := Enter(n, pc, jumpEnd, params, catches), FrameOf(n);
            && params <= |Values(n)| && Values(m) == Values(n)
            && Frames(m) == Frames(n.outer)
                 + [f.(handlers := f.handlers + [Handler(pc, jumpEnd, |Values(n)| - params, catches)])]
  {
    HandlersAppend(n.tries, Try(pc, jumpEnd, |n.operands| - params, catches), Base(n));
  }

  lemma {:induction false} TrimmedPrefix<C>(ts: seq<Try<C>>, k: nat, pc: int)
    requires k <= |ts| && forall i | k <= i < |ts| :: !ts[i].Active(pc)
    requires k == 0 || ts[k - 1].Active(pc)
    ensures Trimmed(ts, pc) == ts[..k]
  {
    if k < |ts| {
      TrimmedPrefix(ts[..|ts| - 1], k, pc);
      assert ts[..|ts| - 1][..k] == ts[..k];
    } else {
      assert ts[..k] == ts;
    }
  }

  /** What lies above the operands of the activation where a throw lands. */
  lemma {:induction false} AboveCatching<V, M, C>(n: Nested<V, M, C>) returns (mid: seq<V>)
    requires n.Act? && n.tries == []
    ensures Values(n) == Values(Catching(n)) + mid + n.operands
  {
    var o := n.outer;
    if o.Bottom? || o.tries != [] {
      mid := n.locals;
    } else {
      var rest := AboveCatching(o);
      mid := rest + o.operands + n.locals;
      Reassociate(Values(Catching(n)), rest, o.operands, n.locals);
    }
  }

  lemma Reassociate<V>(a: seq<V>, b: seq<V>, c: seq<V>, d: seq<V>)
    ensures a + b + c + d == a + (b + c + d)
  {
  }

  /** The handler at which a throw lands. */
  ghost function Landing<V, M, C>(n: Nested<V, M, C>): Handler<C>
    requires Catching(n).Act?
  {
    var c := Catching(n);
    var t := Innermost(c);
    Handler(t.pc, t.jumpEnd, Base(c) + t.height, t.catches)
  }

  /** The values at a throw: those that stay, those that go, and the thrown ones. */
  lemma ThrowIsFlat<V, M, C>(n: Nested<V, M, C>, values: nat) returns (kept: seq<V>, cut: seq<V>, thrown: seq<V>)
    requires Catching(n).Act? && CanThrow(n, values)
    ensures Values(n) == kept + cut + thrown && Values(Thrown(n, values)) == kept + thrown
    ensures |kept| == Landing(n).vpos && |thrown| == values
  {
    var c := Catching(n);
    var h := Innermost(c).height;
    kept, thrown := Below(c) + c.operands[..h], Top(n.operands, values);
    assert Below(Thrown(n, values)) == Below(c);
    assert Below(c) + (c.operands[..h] + thrown) == kept + thrown;
    if n.tries != [] {
      cut := c.operands[h..|c.operands| - values];
      assert c.operands == c.operands[..h] + cut + thrown;
      Reassociate3(Below(c), c.operands[..h], cut, thrown);
    } else {
      var mid := AboveCatching(n);
      cut := c.operands[h..] + mid + Drop(n.operands, values);
      Regroup(Below(c), c.operands, h, mid, n.operands, values);
    }
  }

  lemma Reassociate3<V>(a: seq<V>, b: seq<V>, c: seq<V>, d: seq<V>)
    ensures a + (b + c + d) == a + b + c + d
  {
  }

  lemma Regroup<V>(low: seq<V>, s: seq<V>, h: nat, mid: seq<V>, ops: seq<V>, k: nat)
    requires h <= |s| && k <= |ops|
    ensures low + s + mid + ops == low + s[..h] + (s[h..] + mid + Drop(ops, k)) + Top(ops, k)
  {
    assert s == s[..h] + s[h..] && ops == Drop(ops, k) + Top(ops, k);
  }

  lemma ThrowFrames<V, M, C>(n: Nested<V, M, C>, values: nat)
    requires Catching(n).Act? && CanThrow(n, values)
    ensures var c := Catching(n);
            var f := FrameOf(c);
            && f.handlers != [] && f.handlers[|f.handlers| - 1] == Landing(n)
            && Frames(Thrown(n, values)) == Frames(c.outer) + [f.(handlers := f.handlers[..|f.handlers| - 1])]
  {
    var c, m := Catching(n), Thrown(n, values);
    HandlersPrefix(c.tries, |c.tries| - 1, Base(c));
    assert m.outer == c.outer && Base(m) == Base(c);
  }

  lemma {:induction false} FramesDepth<V, M, C>(n: Nested<V, M, C>)
    ensures |Frames(n)| == n.Depth()
  {
    if n.Act? { FramesDepth(n.outer); }
  }

  /** The loop of `removeInactiveHandler`. */
  method TrimHandlers<C>(hs0: seq<Handler<C>>, ghost ts: seq<Try<C>>, ghost base: nat, pc: int)
    returns (hs: seq<Handler<C>>)
    requires hs0 == Handlers(ts, base)
    ensures hs == Handlers(Trimmed(ts, pc), base)
  {
    hs := hs0;
    while hs != []
      invariant hs <= hs0 && forall i | |hs| <= i < |ts| :: !ts[i].Active(pc)
      decreases |hs|
    {
      var h := hs[|hs| - 1];
      assert h == hs0[|hs| - 1];
      if pc < h.pc || pc > h.pc + h.jumpEnd {
        hs := hs[..|hs| - 1];
      } else {
        break;
      }
    }
    TrimmedPrefix(ts, |hs|, pc);
    HandlersPrefix(ts, |hs|, base);
  }

  /** The loop of `popTopHandler`: pop the frames above the innermost one with a handler. */
  method DropUncatching<V, M, C>(fs0: seq<Frame<M, C>>, ghost n: Nested<V, M, C>) returns (fs: seq<Frame<M, C>>)
    requires fs0 == Frames(n)
    ensures fs == Frames(Catching(n)) && (fs == [] <==> Catching(n).Bottom?)
  {
    fs := fs0;
    ghost var p := n;
    while fs != [] && fs[|fs| - 1].handlers == []
      invariant fs == Frames(p) && Catching(p) == Catching(n)
      decreases |fs|
    {
      FramesEnd(p);
      fs := fs[..|fs| - 1];
      p := p.outer;
    }
    if fs != [] { FramesEnd(p); }
  }

  /** The other half of `popTopHandler`: take the handler off its frame and cut the values back. */
  method Land<V, M, C>(vs: seq<V>, fs: seq<Frame<M, C>>, assocValSize: nat, ghost n: Nested<V, M, C>)
    returns (vs': seq<V>, fs': seq<Frame<M, C>>, h: Handler<C>)
    requires Catching(n).Act? && CanThrow(n, assocValSize)
    requires vs == Values(n) && fs == Frames(Catching(n))
    ensures vs' == Values(Thrown(n, assocValSize)) && fs' == Frames(Thrown(n, assocValSize))
    ensures h == Landing(n) && h.vpos + assocValSize <= |vs|
    ensures vs' == Erase(vs, h.vpos, |vs| - assocValSize)
  {
    FramesEnd(Catching(n));
    ghost var kept, cut, thrown := ThrowIsFlat(n, assocValSize);
    ThrowFrames(n, assocValSize);
    EraseCut(kept, cut, thrown);
    var back := fs[|fs| - 1];
    h := back.handlers[|back.handlers| - 1];
    fs' := fs[..|fs| - 1] + [back.(handlers := back.handlers[..|back.handlers| - 1])];
    assert h.vpos <= |vs| - assocValSize;  // the source's `assuming`
    vs' := Erase(vs, h.vpos, |vs| - assocValSize);
  }

  /** Taking the innermost handler off the top frame. */
  method DropHandler<V, M, C>(fs: seq<Frame<M, C>>, ghost n: Nested<V, M, C>) returns (fs': seq<Frame<M, C>>)
    requires n.Act? && n.tries != [] && fs == Frames(n)
    ensures fs' == Frames(Leave(n)) && Values(Leave(n)) == Values(n)
  {
    FramesEnd(n);
    HandlersPrefix(n.tries, |n.tries| - 1, Base(n));
    var back := fs[|fs| - 1];
    fs' := fs[..|fs| - 1] + [back.(handlers := back.handlers[..|back.handlers| - 1])];
  }

  /** A branch is an erasure of the flat values. */
  lemma {:induction false} BranchErases<V, M, C>(n: Nested<V, M, C>, vs: seq<V>, begin: nat, end: nat)
    requires vs == Values(n) && end <= begin <= |n.Operands()|
    ensures begin <= |vs| && Values(Branch(n, begin, end)) == Erase(vs, |vs| - begin, |vs| - end)
    ensures Frames(Branch(n, begin, end)) == Frames(n)
  {
    var kept, cut, carried := BranchIsFlat(n, begin, end);
    EraseRange(vs, kept, cut, carried, begin, end);
    BranchKeepsFrames(n, begin, end);
  }

  lemma EraseRange<V>(vs: seq<V>, kept: seq<V>, cut: seq<V>, carried: seq<V>, begin: nat, end: nat)
    requires vs == kept + cut + carried && end <= begin && |cut| == begin - end && |carried| == end
    ensures begin <= |vs| && Erase(vs, |vs| - begin, |vs| - end) == kept + carried
  {
    EraseCut(kept, cut, carried);
  }

  /** Erasing values; as long as they are operands of the innermost activation, this is a branch. */
  method EraseValues<V, M, C>(vs: seq<V>, begin: nat, end: nat, ghost n: Nested<V, M, C>)
    returns (vs': seq<V>)
    requires end <= begin <= |vs| && vs == Values(n)
    ensures vs' == Erase(vs, |vs| - begin, |vs| - end)
    ensures begin <= |n.Operands()| ==>
              vs' == Values(Branch(n, begin, end)) && Frames(Branch(n, begin, end)) == Frames(n)
  {
    vs' := Erase(vs, |vs| - begin, |vs| - end);
    if begin <= |n.Operands()| { BranchErases(n, vs, begin, end); }
  }

  /** A return is an erasure between the frame base and the results. */
  lemma {:induction false} ReturnErases<V, M, C>(n: Nested<V, M, C>)
    requires n.Act? && n.arity <= |n.operands|
    ensures var f, vs, fs := FrameOf(n), Values(n), Frames(n);
            && fs != [] && fs[|fs| - 1] == f && f.from == n.from && f.arity == n.arity
            && f.vpos >= f.locals && f.vpos - f.locals <= |vs| - f.arity
            && Values(Return(n)) == Erase(vs, f.vpos - f.locals, |vs| - f.arity)
            && Frames(Return(n)) == fs[..|fs| - 1]
  {
    ReturnIsFlat(n);
    var cut := ActivationSplits(n, n.arity);
    EraseCut(Values(n.outer), cut, Top(n.operands, n.arity));
    FramesEnd(n);
  }

  /** The top frame popped and its values erased up to the results. */
  method PopFrameOf<V, M, C>(vs: seq<V>, fs: seq<Frame<M, C>>, ghost n: Nested<V, M, C>)
    returns (vs': seq<V>, fs': seq<Frame<M, C>>, from: int)
    requires n.Act? && n.arity <= |n.operands| && vs == Values(n) && fs == Frames(n)
    ensures vs' == Values(Return(n)) && fs' == Frames(Return(n)) && from == n.from
  {
    ReturnErases(n);
    var back := fs[|fs| - 1];
    assert fs != [] && back.vpos >= back.locals;  // the source's `assuming`
    assert back.vpos - back.locals <= |vs| - back.arity;
    vs' := Erase(vs, back.vpos - back.locals, |vs| - back.arity);
    from := back.from;
    fs' := fs[..|fs| - 1];
  }

  /** A pop of a throw takes the values and the activations from the first to the second. It gives a
      handler, that of the innermost open try block, unless no activation has one. The values are then
      those below the handler's offset and the thrown ones. */
  ghost predicate Popped<V, M, C>(vs: seq<V>, n: Nested<V, M, C>, assocValSize: nat,
                                  vs': seq<V>, m: Nested<V, M, C>, handler: Option<Handler<C>>)
    requires CanThrow(n, assocValSize)
  {
    match handler
    case None => NoTries(n) && m == Bottom(vs)
    case Some(h) =>
      && !NoTries(n) && Catching(n).Act? && m == Thrown(n, assocValSize) && h == Landing(n)
      && h.vpos + assocValSize <= |vs| && vs' == Erase(vs, h.vpos, |vs| - assocValSize)
  }

  ghost function AfterPop<V, M, C>(n: Nested<V, M, C>, assocValSize: nat, vs: seq<V>): Nested<V, M, C>
    requires CanThrow(n, assocValSize)
  {
    if Catching(n).Bottom? then Bottom(vs) else Thrown(n, assocValSize)
  }

  /** The handler that a throw finds, with the frames and values that it leaves. */
  method PopHandlerOf<V, M, C>(vs: seq<V>, fs: seq<Frame<M, C>>, assocValSize: nat, ghost n: Nested<V, M, C>)
    returns (vs': seq<V>, fs': seq<Frame<M, C>>, handler: Option<Handler<C>>)
    requires CanThrow(n, assocValSize) && vs == Values(n) && fs == Frames(n)
    ensures var m := AfterPop(n, assocValSize, vs);
            vs' == Values(m) && fs' == Frames(m) && Popped(vs, n, assocValSize, vs', m, handler)
  {
    CatchingIff(n);
    fs' := DropUncatching(fs, n);
    if fs' == [] {
      EmptyBelow(vs);
      return vs, fs', None;
    }
    var h;
    vs', fs', h := Land(vs, fs', assocValSize, n);
    return vs', fs', Some(h);
  }

  class StackManager<V, M, C> {
    var valueStack: seq<V>
    var frameStack: seq<Frame<M, C>>
    ghost var view: Nested<V, M, C>

    ghost predicate Valid()
      reads this
    {
      valueStack == Values(view) && frameStack == Frames(view)
    }

    constructor ()
      ensures Valid() && view == Bottom([])
    {
      valueStack, frameStack, view := [], [], Bottom([]);
    }

    method Push(v: V)
      requires Valid()
      modifies this
      ensures Valid() && view == old(view).WithOperands(old(view).Operands() + [v])
    {
      PushIsFlat(view, [v]);
      valueStack := valueStack + [v];
      view := view.WithOperands(view.Operands() + [v]);
    }

    method PushValVec(vs: seq<V>)
      requires Valid()
      modifies this
      ensures Valid() && view == old(view).WithOperands(old(view).Operands() + vs)
    {
      PushIsFlat(view, vs);
      valueStack := valueStack + vs;
      view := view.WithOperands(view.Operands() + vs);
    }

    method Pop() returns (v: V)
      requires Valid() && view.Operands() != []
      modifies this
      ensures Valid() && view == old(view).WithOperands(Drop(old(view).Operands(), 1))
      ensures [v] == Top(old(view).Operands(), 1)
    {
      PopIsFlat(view, 1);
      v := valueStack[|valueStack| - 1];
      valueStack := valueStack[..|valueStack| - 1];
      view := view.WithOperands(Drop(view.Operands(), 1));
    }

    method PopN(n: nat) returns (vs: seq<V>)
      requires Valid() && n <= |view.Operands()|
      modifies this
      ensures Valid() && view == old(view).WithOperands(Drop(old(view).Operands(), n))
      ensures vs == Top(old(view).Operands(), n)
    {
      PopIsFlat(view, n);
      vs := valueStack[|valueStack| - n..];
      valueStack := valueStack[..|valueStack| - n];
      view := view.WithOperands(Drop(view.Operands(), n));
    }

    /** Writing through `getTopN`. */
    method SetTopN(offset: nat, v: V)
      requires Valid() && 0 < offset <= |valueStack|
      modifies this
      ensures Valid() && |old(valueStack)| == Size(old(view)) && view == Store(old(view), offset, v)
    {
      SizeIs(view);
      StoreIsFlat(view, offset, v);
      valueStack := valueStack[|valueStack| - offset := v];
      view := Store(view, offset, v);
    }

    method PushFrame(mod: M, from: int, localNum: nat, arity: nat, isTailCall: bool)
      requires Valid() && localNum <= |view.Operands()| && (isTailCall ==> view.Act?)
      modifies this
      ensures Valid()
      ensures view == if isTailCall then TailCall(old(view), mod, localNum, arity)
                      else Call(old(view), mod, from, localNum, arity)
    {
      if !isTailCall {
        CallIsFlat(view, mod, from, localNum, arity);
        frameStack := frameStack + [Frame(mod, from, localNum, arity, |valueStack|, [])];
        view := Call(view, mod, from, localNum, arity);
      } else {
        TailCallIsFlat(view, mod, localNum, arity);
        ghost var cut := ActivationSplits(view, localNum);
        EraseCut(Values(view.outer), cut, Top(view.operands, localNum));
        FramesEnd(view);
        var back := frameStack[|frameStack| - 1];
        assert frameStack != [] && back.vpos >= back.locals;  // the source's `assuming`
        assert back.vpos - back.locals <= |valueStack| - localNum;
        valueStack := Erase(valueStack, back.vpos - back.locals, |valueStack| - localNum);
        frameStack := frameStack[..|frameStack| - 1]
          + [back.(mod := mod, locals := localNum, arity := arity, vpos := |valueStack|, handlers := [])];
        view := TailCall(view, mod, localNum, arity);
      }
    }

    method PopFrame() returns (from: int)
      requires Valid() && view.Act? && view.arity <= |view.Operands()|
      modifies this
      ensures Valid() && view == Return(old(view)) && from == old(view).from
    {
      valueStack, frameStack, from := PopFrameOf(valueStack, frameStack, view);
      view := Return(view);
    }

    method PushHandler(pc: int, jumpEnd: nat, blockParamNum: nat, catches: C)
      requires Valid() && view.Act? && blockParamNum <= |view.Operands()|
      modifies this
      ensures Valid() && view == Enter(old(view), pc, jumpEnd, blockParamNum, catches)
    {
      EnterIsFlat(view, pc, jumpEnd, blockParamNum, catches);
      FramesEnd(view);
      var back := frameStack[|frameStack| - 1];
      var h := Handler(pc, jumpEnd, |valueStack| - blockParamNum, catches);
      frameStack := frameStack[..|frameStack| - 1] + [back.(handlers := back.handlers + [h])];
      view := Enter(view, pc, jumpEnd, blockParamNum, catches);
    }

    method RemoveInactiveHandler(pc: int)
      requires Valid() && view.Act?
      modifies this
      ensures Valid() && view == Trim(old(view), pc)
    {
      ghost var ts := view.tries;
      FramesEnd(view);
      var back := frameStack[|frameStack| - 1];
      var hs := TrimHandlers(back.handlers, ts, Base(view), pc);
      frameStack := frameStack[..|frameStack| - 1] + [back.(handlers := hs)];
      view := Trim(view, pc);
    }

    method EraseValueStack(eraseBegin: nat, eraseEnd: nat)
      requires Valid() && eraseEnd <= eraseBegin <= |valueStack|
      modifies this
      ensures frameStack == old(frameStack)
      ensures valueStack == Erase(old(valueStack), |old(valueStack)| - eraseBegin, |old(valueStack)| - eraseEnd)
      ensures eraseBegin <= |old(view).Operands()| ==> Valid() && view == Branch(old(view), eraseBegin, eraseEnd)
    {
      valueStack := EraseValues(valueStack, eraseBegin, eraseEnd, view);
      if eraseBegin <= |view.Operands()| { view := Branch(view, eraseBegin, eraseEnd); }
    }

    method PopTopHandler(assocValSize: nat) returns (handler: Option<Handler<C>>)
      requires Valid() && CanThrow(view, assocValSize)
      modifies this
      ensures Valid()
      ensures Popped(old(valueStack), old(view), assocValSize, valueStack, view, handler)
    {
      ghost var next := AfterPop(view, assocValSize, valueStack);
      valueStack, frameStack, handler := PopHandlerOf(valueStack, frameStack, assocValSize, view);
      view := next;
    }

    /** The end of a try block. */
    method PopHandler()
      requires Valid() && view.Act? && view.tries != []
      modifies this
      ensures Valid() && view == Leave(old(view))
    {
      frameStack := DropHandler(frameStack, view);
      view := Leave(view);
    }

    method MaybePopFrameOrHandler(pc: int, isExprLast: bool, isTryBlockLast: bool) returns (next: int)
      requires Valid()
      requires view.Depth() > 1 && isExprLast ==> view.arity <= |view.Operands()|
      requires !(view.Depth() > 1 && isExprLast) && isTryBlockLast ==> view.Act? && view.tries != []
      modifies this
      ensures Valid()
      ensures if old(view).Depth() > 1 && isExprLast then view == Return(old(view)) && next == old(view).from
              else next == pc && view == if isTryBlockLast then Leave(old(view)) else old(view)
    {
      FramesDepth(view);
      if |frameStack| > 1 && isExprLast {
        next := PopFrame();
        return;
      }
      if isTryBlockLast {
        PopHandler();
      }
      return pc;
    }

    method Reset()
      modifies this
      ensures Valid() && view == Bottom([])
    {
      valueStack, frameStack, view := [], [], Bottom([]);
    }
  }
}
