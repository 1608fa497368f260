/** Whole runs of stack operations. */
module StackRuns {
  import opened Activations
  import opened StackManager

  datatype Op<V, M, C> =
    | Push(v: V)
    | Pop(n: nat)
    | Store(offset: nat, v: V)
    | Call(mod: M, from: int, args: nat, arity: nat)
    | TailCall(mod: M, args: nat, arity: nat)
    | Return
    | Enter(pc: int, jumpEnd: nat, params: nat, catches: C)
    | Leave
    | Trim(pc: int)
    | Branch(begin: nat, end: nat)
    | Throw(values: nat)

  /** What an operation needs: it finds its operands in the innermost activation, its frame and its
      try block exist, and a throw finds the values under the block where it lands. */
  predicate Legal<V, M, C>(n: Nested<V, M, C>, op: Op<V, M, C>) {
    match op
    case Push(_) => true
    case Pop(k) => k <= |n.Operands()|
    case Store(offset, _) => n.Act? && 0 < offset <= |n.operands| + |n.locals|
    case Call(_, _, args, _) => args <= |n.Operands()|
    case TailCall(_, args, _) => n.Act? && args <= |n.operands|
    case Return => n.Act? && n.arity <= |n.operands|
    case Enter(_, _, params, _) => n.Act? && params <= |n.operands|
    case Leave => n.Act? && n.tries != []
    case Trim(_) => n.Act?
    case Branch(begin, end) => end <= begin <= |n.Operands()|
    case Throw(values) => CanThrow(n, values)
  }

  ghost function Step<V, M, C>(n: Nested<V, M, C>, op: Op<V, M, C>): Nested<V, M, C>
    requires Legal(n, op)
  {
    match op
    case Push(v) => n.WithOperands(n.Operands() + [v])
    case Pop(k) => n.WithOperands(Drop(n.Operands(), k))
    case Store(offset, v) => Activations.Store(n, offset, v)
    case Call(mod, from, args, arity) => Activations.Call(n, mod, from, args, arity)
    case TailCall(mod, args, arity) => Activations.TailCall(n, mod, args, arity)
    case Return => Activations.Return(n)
    case Enter(pc, jumpEnd, params, catches) => Activations.Enter(n, pc, jumpEnd, params, catches)
    case Leave => Activations.Leave(n)
    case Trim(pc) => Activations.Trim(n, pc)
    case Branch(begin, end) => Activations.Branch(n, begin, end)
    case Throw(values) => if Catching(n).Bottom? then Bottom(Values(n)) else Thrown(n, values)
  }

  ghost predicate LegalRun<V, M, C>(n: Nested<V, M, C>, ops: seq<Op<V, M, C>>)
    decreases |ops|
  {
    ops == [] || (Legal(n, ops[0]) && LegalRun(Step(n, ops[0]), ops[1..]))
  }

  ghost function Run<V, M, C>(n: Nested<V, M, C>, ops: seq<Op<V, M, C>>): Nested<V, M, C>
    requires LegalRun(n, ops)
    decreases |ops|
  {
    if ops == [] then n else Run(Step(n, ops[0]), ops[1..])
  }

  // ----- the flat stack follows every legal run -----

  method Apply<V, M, C>(sm: StackManager<V, M, C>, op: Op<V, M, C>)
    requires sm.Valid() && Legal(sm.view, op)
    modifies sm
    ensures sm.Valid() && sm.view == Step(old(sm.view), op)
  {
    match op {
      case Push(v) => sm.Push(v);
      case Pop(k) => var _ := sm.PopN(k);
      case Store(offset, v) =>
        SizeIs(sm.view);
        sm.SetTopN(offset, v);
      case Call(mod, from, args, arity) => sm.PushFrame(mod, from, args, arity, false);
      case TailCall(mod, args, arity) => sm.PushFrame(mod, 0, args, arity, true);
      case Return => var _ := sm.PopFrame();
      case Enter(pc, jumpEnd, params, catches) => sm.PushHandler(pc, jumpEnd, params, catches);
      case Leave => sm.PopHandler();
      case Trim(pc) => sm.RemoveInactiveHandler(pc);
      case Branch(begin, end) =>
        PopIsFlat(sm.view, begin);
        sm.EraseValueStack(begin, end);
      case Throw(values) => CatchingIff(sm.view); var _ := sm.PopTopHandler(values);
    }
  }

  /** Along a legal run the flat stack stays the flat form of the nested one. That runs are legal,
      throws included, is derived in the module about sound runs. */
  method Execute<V, M, C>(sm: StackManager<V, M, C>, ops: seq<Op<V, M, C>>)
    requires sm.Valid() && LegalRun(sm.view, ops)
    modifies sm
    ensures sm.Valid() && sm.view == Run(old(sm.view), ops)
  {
    for i := 0 to |ops|
      invariant sm.Valid() && LegalRun(sm.view, ops[i..])
      invariant Run(sm.view, ops[i..]) == Run(old(sm.view), ops)
    {
      assert ops[i..][0] == ops[i] && ops[i..][1..] == ops[i + 1..];
      Apply(sm, ops[i]);
    }
  }

  // ----- what each operation does to the flat values -----

  /** The values after an operation, from those before it: operations of one activation. */
  lemma StepValues<V, M, C>(n: Nested<V, M, C>, op: Op<V, M, C>)
    requires Legal(n, op)
    ensures op.Push? ==> Values(Step(n, op)) == Values(n) + [op.v]
    ensures op.Pop? ==> op.n <= |Values(n)| && Values(Step(n, op)) == Drop(Values(n), op.n)
    ensures op.Enter? || op.Leave? || op.Trim? ==> Values(Step(n, op)) == Values(n)
  {
    match op
    case Push(v) => PushIsFlat(n, [v]);
    case Pop(k) => PopIsFlat(n, k);
    case _ =>
  }

  lemma StoreStep<V, M, C>(n: Nested<V, M, C>, offset: nat, v: V)
    requires n.Act? && 0 < offset <= |n.operands| + |n.locals|
    ensures var vs := Values(n);
            offset <= |vs| && Values(Step(n, Op<V, M, C>.Store(offset, v))) == vs[|vs| - offset := v]
  {
    StoreIsFlat(n, offset, v);
  }

  lemma BranchStep<V, M, C>(n: Nested<V, M, C>, vs: seq<V>, begin: nat, end: nat)
    requires vs == Values(n) && end <= begin <= |n.Operands()|
    ensures begin <= |vs| && Values(Step(n, Op<V, M, C>.Branch(begin, end))) == Erase(vs, |vs| - begin, |vs| - end)
  {
    BranchErases(n, vs, begin, end);
  }

  /** Calls, tail calls and returns. */
  lemma CallStepValues<V, M, C>(n: Nested<V, M, C>, op: Op<V, M, C>)
    requires Legal(n, op)
    ensures op.Call? ==> Values(Step(n, op)) == Values(n)
    ensures op.TailCall? ==>
              op.args <= |Values(n)| && Values(Step(n, op)) == Values(n.outer) + Top(Values(n), op.args)
    ensures op.Return? ==>
              n.arity <= |Values(n)| && Values(Step(n, op)) == Values(n.outer) + Top(Values(n), n.arity)
  {
    match op
    case Call(mod, from, args, arity) => CallIsFlat(n, mod, from, args, arity);
    case TailCall(mod, args, arity) =>
      TailCallIsFlat(n, mod, args, arity);
      PopIsFlat(n, args);
    case Return =>
      ReturnIsFlat(n);
      PopIsFlat(n, n.arity);
    case _ =>
  }

  /** Throws. */
  lemma ThrowStepValues<V, M, C>(n: Nested<V, M, C>, values: nat)
    requires CanThrow(n, values)
    ensures Catching(n).Bottom? ==> Values(Step(n, Op<V, M, C>.Throw(values))) == Values(n)
    ensures Catching(n).Act? ==>
              && Landing(n).vpos + values <= |Values(n)|
              && Values(Step(n, Op<V, M, C>.Throw(values))) == Erase(Values(n), Landing(n).vpos, |Values(n)| - values)
  {
    if Catching(n).Bottom? {
      EmptyBelow(Values(n));
    } else {
      var kept, cut, thrown := ThrowIsFlat(n, values);
      EraseCut(kept, cut, thrown);
    }
  }

  /** The frames after an operation, from those before it. */
  lemma StepFrames<V, M, C>(n: Nested<V, M, C>, op: Op<V, M, C>)
    requires Legal(n, op)
    ensures op.Push? || op.Pop? || op.Store? || op.Branch? ==> Frames(Step(n, op)) == Frames(n)
    ensures op.Call? ==>
              Frames(Step(n, op)) == Frames(n) + [Frame(op.mod, op.from, op.args, op.arity, |Values(n)|, [])]
    ensures op.TailCall? ==>
              Frames(Step(n, op)) == Frames(n.outer)
                                   + [Frame(op.mod, n.from, op.args, op.arity, |Values(n.outer)| + op.args, [])]
    ensures op.Return? ==> Frames(Step(n, op)) == Frames(n.outer)
  {
    match op
    case Push(v) => PushIsFlat(n, [v]);
    case Pop(k) => PopIsFlat(n, k);
    case Store(offset, v) => StoreIsFlat(n, offset, v);
    case Branch(begin, end) => BranchErases(n, Values(n), begin, end);
    case Call(mod, from, args, arity) => CallIsFlat(n, mod, from, args, arity);
    case TailCall(mod, args, arity) => TailCallIsFlat(n, mod, args, arity);
    case Return => ReturnIsFlat(n);
    case _ =>
  }

  /** The innermost frame after an operation on its handlers: entering a try block, */
  lemma EnterStep<V, M, C>(n: Nested<V, M, C>, pc: int, jumpEnd: nat, params: nat, catches: C)
    requires n.Act? && params <= |n.operands|
    ensures var m, f := Step(n, Op<V, M, C>.Enter(pc, jumpEnd, params, catches)), FrameOf(n);
            && params <= |Values(n)|
            && Frames(m) == Frames(n.outer)
                          + [f.(handlers := f.handlers + [Handler(pc, jumpEnd, |Values(n)| - params, catches)])]
  {
    EnterIsFlat(n, pc, jumpEnd, params, catches);
  }

  /** leaving one, */
  lemma LeaveStep<V, M, C>(n: Nested<V, M, C>)
    requires n.Act? && n.tries != []
    ensures var m, f := Step(n, Op<V, M, C>.Leave), FrameOf(n);
            && f.handlers != []
            && Frames(m) == Frames(n.outer) + [f.(handlers := f.handlers[..|f.handlers| - 1])]
  {
    HandlersPrefix(n.tries, |n.tries| - 1, Base(n));
  }

  /** and trimming them. */
  lemma TrimStep<V, M, C>(n: Nested<V, M, C>, pc: int)
    requires n.Act?
    ensures var m, f, k := Step(n, Op<V, M, C>.Trim(pc)), FrameOf(n), |Trimmed(n.tries, pc)|;
            k <= |f.handlers| && Frames(m) == Frames(n.outer) + [f.(handlers := f.handlers[..k])]
  {
    var k := |Trimmed(n.tries, pc)|;
    assert Trimmed(n.tries, pc) == n.tries[..k];
    HandlersPrefix(n.tries, k, Base(n));
  }

  // ----- callers are left alone -----

  /** The activation at depth d. */
  function At<V, M, C>(n: Nested<V, M, C>, d: nat): Nested<V, M, C>
    requires d <= n.Depth()
  {
    if d == n.Depth() then n else At(n.outer, d)
  }

  lemma {:induction false} CatchingAt<V, M, C>(n: Nested<V, M, C>, d: nat)
    requires d <= Catching(n).Depth()
    ensures d <= n.Depth() && At(Catching(n), d) == At(n, d)
  {
    if n.Act? && n.tries == [] { CatchingAt(n.outer, d); }
  }

  /** While an activation is on the stack, no operation changes its callers or its return address,
      and only a tail call of its own changes its module and its arity. */
  lemma StepKeepsCaller<V, M, C>(n: Nested<V, M, C>, op: Op<V, M, C>, d: nat)
    requires d < n.Depth() && Legal(n, op) && d < Step(n, op).Depth()
    ensures var a, b := At(n, d + 1), At(Step(n, op), d + 1);
            && a.Act? && b.Act? && b.outer == a.outer && b.from == a.from
            && (b.mod, b.arity) == if op.TailCall? && n.Depth() == d + 1 then (op.mod, op.arity) else (a.mod, a.arity)
  {
    match op {
      case Throw(values) =>
        CatchingAt(n, d + 1);
        ReplacedAt(Catching(n), Step(n, op), d);
      case Return =>
        ReplacedAt(n.outer, Step(n, op), d);
      case Call(_, _, args, _) =>
        ReplacedAt(n, n.WithOperands(Drop(n.Operands(), args)), d);
      case _ =>
        ReplacedAt(n, Step(n, op), d);
    }
  }

  /** Changing the innermost activation, but not its caller. */
  lemma ReplacedAt<V, M, C>(n: Nested<V, M, C>, m: Nested<V, M, C>, d: nat)
    requires n.Act? && m.Act? && m.outer == n.outer && m.from == n.from && d < n.Depth()
    ensures d < m.Depth()
    ensures var a, b := At(n, d + 1), At(m, d + 1);
            && a.Act? && b.Act? && b.outer == a.outer && b.from == a.from
            && (b.mod, b.arity) == if d + 1 == n.Depth() then (m.mod, m.arity) else (a.mod, a.arity)
  {
    if d + 1 < n.Depth() { AtIsAct(n.outer, d); }
  }

  lemma {:induction false} AtIsAct<V, M, C>(n: Nested<V, M, C>, d: nat)
    requires d < n.Depth()
    ensures At(n, d + 1).Act? && At(n, d + 1).Depth() == d + 1
  {
    if d + 1 < n.Depth() { AtIsAct(n.outer, d); }
  }

  /** Every state of the run, from the first to the last, has more than d activations. */
  ghost predicate StaysAbove<V, M, C>(n: Nested<V, M, C>, ops: seq<Op<V, M, C>>, d: nat)
    requires LegalRun(n, ops)
    decreases |ops|
  {
    d < n.Depth() && (ops == [] || StaysAbove(Step(n, ops[0]), ops[1..], d))
  }

  /** The module and the arity of the activation above depth d after a run: those of the last tail
      call that it made itself. */
  ghost function Callee<V, M, C>(n: Nested<V, M, C>, ops: seq<Op<V, M, C>>, d: nat, mod: M, arity: nat): (M, nat)
    requires LegalRun(n, ops)
    decreases |ops|
  {
    if ops == [] then (mod, arity)
    else if ops[0].TailCall? && n.Depth() == d + 1 then
      Callee(Step(n, ops[0]), ops[1..], d, ops[0].mod, ops[0].arity)
    else
      Callee(Step(n, ops[0]), ops[1..], d, mod, arity)
  }

  lemma {:induction false} RunKeepsCaller<V, M, C>(n: Nested<V, M, C>, ops: seq<Op<V, M, C>>, d: nat)
    requires LegalRun(n, ops) && StaysAbove(n, ops, d)
    ensures d < Run(n, ops).Depth()
    ensures var a, b := At(n, d + 1), At(Run(n, ops), d + 1);
            && a.Act? && b.Act? && b.outer == a.outer && b.from == a.from
            && (b.mod, b.arity) == Callee(n, ops, d, a.mod, a.arity)
    decreases |ops|
  {
    if ops == [] {
      AtIsAct(n, d);
    } else {
      StepKeepsCaller(n, ops[0], d);
      RunKeepsCaller(Step(n, ops[0]), ops[1..], d);
    }
  }

  /** A call, any run of the callee and of what it calls, and the return: the caller finds its own
      values, with the arguments replaced by the results, and its frames, and continues at its
      return address. */
  lemma CallReturns<V, M, C>(n: Nested<V, M, C>, mod: M, from: int, args: nat, arity: nat, ops: seq<Op<V, M, C>>)
    requires args <= |n.Operands()|
    requires var callee := Activations.Call(n, mod, from, args, arity);
             && LegalRun(callee, ops) && StaysAbove(callee, ops, n.Depth())
             && var m := Run(callee, ops);
             m.Depth() == n.Depth() + 1 && m.arity <= |m.operands|
    ensures var m := Run(Activations.Call(n, mod, from, args, arity), ops);
            && m.from == from
            && args <= |Values(n)| && m.arity <= |Values(m)|
            && Values(Activations.Return(m)) == Drop(Values(n), args) + Top(Values(m), m.arity)
            && Frames(Activations.Return(m)) == Frames(n)
  {
    var callee := Activations.Call(n, mod, from, args, arity);
    var m := Run(callee, ops);
    RunKeepsCaller(callee, ops, n.Depth());
    PopIsFlat(n, args);
    PopIsFlat(m, m.arity);
    ReturnIsFlat(m);
  }

  // ----- tail calls -----

  /** However many tail calls an activation makes, among operations of its own, throws that it or its
      callees catch, and calls that return, its depth, its caller, its return address and its frame
      base stay. Its module and its arity are those of its last tail call. */
  lemma TailCallsStay<V, M, C>(n: Nested<V, M, C>, ops: seq<Op<V, M, C>>)
    requires n.Act? && LegalRun(n, ops) && StaysAbove(n, ops, n.outer.Depth())
    requires Run(n, ops).Depth() == n.Depth()
    ensures var m := Run(n, ops);
            && m.Act? && m.outer == n.outer && m.from == n.from
            && FrameOf(m).vpos - FrameOf(m).locals == FrameOf(n).vpos - FrameOf(n).locals
            && (m.mod, m.arity) == Callee(n, ops, n.outer.Depth(), n.mod, n.arity)
  {
    RunKeepsCaller(n, ops, n.outer.Depth());
  }

  /** One return after all these tail calls ends the first call: the caller finds its own values, with
      its arguments replaced by the results of the last callee, and continues at its return address. */
  lemma TailCallsReturn<V, M, C>(n: Nested<V, M, C>, mod: M, from: int, args: nat, arity: nat, ops: seq<Op<V, M, C>>)
    requires args <= |n.Operands()|
    requires var callee := Activations.Call(n, mod, from, args, arity);
             && LegalRun(callee, ops) && StaysAbove(callee, ops, n.Depth())
             && var m := Run(callee, ops);
             m.Depth() == n.Depth() + 1 && m.arity <= |m.operands|
    ensures var callee := Activations.Call(n, mod, from, args, arity);
            var m := Run(callee, ops);
            && m.from == from && args <= |Values(n)|
            && m.arity == Callee(callee, ops, n.Depth(), mod, arity).1
            && Values(Activations.Return(m)) == Drop(Values(n), args) + Top(m.operands, m.arity)
            && Frames(Activations.Return(m)) == Frames(n)
  {
    var callee := Activations.Call(n, mod, from, args, arity);
    var m := Run(callee, ops);
    CallReturns(n, mod, from, args, arity, ops);
    RunKeepsCaller(callee, ops, n.Depth());
    TopAbove(Below(m), m.operands, m.arity);
  }

  /** The operations of one activation and of the calls that it makes, `level` calls deep: every call
      returns, the activation itself does not, and nothing is thrown. Tail calls may stand anywhere. */
  predicate WithinCall<V, M, C>(ops: seq<Op<V, M, C>>, level: nat)
    decreases |ops|
  {
    if ops == [] then level == 0
    else
      match ops[0]
      case Call(_, _, _, _) => WithinCall(ops[1..], level + 1)
      case Return => level > 0 && WithinCall(ops[1..], level - 1)
      case Throw(_) => false
      case _ => WithinCall(ops[1..], level)
  }

  /** Such operations meet the conditions of the lemmas above. */
  lemma {:induction false} WithinCallStays<V, M, C>(n: Nested<V, M, C>, ops: seq<Op<V, M, C>>, d: nat, level: nat)
    requires LegalRun(n, ops) && WithinCall(ops, level) && n.Depth() == d + 1 + level
    ensures StaysAbove(n, ops, d) && Run(n, ops).Depth() == d + 1
    decreases |ops|
  {
    if ops != [] {
      var next := match ops[0] case Call(_, _, _, _) => level + 1 case Return => level - 1 case _ => level;
      DepthOfStep(n, ops[0]);
      WithinCallStays(Step(n, ops[0]), ops[1..], d, next);
    }
  }

  lemma DepthOfStep<V, M, C>(n: Nested<V, M, C>, op: Op<V, M, C>)
    requires Legal(n, op) && !op.Throw?
    ensures Step(n, op).Depth() == n.Depth() + if op.Call? then 1 else if op.Return? then -1 else 0
  {
  }

  // ----- the order of the offsets -----

  /** Frames follow each other without overlap, and handlers lie above the base of their frame. */
  lemma {:induction false} OffsetsOrdered<V, M, C>(n: Nested<V, M, C>, i: nat)
    requires i < |Frames(n)|
    ensures var fs := Frames(n);
            && fs[i].locals <= fs[i].vpos <= |Values(n)|
            && (i + 1 < |fs| ==> fs[i].vpos <= fs[i + 1].vpos - fs[i + 1].locals)
            && (forall h | h in fs[i].handlers :: fs[i].vpos <= h.vpos)
  {
    FramesEnd(n);
    if i + 1 < |Frames(n)| {
      OffsetsOrdered(n.outer, i);
      if i + 1 == |Frames(n)| - 1 {
        FramesEnd(n.outer);
      }
    }
  }
}
