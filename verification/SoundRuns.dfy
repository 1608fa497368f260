/** Runs along which every assumption of the stack manager holds, those of a throw included. */
module SoundRuns {
  import opened Activations
  import opened StackManager
  import opened StackRuns
  import opened TryBlocks
  import opened CatchTargets
  import opened Exceptions
  import opened Options

  /** The heights of the open try blocks rise. */
  predicate Rising<C>(ts: seq<Try<C>>) {
    forall i, j | 0 <= i < j < |ts| :: ts[i].height <= ts[j].height
  }

  lemma {:induction false} HeightsIff<M, C>(ts: seq<Try<C>>, top: nat, mod: M)
    ensures HeightsTo(ts, top, mod, Nothing) <==> Rising(ts) && (ts != [] ==> ts[|ts| - 1].height <= top)
  {
    if ts != [] {
      HeightsIff(ts[..|ts| - 1], ts[|ts| - 1].height, mod);
      RisingFront(ts);
    }
  }

  lemma RisingFront<C>(ts: seq<Try<C>>)
    requires ts != []
    ensures var front := ts[..|ts| - 1];
            Rising(ts) <==> Rising(front) && (front != [] ==> front[|front| - 1].height <= ts[|ts| - 1].height)
  {
    var front, last := ts[..|ts| - 1], ts[|ts| - 1];
    if Rising(ts) {
      forall i, j | 0 <= i < j < |front| ensures front[i].height <= front[j].height {
        assert front[i] == ts[i] && front[j] == ts[j];
      }
    }
    if Rising(front) && (front != [] ==> front[|front| - 1].height <= last.height) {
      forall i, j | 0 <= i < j < |ts| ensures ts[i].height <= ts[j].height {
        assert ts[i] == front[i];
        if j < |front| { assert ts[j] == front[j]; }
        if i < |front| - 1 { assert front[i].height <= front[|front| - 1].height; }
      }
    }
  }

  /** In the innermost activation the try blocks may reach above the operands, as they do after a
      branch out of them. In the activations of the callers they do not. */
  predicate Sound<V, M, C>(n: Nested<V, M, C>) {
    n.Act? ==> Rising(n.tries) && Stacked(n.outer)
  }

  /** The operands under the innermost open try block. */
  function Floor<V, M, C>(n: Nested<V, M, C>): nat {
    if n.Bottom? || n.tries == [] then 0 else Innermost(n).height
  }

  /** The arguments of a call, the parameters of a try block and the values of a throw lie above the
      innermost open try block. Validated code gives this for calls and throws, before which stale
      handlers are trimmed. It gives it for a try block unless a stale handler is on top, because
      nothing is trimmed there. A pop or a branch may go below the innermost open try block, and
      nothing is asked about the try blocks that a throw will find. */
  predicate Permitted<V, M, C>(n: Nested<V, M, C>, op: Op<V, M, C>) {
    match op
    case Call(_, _, args, _) => Floor(n) + args <= |n.Operands()|
    case Enter(_, _, params, _) => n.Act? && Floor(n) + params <= |n.operands|
    case Throw(values) => Floor(n) + values <= |n.Operands()|
    case _ => Legal(n, op)
  }

  ghost predicate PermittedRun<V, M, C>(n: Nested<V, M, C>, ops: seq<Op<V, M, C>>)
    decreases |ops|
  {
    ops != [] ==>
      && Permitted(n, ops[0])
      && (Legal(n, ops[0]) ==> PermittedRun(Step(n, ops[0]), ops[1..]))
  }

  lemma SoundIsStackedIff<V, M, C>(n: Nested<V, M, C>)
    requires Sound(n)
    ensures Stacked(n) <==> Floor(n) <= |n.Operands()|
  {
    if n.Act? {
      HeightsIff(n.tries, |n.operands|, n.mod);
      StackedSuffices(n, Nothing);
    }
  }

  lemma StackedIsSound<V, M, C>(n: Nested<V, M, C>)
    requires Stacked(n)
    ensures Sound(n)
  {
    if n.Act? {
      HeightsIff(n.tries, |n.operands|, n.mod);
      StackedSuffices(n, Nothing);
    }
  }

  lemma StackedCanThrow<V, M, C>(n: Nested<V, M, C>, values: nat)
    requires Stacked(n) && Floor(n) + values <= |n.Operands()|
    ensures CanThrow(n, values)
  {
    StackedToCanThrow(n, Nothing);
  }

  lemma TrimmedRising<C>(ts: seq<Try<C>>, pc: int)
    requires Rising(ts)
    ensures Rising(Trimmed(ts, pc))
  {
    var r := Trimmed(ts, pc);
    forall i, j | 0 <= i < j < |r| ensures r[i].height <= r[j].height {
      assert r[i] == ts[i] && r[j] == ts[j];
    }
  }

  /** A call and a try block keep a sound stack sound exactly when they are permitted. */
  lemma CallKeepsSoundIff<V, M, C>(n: Nested<V, M, C>, mod: M, from: int, args: nat, arity: nat)
    requires Sound(n) && args <= |n.Operands()|
    ensures Sound(Activations.Call(n, mod, from, args, arity)) <==> Floor(n) + args <= |n.Operands()|
  {
    SoundIsStackedIff(n.WithOperands(Drop(n.Operands(), args)));
  }

  lemma EnterKeepsSoundIff<V, M, C>(n: Nested<V, M, C>, pc: int, jumpEnd: nat, params: nat, catches: C)
    requires Sound(n) && n.Act? && params <= |n.operands|
    ensures Sound(Activations.Enter(n, pc, jumpEnd, params, catches)) <==> Floor(n) + params <= |n.operands|
  {
    var t := Try(pc, jumpEnd, |n.operands| - params, catches);
    var ts := n.tries + [t];
    assert ts[..|ts| - 1] == n.tries;
    RisingFront(ts);
  }

  lemma ReturnIsStacked<V, M, C>(n: Nested<V, M, C>)
    requires Sound(n) && n.Act? && n.arity <= |n.operands|
    ensures Stacked(Activations.Return(n))
  {
    StackedIsSound(n.outer);
    SoundIsStackedIff(n.outer);
    SoundIsStackedIff(Activations.Return(n));
  }

  lemma ThrowIsLegal<V, M, C>(n: Nested<V, M, C>, values: nat)
    requires Sound(n) && Floor(n) + values <= |n.Operands()|
    ensures CanThrow(n, values) && Sound(Step(n, Op<V, M, C>.Throw(values)))
  {
    SoundIsStackedIff(n);
    StackedCanThrow(n, values);
    if Catching(n).Act? {
      ThrownIsStacked(n, values);
      StackedIsSound(Thrown(n, values));
    }
  }

  lemma StepKeepsSound<V, M, C>(n: Nested<V, M, C>, op: Op<V, M, C>)
    requires Sound(n) && Permitted(n, op)
    ensures Legal(n, op) && Sound(Step(n, op))
  {
    match op
    case Call(mod, from, args, arity) => CallKeepsSoundIff(n, mod, from, args, arity);
    case Return =>
      ReturnIsStacked(n);
      StackedIsSound(Activations.Return(n));
    case Enter(pc, jumpEnd, params, catches) => EnterKeepsSoundIff(n, pc, jumpEnd, params, catches);
    case Trim(pc) => TrimmedRising(n.tries, pc);
    case Throw(values) => ThrowIsLegal(n, values);
    case _ =>
  }

  /** Every permitted run is legal: no operation of it, and no throw, meets an assumption that fails. */
  lemma {:induction false} PermittedRunIsLegal<V, M, C>(n: Nested<V, M, C>, ops: seq<Op<V, M, C>>)
    requires Sound(n) && PermittedRun(n, ops)
    ensures LegalRun(n, ops) && Sound(Run(n, ops))
    decreases |ops|
  {
    if ops != [] {
      StepKeepsSound(n, ops[0]);
      PermittedRunIsLegal(Step(n, ops[0]), ops[1..]);
    }
  }

  /** The flat stack follows every permitted run. */
  method ExecutePermitted<V, M, C>(sm: StackManager<V, M, C>, ops: seq<Op<V, M, C>>)
    requires sm.Valid() && Sound(sm.view) && PermittedRun(sm.view, ops)
    modifies sm
    ensures sm.Valid() && Sound(sm.view)
    ensures LegalRun(old(sm.view), ops) && sm.view == Run(old(sm.view), ops)
  {
    PermittedRunIsLegal(sm.view, ops);
    Execute(sm, ops);
  }

  /** After such a run a whole throw is legal, whatever catches it, if its values lie above the
      innermost try block that is still active. */
  lemma SoundThrowLegal<V, M, C>(n: Nested<V, M, C>, pc: int, values: nat, catches: (M, C) -> bool)
    requires Sound(n) && n.Act? && Floor(Activations.Trim(n, pc)) + values <= |n.operands|
    ensures ThrowLegal(Activations.Trim(n, pc), values, catches)
  {
    var m := Activations.Trim(n, pc);
    TrimmedRising(n.tries, pc);
    SoundIsStackedIff(m);
    StackedCanThrow(m, values);
    StackedThrowLegal(m, values, catches);
  }

  /** Where the code trims first, at a call and at a throw, validation gives the condition: it keeps
      the operands of the instruction above every try block that the instruction is in. */
  lemma FloorAfterTrim<V, M, C>(n: Nested<V, M, C>, pc: int, k: nat)
    requires n.Act? && k <= |n.operands|
    requires forall i | 0 <= i < |n.tries| && n.tries[i].Active(pc) :: n.tries[i].height + k <= |n.operands|
    ensures Floor(Activations.Trim(n, pc)) + k <= |n.operands|
  {
    FirstVisitedIsActive(n.tries, pc);
    var ts := Trimmed(n.tries, pc);
    if ts != [] { assert ts[|ts| - 1] == n.tries[|ts| - 1]; }
  }

  // ------------------------------------------------------------------ stale handlers

  /** Taking the first operation of a run. */
  lemma RunFirst<V, M, C>(n: Nested<V, M, C>, op: Op<V, M, C>, ops: seq<Op<V, M, C>>)
    requires Legal(n, op) && LegalRun(Step(n, op), ops)
    ensures LegalRun(n, [op] + ops) && Run(n, [op] + ops) == Run(Step(n, op), ops)
  {
    assert ([op] + ops)[1..] == ops;
  }

  lemma RunOfThree<V, M, C>(n: Nested<V, M, C>, a: Op<V, M, C>, b: Op<V, M, C>, c: Op<V, M, C>)
    requires Legal(n, a) && Legal(Step(n, a), b) && Legal(Step(Step(n, a), b), c)
    ensures LegalRun(n, [a, b, c]) && Run(n, [a, b, c]) == Step(Step(Step(n, a), b), c)
  {
    RunFirst(Step(Step(n, a), b), c, []);
    RunFirst(Step(n, a), b, [c] + []);
    RunFirst(n, a, [b] + ([c] + []));
    assert [a] + ([b] + ([c] + [])) == [a, b, c];
  }

  /** A branch out of a try block leaves its handler behind. When a sibling block is then entered at a
      lower height and does not catch, the next pop of a throw finds too few values. */
  lemma StaleHandlerBreaksThrow<V, M, C>(mod: M, v: V, c: C)
    ensures var start: Nested<V, M, C> := Act(Bottom([]), mod, 0, 0, [], [v, v, v], []);
            var ops: seq<Op<V, M, C>> := [Op.Enter(10, 10, 0, c), Op.Branch(3, 0), Op.Enter(30, 10, 0, c)];
            && LegalRun(start, ops)
            && var n := Run(start, ops);
               && n.Act? && Activations.Trim(n, 35) == n && CanThrow(n, 0)
               && !ThrowLegal(n, 0, Nothing)
  {
    var start: Nested<V, M, C> := Act(Bottom([]), mod, 0, 0, [], [v, v, v], []);
    var enter: Op<V, M, C>, branch: Op<V, M, C> := Op.Enter(10, 10, 0, c), Op.Branch(3, 0);
    var again: Op<V, M, C> := Op.Enter(30, 10, 0, c);
    var n := start.(operands := [], tries := [Try(10, 10, 3, c), Try(30, 10, 0, c)]);
    assert Step(start, enter) == start.(tries := [Try(10, 10, 3, c)]);
    assert Step(Step(start, enter), branch) == start.(operands := [], tries := [Try(10, 10, 3, c)]);
    assert Step(Step(Step(start, enter), branch), again) == n;
    RunOfThree(start, enter, branch, again);
    assert !Rising(n.tries) by { assert n.tries[1].height < n.tries[0].height; }
    HeightsIff(n.tries, 0, mod);
    UncaughtThrowLegalIff(n, 0);
  }

  /** A branch from an inner try block to the end of the block around it: the pop at that end removes
      the stale handler, and the handler of the block that ended stays. */
  lemma StaleHandlerIsPoppedInstead<V, M, C>(mod: M, c: C)
    ensures var start: Nested<V, M, C> := Act(Bottom([]), mod, 0, 0, [], [], []);
            var ops: seq<Op<V, M, C>> := [Op.Enter(0, 100, 0, c), Op.Enter(10, 10, 0, c), Op.Branch(0, 0)];
            && LegalRun(start, ops)
            && var n := Run(start, ops);
               && n.Act? && n.tries == [Try(0, 100, 0, c), Try(10, 10, 0, c)]
               && n.tries[0].Active(100) && !n.tries[1].Active(100)
               && Activations.Leave(n).tries == [Try(0, 100, 0, c)]
  {
    var start: Nested<V, M, C> := Act(Bottom([]), mod, 0, 0, [], [], []);
    var outer: Op<V, M, C>, inner: Op<V, M, C> := Op.Enter(0, 100, 0, c), Op.Enter(10, 10, 0, c);
    var branch: Op<V, M, C> := Op.Branch(0, 0);
    var n := start.(tries := [Try(0, 100, 0, c), Try(10, 10, 0, c)]);
    assert Step(start, outer) == start.(tries := [Try(0, 100, 0, c)]);
    assert Step(Step(start, outer), inner) == n;
    assert Step(n, branch) == n;
    RunOfThree(start, outer, inner, branch);
  }

  /** The exception that the handlers with clauses 1 catch. */
  predicate One<M>(mod: M, catches: int) {
    catches == 1
  }

  /** Inside a try block, a first block is entered and left by a branch, and then a sibling of it. */
  ghost function BesideStale<V, M>(mod: M): Nested<V, M, int> {
    Act(Bottom([]), mod, 0, 0, [], [], [Try(0, 100, 0, 7), Try(10, 10, 0, 1), Try(30, 10, 0, 2)])
  }

  lemma BesideStaleIsReached<V, M>(mod: M)
    ensures var start: Nested<V, M, int> := Act(Bottom([]), mod, 0, 0, [], [], [Try(0, 100, 0, 7)]);
            var ops: seq<Op<V, M, int>> := [Op.Enter(10, 10, 0, 1), Op.Branch(0, 0), Op.Enter(30, 10, 0, 2)];
            && Sound(start) && PermittedRun(start, ops)
            && LegalRun(start, ops) && Run(start, ops) == BesideStale(mod)
  {
    var start: Nested<V, M, int> := Act(Bottom([]), mod, 0, 0, [], [], [Try(0, 100, 0, 7)]);
    var enter: Op<V, M, int>, branch: Op<V, M, int> := Op.Enter(10, 10, 0, 1), Op.Branch(0, 0);
    var again: Op<V, M, int> := Op.Enter(30, 10, 0, 2);
    var n1: Nested<V, M, int> := start.(tries := [Try(0, 100, 0, 7), Try(10, 10, 0, 1)]);
    assert Step(start, enter) == n1 && Step(n1, branch) == n1 && Step(n1, again) == BesideStale(mod);
    RunOfThree(start, enter, branch, again);
    PermittedFirst(BesideStale<V, M>(mod), []);
    PermittedFirst(n1, [again]);
    PermittedFirst(n1, [branch, again]);
    PermittedFirst(start, [enter, branch, again]);
  }

  /** A stale handler that catches. An exception thrown in the sibling, which only the first block
      catches, has legal pops and lands at the first block, although that one is not active. No active
      block catches it. */
  lemma StaleHandlerCatches<V, M>(mod: M)
    ensures var n := BesideStale<V, M>(mod);
            && Activations.Trim(n, 35) == n && ThrowLegal(n, 0, One)
            && Found(n, One) == Some(Block(1, 10, 10, 1))
            && Found(ActiveOnly(n, 35), One) == None
            && !CaughtByActive(n, 35, One)
  {
    var n := BesideStale<V, M>(mod);
    assert Trimmed(n.tries, 35) == n.tries;
    SoundThrowLegal(n, 35, 0, One);
    StaleIsFound<V, M>(mod);
    NoActiveIsFound<V, M>(mod);
    LandsAtActiveIff(n, 35, One);
  }

  lemma StaleIsFound<V, M>(mod: M)
    ensures Found(BesideStale<V, M>(mod), One) == Some(Block(1, 10, 10, 1))
  {
    var n := BesideStale<V, M>(mod);
    var t0, t1, t2 := Try(0, 100, 0, 7), Try(10, 10, 0, 1), Try(30, 10, 0, 2);
    FirstOfThree(t0, t1, t2, mod, One);
    assert n.outer.Depth() == 0;
    assert Target(n, One) == n.(tries := [t0, t1]) && Innermost(Target(n, One)) == t1;
  }

  lemma NoActiveIsFound<V, M>(mod: M)
    ensures Found(ActiveOnly(BesideStale<V, M>(mod), 35), One) == None
  {
    ActiveOfThree(Try(0, 100, 0, 7), Try(10, 10, 0, 1), Try(30, 10, 0, 2), mod, One);
    assert Target(ActiveOnly(BesideStale<V, M>(mod), 35), One).Bottom?;
  }

  lemma PermittedFirst<V, M, C>(n: Nested<V, M, C>, ops: seq<Op<V, M, C>>)
    ensures ops == [] ==> PermittedRun(n, ops)
    ensures ops != [] && Permitted(n, ops[0]) && Legal(n, ops[0]) && PermittedRun(Step(n, ops[0]), ops[1..]) ==>
              PermittedRun(n, ops)
  {
  }

  lemma FirstOfThree<M, C>(t0: Try<C>, t1: Try<C>, t2: Try<C>, mod: M, catches: (M, C) -> bool)
    requires !catches(mod, t2.catches) && catches(mod, t1.catches)
    ensures CatchingTries([t0, t1, t2], mod, catches) == [t0, t1]
  {
    assert [t0, t1, t2][..2] == [t0, t1];
  }

  lemma ActiveOfThree<M, C>(t0: Try<C>, t1: Try<C>, t2: Try<C>, mod: M, catches: (M, C) -> bool)
    requires t0.Active(35) && !t1.Active(35) && t2.Active(35)
    requires !catches(mod, t0.catches) && !catches(mod, t2.catches)
    ensures CatchingTries(ActiveTries([t0, t1, t2], 35), mod, catches) == []
  {
    assert [t0, t1, t2][..2] == [t0, t1] && [t0, t1][..1] == [t0] && [t0][..0] == [];
    assert ActiveTries([t0], 35) == [t0];
    assert ActiveTries([t0, t1], 35) == [t0];
    assert ActiveTries([t0, t1, t2], 35) == [t0, t2];
    assert [t0, t2][..1] == [t0];
    assert CatchingTries([t0], mod, catches) == [];
  }
}
