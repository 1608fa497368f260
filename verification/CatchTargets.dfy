/** Which open try block an exception lands at, and when that is an active one. */
module CatchTargets {
  import opened Options
  import opened Activations
  import opened TryBlocks

  /** The open try blocks of an activation up to the innermost one that catches. */
  function CatchingTries<M, C>(ts: seq<Try<C>>, mod: M, catches: (M, C) -> bool): seq<Try<C>> {
    if ts == [] || catches(mod, ts[|ts| - 1].catches) then ts
    else CatchingTries(ts[..|ts| - 1], mod, catches)
  }

  /** The innermost activation with a try block that catches, up to that block, or the bottom. */
  function Target<V, M, C>(n: Nested<V, M, C>, catches: (M, C) -> bool): (c: Nested<V, M, C>)
    ensures c.Act? ==> c.tries != []
  {
    if n.Bottom? then n
    else
      var ts := CatchingTries(n.tries, n.mod, catches);
      if ts != [] then n.(tries := ts) else Target(n.outer, catches)
  }

  /** No open try block of any activation catches. */
  ghost predicate Uncaught<V, M, C>(n: Nested<V, M, C>, catches: (M, C) -> bool) {
    n.Act? ==> (forall t | t in n.tries :: !catches(n.mod, t.catches)) && Uncaught(n.outer, catches)
  }

  lemma {:induction false} CatchingTriesIff<M, C>(ts: seq<Try<C>>, mod: M, catches: (M, C) -> bool)
    ensures var k := |CatchingTries(ts, mod, catches)|;
            && k <= |ts| && CatchingTries(ts, mod, catches) == ts[..k]
            && (k > 0 ==> catches(mod, ts[k - 1].catches))
            && (forall i | k <= i < |ts| :: !catches(mod, ts[i].catches))
  {
    if ts != [] && !catches(mod, ts[|ts| - 1].catches) {
      CatchingTriesIff(ts[..|ts| - 1], mod, catches);
    }
  }

  lemma {:induction false} TargetIff<V, M, C>(n: Nested<V, M, C>, catches: (M, C) -> bool)
    ensures Target(n, catches).Bottom? <==> Uncaught(n, catches)
  {
    if n.Act? {
      TargetIff(n.outer, catches);
      CatchingTriesIff(n.tries, n.mod, catches);
    }
  }

  lemma {:induction false} TargetOfCatching<V, M, C>(n: Nested<V, M, C>, catches: (M, C) -> bool)
    ensures Target(Catching(n), catches) == Target(n, catches)
  {
    if n.Act? && n.tries == [] { TargetOfCatching(n.outer, catches); }
  }

  // ------------------------------------------------------------------ active try blocks

  /** A try block of the activation at a depth. */
  datatype Block<C> = Block(depth: nat, pc: int, jumpEnd: nat, catches: C)

  /** The block where an exception lands. */
  function Found<V, M, C>(n: Nested<V, M, C>, catches: (M, C) -> bool): Option<Block<C>> {
    var c := Target(n, catches);
    if c.Bottom? then None
    else
      var t := Innermost(c);
      Some(Block(c.Depth(), t.pc, t.jumpEnd, t.catches))
  }

  /** The stack with the active try blocks only. The innermost activation is at `pc`, and each caller
      is at its call, the instruction before the return address. */
  function ActiveOnly<V, M, C>(n: Nested<V, M, C>, pc: int): Nested<V, M, C> {
    if n.Bottom? then n else n.(tries := ActiveTries(n.tries, pc), outer := ActiveOnly(n.outer, n.from - 1))
  }

  /** A call at `pc` returns to the next instruction, and its caller stays at the call. */
  lemma CallerStaysAtCall<V, M, C>(n: Nested<V, M, C>, mod: M, pc: int, args: nat, arity: nat, at: int)
    requires args <= |n.Operands()|
    ensures var callee := ActiveOnly(Call(n, mod, pc + 1, args, arity), at);
            callee.Act? && callee.outer == ActiveOnly(n.WithOperands(Drop(n.Operands(), args)), pc)
  {
  }

  /** Every stale try block that catches has an active one above it that catches. */
  predicate StaleHidden<M, C>(ts: seq<Try<C>>, pc: int, mod: M, catches: (M, C) -> bool) {
    forall i | 0 <= i < |ts| && !ts[i].Active(pc) && catches(mod, ts[i].catches) ::
      exists j | i < j < |ts| :: ts[j].Active(pc) && catches(mod, ts[j].catches)
  }

  /** The same in every activation down to the one where an active try block catches. */
  predicate CaughtByActive<V, M, C>(n: Nested<V, M, C>, pc: int, catches: (M, C) -> bool) {
    n.Act? ==>
      && StaleHidden(n.tries, pc, n.mod, catches)
      && (CatchingTries(ActiveTries(n.tries, pc), n.mod, catches) == [] ==>
            CaughtByActive(n.outer, n.from - 1, catches))
  }

  function Last<C>(ts: seq<Try<C>>): Option<Try<C>> {
    if ts == [] then None else Some(ts[|ts| - 1])
  }

  lemma {:induction false} ActiveTriesAreActive<C>(ts: seq<Try<C>>, pc: int)
    ensures forall t | t in ActiveTries(ts, pc) :: t in ts && t.Active(pc)
  {
    if ts != [] { ActiveTriesAreActive(ts[..|ts| - 1], pc); }
  }

  /** Trimming takes no active try block. */
  lemma {:induction false} TrimKeepsActive<C>(ts: seq<Try<C>>, pc: int)
    ensures ActiveTries(Trimmed(ts, pc), pc) == ActiveTries(ts, pc)
  {
    if ts != [] && !ts[|ts| - 1].Active(pc) {
      TrimKeepsActive(ts[..|ts| - 1], pc);
      assert ActiveTries(ts, pc) == ActiveTries(ts[..|ts| - 1], pc);
    }
  }

  lemma StaleHiddenFront<M, C>(ts: seq<Try<C>>, pc: int, mod: M, catches: (M, C) -> bool)
    requires ts != [] && !catches(mod, ts[|ts| - 1].catches)
    ensures StaleHidden(ts, pc, mod, catches) <==> StaleHidden(ts[..|ts| - 1], pc, mod, catches)
  {
    var front := ts[..|ts| - 1];
    if StaleHidden(ts, pc, mod, catches) {
      forall i | 0 <= i < |front| && !front[i].Active(pc) && catches(mod, front[i].catches)
        ensures exists j | i < j < |front| :: front[j].Active(pc) && catches(mod, front[j].catches)
      {
        assert ts[i] == front[i];
        var j :| i < j < |ts| && ts[j].Active(pc) && catches(mod, ts[j].catches);
        assert front[j] == ts[j];
      }
    }
    if StaleHidden(front, pc, mod, catches) {
      forall i | 0 <= i < |ts| && !ts[i].Active(pc) && catches(mod, ts[i].catches)
        ensures exists j | i < j < |ts| :: ts[j].Active(pc) && catches(mod, ts[j].catches)
      {
        assert ts[i] == front[i];
        var j :| i < j < |front| && front[j].Active(pc) && catches(mod, front[j].catches);
        assert ts[j] == front[j];
      }
    }
  }

  lemma ActiveFront<M, C>(ts: seq<Try<C>>, pc: int, mod: M, catches: (M, C) -> bool)
    requires ts != [] && !catches(mod, ts[|ts| - 1].catches)
    ensures CatchingTries(ActiveTries(ts, pc), mod, catches)
            == CatchingTries(ActiveTries(ts[..|ts| - 1], pc), mod, catches)
  {
    var front, last := ActiveTries(ts[..|ts| - 1], pc), ts[|ts| - 1];
    if last.Active(pc) { assert (front + [last])[..|front|] == front; } else { assert front + [] == front; }
  }

  /** In one activation: among all try blocks and among the active ones the same block is found first
      exactly when no stale block that catches is in front. */
  lemma {:induction false} SameBlockIff<M, C>(ts: seq<Try<C>>, pc: int, mod: M, catches: (M, C) -> bool)
    ensures Last(CatchingTries(ts, mod, catches)) == Last(CatchingTries(ActiveTries(ts, pc), mod, catches))
            <==> StaleHidden(ts, pc, mod, catches)
    ensures var first := Last(CatchingTries(ts, mod, catches));
            StaleHidden(ts, pc, mod, catches) <==> first.None? || first.value.Active(pc)
  {
    if ts != [] {
      var last := ts[|ts| - 1];
      if !catches(mod, last.catches) {
        SameBlockIff(ts[..|ts| - 1], pc, mod, catches);
        StaleHiddenFront(ts, pc, mod, catches);
        ActiveFront(ts, pc, mod, catches);
      } else if last.Active(pc) {
        assert ActiveTries(ts, pc)[|ActiveTries(ts, pc)| - 1] == last;
        assert StaleHidden(ts, pc, mod, catches) by {
          forall i | 0 <= i < |ts| && !ts[i].Active(pc) && catches(mod, ts[i].catches)
            ensures exists j | i < j < |ts| :: ts[j].Active(pc) && catches(mod, ts[j].catches)
          {
            assert ts[|ts| - 1].Active(pc) && catches(mod, ts[|ts| - 1].catches);
          }
        }
      } else {
        StaleFirst(ts, pc, mod, catches);
      }
    }
  }

  lemma StaleFirst<M, C>(ts: seq<Try<C>>, pc: int, mod: M, catches: (M, C) -> bool)
    requires ts != [] && catches(mod, ts[|ts| - 1].catches) && !ts[|ts| - 1].Active(pc)
    ensures !StaleHidden(ts, pc, mod, catches)
    ensures Last(CatchingTries(ActiveTries(ts, pc), mod, catches)) != Some(ts[|ts| - 1])
  {
    ActiveTriesAreActive(ts, pc);
    CatchingTriesIff(ActiveTries(ts, pc), mod, catches);
  }

  lemma {:induction false} ActiveDepth<V, M, C>(n: Nested<V, M, C>, pc: int)
    ensures ActiveOnly(n, pc).Depth() == n.Depth()
  {
    if n.Act? { ActiveDepth(n.outer, n.from - 1); }
  }

  lemma {:induction false} TargetDepth<V, M, C>(n: Nested<V, M, C>, catches: (M, C) -> bool)
    ensures Target(n, catches).Depth() <= n.Depth()
  {
    if n.Act? { TargetDepth(n.outer, catches); }
  }

  /** The exception lands where it would with the active try blocks alone exactly when no stale one
      that catches is in front. */
  lemma {:induction false} LandsAtActiveIff<V, M, C>(n: Nested<V, M, C>, pc: int, catches: (M, C) -> bool)
    ensures Found(n, catches) == Found(ActiveOnly(n, pc), catches) <==> CaughtByActive(n, pc, catches)
  {
    if n.Act? {
      var ts, us := CatchingTries(n.tries, n.mod, catches), CatchingTries(ActiveTries(n.tries, pc), n.mod, catches);
      SameBlockIff(n.tries, pc, n.mod, catches);
      LandsAtActiveIff(n.outer, n.from - 1, catches);
      ActiveDepth(n, pc);
      ActiveDepth(n.outer, n.from - 1);
      TargetDepth(n.outer, catches);
      TargetDepth(ActiveOnly(n.outer, n.from - 1), catches);
      if ts != [] && us != [] { FoundDiffers(n, pc, catches); }
    }
  }

  /** A stale block and an active one differ in their ranges. */
  lemma FoundDiffers<V, M, C>(n: Nested<V, M, C>, pc: int, catches: (M, C) -> bool)
    requires n.Act? && CatchingTries(n.tries, n.mod, catches) != []
    requires CatchingTries(ActiveTries(n.tries, pc), n.mod, catches) != []
    ensures Found(n, catches) == Found(ActiveOnly(n, pc), catches) <==> StaleHidden(n.tries, pc, n.mod, catches)
  {
    ActiveDepth(n, pc);
    SameBlockIff(n.tries, pc, n.mod, catches);
    FoundIsActive(n.tries, pc, n.mod, catches);
  }

  lemma FoundIsActive<M, C>(ts: seq<Try<C>>, pc: int, mod: M, catches: (M, C) -> bool)
    ensures var us := CatchingTries(ActiveTries(ts, pc), mod, catches); us != [] ==> us[|us| - 1].Active(pc)
  {
    var active := ActiveTries(ts, pc);
    ActiveTriesAreActive(ts, pc);
    CatchingTriesIff(active, mod, catches);
    var us := CatchingTries(active, mod, catches);
    if us != [] { assert us[|us| - 1] in active; }
  }
}
