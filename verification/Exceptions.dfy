/** Throwing an exception: the handlers are popped one after the other until one of them catches it.
    When every pop of a throw is legal, and with which state the throw ends. */
module Exceptions {
  import opened Options
  import opened Activations
  import opened StackManager
  import opened CatchTargets

  // ------------------------------------------------------------------ when a throw is legal

  /** Down to the first try block that catches, each try block starts at or below the height of the
      one above it, and the first at or below `top`. */
  predicate HeightsTo<M, C>(ts: seq<Try<C>>, top: nat, mod: M, catches: (M, C) -> bool) {
    ts == [] ||
    var t := ts[|ts| - 1];
    t.height <= top && (catches(mod, t.catches) || HeightsTo(ts[..|ts| - 1], t.height, mod, catches))
  }

  /** The same for every activation down to the one that catches. */
  predicate StackedTo<V, M, C>(n: Nested<V, M, C>, catches: (M, C) -> bool) {
    n.Act? ==>
      && HeightsTo(n.tries, |n.operands|, n.mod, catches)
      && (CatchingTries(n.tries, n.mod, catches) == [] ==> StackedTo(n.outer, catches))
  }

  /** Every pop that a throw makes before it is caught finds what it needs. */
  ghost predicate ThrowLegal<V, M, C>(n: Nested<V, M, C>, values: nat, catches: (M, C) -> bool)
    decreases TryCount(n)
  {
    && CanThrow(n, values)
    && (var c := Catching(n);
        c.Act? && !catches(c.mod, Innermost(c).catches) ==>
          (FewerTries(n, values); ThrowLegal(Thrown(n, values), values, catches)))
  }

  /** The number of open try blocks. */
  ghost function TryCount<V, M, C>(n: Nested<V, M, C>): nat {
    if n.Bottom? then 0 else |n.tries| + TryCount(n.outer)
  }

  lemma {:induction false} TryCountCatching<V, M, C>(n: Nested<V, M, C>)
    ensures TryCount(Catching(n)) == TryCount(n)
  {
    if n.Act? && n.tries == [] { TryCountCatching(n.outer); }
  }

  lemma FewerTries<V, M, C>(n: Nested<V, M, C>, values: nat)
    requires Catching(n).Act? && CanThrow(n, values)
    ensures TryCount(Thrown(n, values)) < TryCount(n)
  {
    TryCountCatching(n);
  }

  /** Activations without a try block make no difference. */
  lemma {:induction false} StackedToCatching<V, M, C>(n: Nested<V, M, C>, catches: (M, C) -> bool)
    ensures StackedTo(n, catches) <==> StackedTo(Catching(n), catches)
  {
    if n.Act? && n.tries == [] { StackedToCatching(n.outer, catches); }
  }

  /** Taking off a try block that does not catch. */
  lemma StackedToLeave<V, M, C>(c: Nested<V, M, C>, catches: (M, C) -> bool)
    requires c.Act? && c.tries != [] && !catches(c.mod, Innermost(c).catches)
    ensures var ts, h := Drop(c.tries, 1), Innermost(c).height;
            StackedTo(c, catches) <==>
              && h <= |c.operands| && HeightsTo(ts, h, c.mod, catches)
              && (CatchingTries(ts, c.mod, catches) == [] ==> StackedTo(c.outer, catches))
  {
  }

  /** Only the innermost try block depends on the operands. */
  lemma StackedToOperands<V, M, C>(m: Nested<V, M, C>, h: nat, catches: (M, C) -> bool)
    requires m.Act? && h <= |m.operands|
    ensures var own := m.tries == [] || Innermost(m).height <= h;
            && HeightsTo(m.tries, h, m.mod, catches)
            && (CatchingTries(m.tries, m.mod, catches) == [] ==> StackedTo(m.outer, catches))
            <==> own && StackedTo(m, catches)
  {
  }

  lemma {:induction false} StackedToCanThrow<V, M, C>(n: Nested<V, M, C>, catches: (M, C) -> bool)
    requires StackedTo(n, catches)
    ensures Catching(n).Act? ==> Innermost(Catching(n)).height <= |Catching(n).operands|
  {
    StackedToCatching(n, catches);
  }

  /** A throw past a try block that does not catch. */
  lemma StackedToThrown<V, M, C>(n: Nested<V, M, C>, values: nat, catches: (M, C) -> bool)
    requires Catching(n).Act? && CanThrow(n, values)
    requires !catches(Catching(n).mod, Innermost(Catching(n)).catches)
    ensures StackedTo(n, catches)
            <==> StackedTo(Thrown(n, values), catches) && CanThrow(Thrown(n, values), values)
  {
    var c, m := Catching(n), Thrown(n, values);
    StackedToCatching(n, catches);
    StackedToLeave(c, catches);
    StackedToOperands(m, Innermost(c).height, catches);
    if StackedTo(m, catches) { StackedToCanThrow(m, catches); }
  }

  /** A throw is legal to its end exactly when the try blocks that it visits are stacked and its first
      pop is legal. */
  lemma {:induction false} ThrowLegalIff<V, M, C>(n: Nested<V, M, C>, values: nat, catches: (M, C) -> bool)
    ensures ThrowLegal(n, values, catches) <==> StackedTo(n, catches) && CanThrow(n, values)
    decreases TryCount(n)
  {
    var c := Catching(n);
    StackedToCatching(n, catches);
    if CanThrow(n, values) && c.Act? && !catches(c.mod, Innermost(c).catches) {
      FewerTries(n, values);
      StackedToThrown(n, values, catches);
      ThrowLegalIff(Thrown(n, values), values, catches);
    }
  }

  // ------------------------------------------------------------------ exceptions that nothing catches

  predicate Nothing<M, C>(mod: M, catches: C) {
    false
  }

  /** In every activation each try block starts at or above the height of the one around it, and below
      the operands. */
  predicate Stacked<V, M, C>(n: Nested<V, M, C>) {
    StackedTo(n, Nothing)
  }

  lemma {:induction false} HeightsSuffice<M, C>(ts: seq<Try<C>>, top: nat, mod: M, catches: (M, C) -> bool)
    ensures HeightsTo(ts, top, mod, Nothing) ==> HeightsTo(ts, top, mod, catches)
    ensures CatchingTries(ts, mod, Nothing) == []
  {
    if ts != [] { HeightsSuffice(ts[..|ts| - 1], ts[|ts| - 1].height, mod, catches); }
  }

  lemma {:induction false} StackedSuffices<V, M, C>(n: Nested<V, M, C>, catches: (M, C) -> bool)
    ensures Stacked(n) ==> StackedTo(n, catches)
    ensures n.Act? ==> (Stacked(n) <==> HeightsTo(n.tries, |n.operands|, n.mod, Nothing) && Stacked(n.outer))
  {
    if n.Act? {
      StackedSuffices(n.outer, catches);
      HeightsSuffice(n.tries, |n.operands|, n.mod, catches);
    }
  }

  /** The pops of a throw that nothing catches visit every open try block. They are all legal exactly
      when all try blocks are stacked and the first pop is legal. */
  lemma UncaughtThrowLegalIff<V, M, C>(n: Nested<V, M, C>, values: nat)
    ensures ThrowLegal(n, values, Nothing) <==> Stacked(n) && CanThrow(n, values)
  {
    ThrowLegalIff(n, values, Nothing);
  }

  /** Then the pops of every other throw are legal too. */
  lemma StackedThrowLegal<V, M, C>(n: Nested<V, M, C>, values: nat, catches: (M, C) -> bool)
    requires Stacked(n) && CanThrow(n, values)
    ensures ThrowLegal(n, values, catches)
  {
    StackedSuffices(n, catches);
    ThrowLegalIff(n, values, catches);
  }

  lemma ThrownIsStacked<V, M, C>(n: Nested<V, M, C>, values: nat)
    requires Stacked(n) && Catching(n).Act? && CanThrow(n, values)
    ensures Stacked(Thrown(n, values)) && CanThrow(Thrown(n, values), values)
  {
    StackedToThrown(n, values, Nothing);
  }

  // ------------------------------------------------------------------ the loop of a throw

  lemma {:induction false} HeightsToTarget<M, C>(ts: seq<Try<C>>, top: nat, mod: M, catches: (M, C) -> bool)
    requires HeightsTo(ts, top, mod, catches)
    ensures var us := CatchingTries(ts, mod, catches); us != [] ==> us[|us| - 1].height <= top
  {
    if ts != [] && !catches(mod, ts[|ts| - 1].catches) {
      HeightsToTarget(ts[..|ts| - 1], ts[|ts| - 1].height, mod, catches);
    }
  }

  lemma {:induction false} TargetIsStacked<V, M, C>(n: Nested<V, M, C>, catches: (M, C) -> bool)
    requires StackedTo(n, catches)
    ensures var c := Target(n, catches); c.Act? ==> Innermost(c).height <= |c.operands|
  {
    if n.Act? {
      HeightsToTarget(n.tries, |n.operands|, n.mod, catches);
      if CatchingTries(n.tries, n.mod, catches) == [] { TargetIsStacked(n.outer, catches); }
    }
  }

  /** The state and the handler with which a throw ends, or none when nothing catches. */
  ghost function Outcome<V, M, C>(n: Nested<V, M, C>, thrown: seq<V>, catches: (M, C) -> bool)
    : Option<(Nested<V, M, C>, Handler<C>)>
    requires StackedTo(n, catches)
  {
    TargetIsStacked(n, catches);
    var c := Target(n, catches);
    if c.Bottom? then None else Some((Landed(c, thrown), Landing(c)))
  }

  /** A try block that does not catch makes no difference to where the exception lands, although it
      cuts the operands on the way. */
  lemma PassedOver<V, M, C>(n: Nested<V, M, C>, values: nat, catches: (M, C) -> bool)
    requires StackedTo(n, catches) && Catching(n).Act? && CanThrow(n, values)
    requires !catches(Catching(n).mod, Innermost(Catching(n)).catches)
    ensures StackedTo(Thrown(n, values), catches)
    ensures var thrown := Top(n.Operands(), values);
            Outcome(Thrown(n, values), thrown, catches) == Outcome(n, thrown, catches)
  {
    StackedToThrown(n, values, catches);
    StackedToCatching(n, catches);
    TargetOfCatching(n, catches);
    OutcomeAfter(Catching(n), Thrown(n, values).operands, Top(n.Operands(), values), catches);
  }

  lemma OutcomeAfter<V, M, C>(c: Nested<V, M, C>, ops: seq<V>, thrown: seq<V>, catches: (M, C) -> bool)
    requires StackedTo(c, catches) && c.Act? && c.tries != [] && !catches(c.mod, Innermost(c).catches)
    requires var h := Innermost(c).height; h <= |c.operands| && h <= |ops| && ops[..h] == c.operands[..h]
    requires StackedTo(c.(tries := Drop(c.tries, 1), operands := ops), catches)
    ensures Outcome(c.(tries := Drop(c.tries, 1), operands := ops), thrown, catches) == Outcome(c, thrown, catches)
  {
    var ts, h := CatchingTries(Drop(c.tries, 1), c.mod, catches), Innermost(c).height;
    StackedToLeave(c, catches);
    assert ts == CatchingTries(c.tries, c.mod, catches);
    if ts != [] {
      HeightsToTarget(Drop(c.tries, 1), h, c.mod, catches);
      LandedAgrees(c, ts, ops, h, thrown);
    }
  }

  /** Where an exception lands does not depend on operands above the try block. */
  lemma LandedAgrees<V, M, C>(c: Nested<V, M, C>, ts: seq<Try<C>>, ops: seq<V>, h: nat, thrown: seq<V>)
    requires c.Act? && ts != [] && ts[|ts| - 1].height <= h <= |c.operands|
    requires h <= |ops| && ops[..h] == c.operands[..h]
    ensures var a, b := c.(tries := ts), c.(tries := ts, operands := ops);
            Landed(a, thrown) == Landed(b, thrown) && Landing(a) == Landing(b)
  {
    var k := ts[|ts| - 1].height;
    assert ops[..k] == ops[..h][..k] == c.operands[..k];
  }

  lemma CaughtHere<V, M, C>(n: Nested<V, M, C>, values: nat, catches: (M, C) -> bool)
    requires StackedTo(n, catches) && Catching(n).Act? && CanThrow(n, values)
    requires catches(Catching(n).mod, Innermost(Catching(n)).catches)
    ensures Outcome(n, Top(n.Operands(), values), catches) == Some((Thrown(n, values), Landing(n)))
  {
    TargetOfCatching(n, catches);
  }

  lemma {:induction false} NothingCatches<V, M, C>(n: Nested<V, M, C>, catches: (M, C) -> bool)
    requires NoTries(n)
    ensures Target(n, catches).Bottom?
  {
    if n.Act? { NothingCatches(n.outer, catches); }
  }

  /** Cutting the values above `cut` in two steps is cutting them in one. */
  lemma EraseTwice<V>(vs: seq<V>, now: seq<V>, cut: nat, lower: nat, values: nat)
    requires cut + values <= |vs| && now == vs[..cut] + Top(vs, values) && lower <= cut
    ensures Erase(now, lower, |now| - values) == vs[..lower] + Top(vs, values)
  {
    assert now[..lower] == vs[..lower];
    assert now[|now| - values..] == Top(vs, values);
  }

  /** A throw of these values can go on. */
  ghost predicate Ready<V, M, C>(n: Nested<V, M, C>, values: nat, thrown: seq<V>, catches: (M, C) -> bool) {
    && StackedTo(n, catches) && CanThrow(n, values)
    && values <= |n.Operands()| && Top(n.Operands(), values) == thrown
  }

  /** One round of a throw: the top handler is popped and its catch clauses are looked at in the
      module of its frame. */
  method TryTopHandler<V, M, C>(sm: StackManager<V, M, C>, values: nat, catches: (M, C) -> bool,
                                ghost thrown: seq<V>, ghost vs: seq<V>, ghost cut: nat)
    returns (found: bool, handler: Option<Handler<C>>)
    requires sm.Valid() && Ready(sm.view, values, thrown, catches)
    requires cut + values <= |vs| && sm.valueStack == vs[..cut] + Top(vs, values)
    modifies sm
    ensures sm.Valid()
    ensures handler.None? ==> !found && Outcome(old(sm.view), thrown, catches) == None
    ensures handler.Some? ==>
              && handler.value.vpos + values <= |vs|
              && sm.valueStack == vs[..handler.value.vpos] + Top(vs, values)
    ensures found ==>
              && handler.Some? && sm.view.Act? && catches(sm.view.mod, handler.value.catches)
              && Outcome(old(sm.view), thrown, catches) == Some((sm.view, handler.value))
    ensures handler.Some? && !found ==>
              && Ready(sm.view, values, thrown, catches) && TryCount(sm.view) < TryCount(old(sm.view))
              && Outcome(sm.view, thrown, catches) == Outcome(old(sm.view), thrown, catches)
  {
    ghost var before, now := sm.view, sm.valueStack;
    handler := sm.PopTopHandler(values);
    if handler.None? {
      NothingCatches(before, catches);
      return false, None;
    }
    EraseTwice(vs, now, cut, handler.value.vpos, values);
    FramesEnd(sm.view);
    found := catches(sm.frameStack[|sm.frameStack| - 1].mod, handler.value.catches);
    if found {
      CaughtHere(before, values, catches);
    } else {
      StackedToThrown(before, values, catches);
      PassedOver(before, values, catches);
      FewerTries(before, values);
    }
  }

  lemma OutcomeIsFound<V, M, C>(n: Nested<V, M, C>, thrown: seq<V>, catches: (M, C) -> bool)
    requires StackedTo(n, catches)
    ensures match Outcome(n, thrown, catches)
            case None => Found(n, catches) == None
            case Some((m, h)) => Found(n, catches) == LandedBlock(Some(h), m)
  {
    TargetIsStacked(n, catches);
    var c := Target(n, catches);
    if c.Act? { assert Catching(c) == c && Landed(c, thrown).Depth() == c.Depth(); }
  }

  /** The block to which a caught exception was taken. */
  ghost function LandedBlock<V, M, C>(caught: Option<Handler<C>>, m: Nested<V, M, C>): Option<Block<C>> {
    match caught
    case None => None
    case Some(h) => Some(Block(m.Depth(), h.pc, h.jumpEnd, h.catches))
  }

  /** The loop of a throw: handlers are popped until one catches. */
  method Unwind<V, M, C>(sm: StackManager<V, M, C>, values: nat, catches: (M, C) -> bool)
    returns (caught: Option<Handler<C>>)
    requires sm.Valid() && sm.view.Act? && values <= |sm.view.operands|
    requires ThrowLegal(sm.view, values, catches)
    modifies sm
    ensures sm.Valid() && StackedTo(old(sm.view), catches)
    ensures caught.Some? ==> sm.view.Act? && catches(sm.view.mod, caught.value.catches)
    ensures Outcome(old(sm.view), Top(old(sm.view).operands, values), catches)
            == if caught.None? then None else Some((sm.view, caught.value))
    ensures caught.Some? ==>
              && values <= |old(sm.valueStack)| && caught.value.vpos <= |old(sm.valueStack)|
              && sm.valueStack == old(sm.valueStack)[..caught.value.vpos] + Top(old(sm.valueStack), values)
  {
    ghost var n, vs := sm.view, sm.valueStack;
    ghost var thrown := Top(n.operands, values);
    ThrowLegalIff(n, values, catches);
    PopIsFlat(n, values);
    ghost var cut: nat := |vs| - values;
    while true
      invariant sm.Valid() && Ready(sm.view, values, thrown, catches)
      invariant Outcome(sm.view, thrown, catches) == Outcome(n, thrown, catches)
      invariant cut + values <= |vs| && sm.valueStack == vs[..cut] + Top(vs, values)
      decreases TryCount(sm.view)
    {
      var found, handler := TryTopHandler(sm, values, catches, thrown, vs, cut);
      if found { return handler; }
      if handler.None? { return None; }
      cut := handler.value.vpos;
    }
  }

  /** Where a throw that ended with this outcome has landed. */
  lemma ThrowLandsAt<V, M, C>(n: Nested<V, M, C>, pc: int, thrown: seq<V>, catches: (M, C) -> bool,
                              caught: Option<Handler<C>>, m: Nested<V, M, C>)
    requires n.Act? && StackedTo(Trim(n, pc), catches)
    requires Outcome(Trim(n, pc), thrown, catches) == if caught.None? then None else Some((m, caught.value))
    ensures caught.None? <==> Uncaught(Trim(n, pc), catches)
    ensures LandedBlock(caught, m) == Found(ActiveOnly(n, pc), catches)
            <==> CaughtByActive(Trim(n, pc), pc, catches)
  {
    var r := Trim(n, pc);
    TargetIff(r, catches);
    OutcomeIsFound(r, thrown, catches);
    assert LandedBlock(caught, m) == Found(r, catches);
    TrimKeepsActive(n.tries, pc);
    assert ActiveOnly(r, pc) == ActiveOnly(n, pc);
    LandsAtActiveIff(r, pc, catches);
  }

  /** A throw. The exception lands at the innermost try block that catches it among those that trimming
      has left, over any number of try blocks and activations that do not, and the values are then the
      ones below that block followed by the thrown ones. This is the innermost active block that
      catches exactly when `CaughtByActive` holds. The pops that are made must be legal; when this is
      so is said by `ThrowLegalIff`. */
  method ThrowException<V, M, C>(sm: StackManager<V, M, C>, pc: int, values: nat, catches: (M, C) -> bool)
    returns (caught: Option<Handler<C>>)
    requires sm.Valid() && sm.view.Act? && values <= |sm.view.operands|
    requires ThrowLegal(Trim(sm.view, pc), values, catches)
    modifies sm
    ensures sm.Valid() && StackedTo(Trim(old(sm.view), pc), catches)
    ensures caught.Some? ==> sm.view.Act? && catches(sm.view.mod, caught.value.catches)
    ensures Outcome(Trim(old(sm.view), pc), Top(old(sm.view).operands, values), catches)
            == if caught.None? then None else Some((sm.view, caught.value))
    ensures caught.None? <==> Uncaught(Trim(old(sm.view), pc), catches)
    ensures LandedBlock(caught, sm.view) == Found(ActiveOnly(old(sm.view), pc), catches)
            <==> CaughtByActive(Trim(old(sm.view), pc), pc, catches)
    ensures caught.Some? ==>
              && values <= |old(sm.valueStack)| && caught.value.vpos <= |old(sm.valueStack)|
              && sm.valueStack == old(sm.valueStack)[..caught.value.vpos] + Top(old(sm.valueStack), values)
  {
    sm.RemoveInactiveHandler(pc);
    caught := Unwind(sm, values, catches);
    ThrowLandsAt(old(sm.view), pc, Top(old(sm.view).operands, values), catches, caught, sm.view);
  }

  // ------------------------------------------------------------------ catch clauses

  /** A clause catches every exception or those of one tag of the handler's module. It may push a
      reference to the exception, and branches from the try block to its label. */
  datatype CatchClause = CatchClause(isAll: bool, isRef: bool, tag: nat, eraseBegin: nat, eraseEnd: nat, pcOffset: int)

  predicate Catches<M, T(==)>(clause: CatchClause, mod: M, tags: (M, nat) -> T, tag: T) {
    clause.isAll || tags(mod, clause.tag) == tag
  }

  /** The number of clauses before the first one for all exceptions or for a tag of the module that is
      the thrown one. */
  function FirstClause<M, T(==)>(clauses: seq<CatchClause>, mod: M, tags: (M, nat) -> T, tag: T): (k: nat)
    ensures k <= |clauses|
    ensures forall i | 0 <= i < k :: !clauses[i].isAll && tags(mod, clauses[i].tag) != tag
    ensures k < |clauses| ==> clauses[k].isAll || tags(mod, clauses[k].tag) == tag
  {
    if clauses == [] || Catches(clauses[0], mod, tags, tag) then 0
    else 1 + FirstClause(clauses[1..], mod, tags, tag)
  }

  /** The handlers that have a clause for the tag. */
  function Selects<M(!new), T(==, !new)>(tags: (M, nat) -> T, tag: T): (M, seq<CatchClause>) -> bool {
    (mod, clauses) => FirstClause(clauses, mod, tags, tag) < |clauses|
  }

  lemma SelectsIff<M(!new), T(!new)>(tags: (M, nat) -> T, tag: T, mod: M, clauses: seq<CatchClause>)
    ensures Selects(tags, tag)(mod, clauses)
            <==> exists i | 0 <= i < |clauses| :: clauses[i].isAll || tags(mod, clauses[i].tag) == tag
  {
  }

  /** No open try block of any activation has a clause for all exceptions, or one whose tag is, in the
      module of the activation, the thrown one. */
  ghost predicate NoClause<V, M, T>(n: Nested<V, M, seq<CatchClause>>, tags: (M, nat) -> T, tag: T) {
    n.Act? ==>
      && (forall t, c | t in n.tries && c in t.catches :: !c.isAll && tags(n.mod, c.tag) != tag)
      && NoClause(n.outer, tags, tag)
  }

  lemma {:induction false} NoClauseIff<V, M(!new), T(!new)>(n: Nested<V, M, seq<CatchClause>>,
                                                            tags: (M, nat) -> T, tag: T)
    ensures Uncaught(n, Selects(tags, tag)) <==> NoClause(n, tags, tag)
  {
    if n.Act? {
      NoClauseIff(n.outer, tags, tag);
      forall t | t in n.tries
        ensures Selects(tags, tag)(n.mod, t.catches)
                <==> exists c :: c in t.catches && (c.isAll || tags(n.mod, c.tag) == tag)
      {
        SelectsIff(tags, tag, n.mod, t.catches);
        if c :| c in t.catches && (c.isAll || tags(n.mod, c.tag) == tag) {
          var i :| 0 <= i < |t.catches| && t.catches[i] == c;
        }
      }
    }
  }

  /** The operands with which the branch of a clause starts: those below the try block, the thrown
      values, and the reference if the clause asks for it. */
  function CaughtOperands<V>(below: seq<V>, thrown: seq<V>, clause: CatchClause, exn: V): (ops: seq<V>)
    ensures clause.isRef ==> ops == below + thrown + [exn]
    ensures !clause.isRef ==> ops == below + thrown
  {
    below + thrown + if clause.isRef then [exn] else []
  }

  /** The clause that a block with a clause for the tag takes. */
  function Taken<M, T(==)>(clauses: seq<CatchClause>, mod: M, tags: (M, nat) -> T, tag: T): (clause: CatchClause)
    requires exists i | 0 <= i < |clauses| :: clauses[i].isAll || tags(mod, clauses[i].tag) == tag
    ensures clause.isAll || tags(mod, clause.tag) == tag
    ensures exists k | 0 <= k < |clauses| ::
              clause == clauses[k] && forall i | 0 <= i < k :: !clauses[i].isAll && tags(mod, clauses[i].tag) != tag
  {
    clauses[FirstClause(clauses, mod, tags, tag)]
  }

  lemma TargetHasClause<V, M(!new), T(!new)>(n: Nested<V, M, seq<CatchClause>>, tags: (M, nat) -> T, tag: T)
    requires Target(n, Selects(tags, tag)).Act?
    ensures var c := Target(n, Selects(tags, tag));
            var clauses := Innermost(c).catches;
            exists i | 0 <= i < |clauses| :: clauses[i].isAll || tags(c.mod, clauses[i].tag) == tag
  {
    var c := Target(n, Selects(tags, tag));
    TargetCatches(n, Selects(tags, tag));
    SelectsIff(tags, tag, c.mod, Innermost(c).catches);
  }

  lemma {:induction false} TargetCatches<V, M, C>(n: Nested<V, M, C>, catches: (M, C) -> bool)
    ensures var c := Target(n, catches); c.Act? ==> catches(c.mod, Innermost(c).catches)
  {
    if n.Act? {
      CatchingTriesIff(n.tries, n.mod, catches);
      TargetCatches(n.outer, catches);
    }
  }

  /** The branch of the clause that catches, if one does, finds its operands. */
  ghost predicate BranchFits<V, M(!new), T(!new)>(n: Nested<V, M, seq<CatchClause>>, thrown: seq<V>,
                                                  tags: (M, nat) -> T, tag: T)
    requires StackedTo(n, Selects(tags, tag))
  {
    var c := Target(n, Selects(tags, tag));
    c.Act? ==>
      (TargetHasClause(n, tags, tag);
       var clause := Taken(Innermost(c).catches, c.mod, tags, tag);
       clause.eraseEnd <= clause.eraseBegin
       <= Innermost(c).height + |thrown| + if clause.isRef then 1 else 0)
  }

  /** The state after a throw that is caught: the innermost try block with a clause for the tag is closed,
      and the branch of its first such clause is taken from the operands below the block, the thrown
      values and, if the clause asks for it, the reference. */
  ghost function AfterCatch<V, M(!new), T(!new)>(n: Nested<V, M, seq<CatchClause>>, thrown: seq<V>,
                                                 tags: (M, nat) -> T, tag: T, exn: V): Nested<V, M, seq<CatchClause>>
    requires StackedTo(n, Selects(tags, tag)) && BranchFits(n, thrown, tags, tag)
    requires Target(n, Selects(tags, tag)).Act?
  {
    TargetIsStacked(n, Selects(tags, tag));
    TargetHasClause(n, tags, tag);
    var c := Target(n, Selects(tags, tag));
    var t := Innermost(c);
    var clause := Taken(t.catches, c.mod, tags, tag);
    var ops := CaughtOperands(c.operands[..t.height], thrown, clause, exn);
    Branch(c.(tries := Drop(c.tries, 1), operands := ops), clause.eraseBegin, clause.eraseEnd)
  }

  /** A whole throw. It is uncaught exactly when no try block left by trimming has a clause for the
      exception. Otherwise the position is one before the instruction to which the clause branches. */
  method CatchException<V, M(!new), T(==, !new)>(sm: StackManager<V, M, seq<CatchClause>>, pc: int, values: nat,
                                                 tags: (M, nat) -> T, tag: T, exn: V)
    returns (next: Option<int>)
    requires sm.Valid() && sm.view.Act? && values <= |sm.view.operands|
    requires ThrowLegal(Trim(sm.view, pc), values, Selects(tags, tag))
    requires StackedTo(Trim(sm.view, pc), Selects(tags, tag)) ==>
               BranchFits(Trim(sm.view, pc), Top(sm.view.operands, values), tags, tag)
    modifies sm
    ensures sm.Valid() && StackedTo(Trim(old(sm.view), pc), Selects(tags, tag))
    ensures next.None? <==> NoClause(Trim(old(sm.view), pc), tags, tag)
    ensures next.Some? ==>
              var n, thrown := Trim(old(sm.view), pc), Top(old(sm.view).operands, values);
              var c := Target(n, Selects(tags, tag));
              && c.Act? && BranchFits(n, thrown, tags, tag)
              && sm.view == AfterCatch(n, thrown, tags, tag, exn)
              && (TargetHasClause(n, tags, tag);
                  next.value == Innermost(c).pc + Taken(Innermost(c).catches, c.mod, tags, tag).pcOffset - 1)
  {
    ghost var n, thrown := Trim(sm.view, pc), Top(sm.view.operands, values);
    var caught := ThrowException(sm, pc, values, Selects(tags, tag));
    NoClauseIff(n, tags, tag);
    if caught.None? { return None; }
    TargetHasClause(n, tags, tag);
    TargetIsStacked(n, Selects(tags, tag));
    FramesEnd(sm.view);
    var clauses, mod := caught.value.catches, sm.frameStack[|sm.frameStack| - 1].mod;
    var clause := FindClause(clauses, mod, tags, tag);
    ghost var c := Target(n, Selects(tags, tag));
    TakeClause(sm, clause, c.operands[..Innermost(c).height], thrown, exn);
    return Some(caught.value.pc + clause.pcOffset - 1);
  }

  /** The reference, if the clause asks for it, and the branch to the label of the clause. */
  method TakeClause<V, M, C>(sm: StackManager<V, M, C>, clause: CatchClause,
                             ghost below: seq<V>, ghost thrown: seq<V>, exn: V)
    requires sm.Valid() && sm.view.Act? && sm.view.operands == below + thrown
    requires clause.eraseEnd <= clause.eraseBegin <= |CaughtOperands(below, thrown, clause, exn)|
    modifies sm
    ensures sm.Valid()
    ensures sm.view == Branch(old(sm.view).(operands := CaughtOperands(below, thrown, clause, exn)),
                              clause.eraseBegin, clause.eraseEnd)
  {
    if clause.isRef { sm.Push(exn); }
    PopIsFlat(sm.view, clause.eraseBegin);
    sm.EraseValueStack(clause.eraseBegin, clause.eraseEnd);
  }

  /** The scan of the clauses of a handler. */
  method FindClause<M, T(==)>(clauses: seq<CatchClause>, mod: M, tags: (M, nat) -> T, tag: T)
    returns (clause: CatchClause)
    requires exists i | 0 <= i < |clauses| :: clauses[i].isAll || tags(mod, clauses[i].tag) == tag
    ensures clause == Taken(clauses, mod, tags, tag)
  {
    var i := 0;
    while !clauses[i].isAll && tags(mod, clauses[i].tag) != tag
      invariant i <= FirstClause(clauses, mod, tags, tag) < |clauses|
      decreases |clauses| - i
    {
      i := i + 1;
    }
    return clauses[i];
  }
}
