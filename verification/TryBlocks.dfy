/** Which open try blocks `removeInactiveHandler` leaves, and which of them a throw may visit. */
module TryBlocks {
  import opened Activations
  import StackManager

  /** The open try blocks whose code contains the position. */
  function ActiveTries<C>(ts: seq<Try<C>>, pc: int): (r: seq<Try<C>>)
    ensures |r| <= |ts|
  {
    if ts == [] then []
    else ActiveTries(ts[..|ts| - 1], pc) + (if ts[|ts| - 1].Active(pc) then [ts[|ts| - 1]] else [])
  }

  /** No inactive try block lies under an active one. */
  predicate NoneStale<C>(ts: seq<Try<C>>, pc: int) {
    forall i, j | 0 <= i < j < |ts| :: ts[j].Active(pc) ==> ts[i].Active(pc)
  }

  /** Each try block lies within the code of those below it. */
  predicate NestedRanges<C>(ts: seq<Try<C>>) {
    forall i, j | 0 <= i < j < |ts| :: Within(ts[j], ts[i])
  }

  predicate Within<C>(inner: Try<C>, outer: Try<C>) {
    outer.pc <= inner.pc && inner.pc + inner.jumpEnd <= outer.pc + outer.jumpEnd
  }

  predicate Disjoint<C>(a: Try<C>, b: Try<C>) {
    a.pc + a.jumpEnd < b.pc || b.pc + b.jumpEnd < a.pc
  }

  lemma {:induction false} AllActiveIff<C>(ts: seq<Try<C>>, pc: int)
    ensures ActiveTries(ts, pc) == ts <==> forall i | 0 <= i < |ts| :: ts[i].Active(pc)
  {
    if ts != [] {
      var front, last := ts[..|ts| - 1], ts[|ts| - 1];
      AllActiveIff(front, pc);
      assert ts == front + [last];
      if last.Active(pc) {
        assert ActiveTries(ts, pc)[..|ActiveTries(front, pc)|] == ActiveTries(front, pc);
      }
    }
  }

  /** Trimming leaves exactly the active try blocks if and only if no stale one lies under an active
      one. */
  lemma {:induction false} TrimIsExactIff<C>(ts: seq<Try<C>>, pc: int)
    ensures Trimmed(ts, pc) == ActiveTries(ts, pc) <==> NoneStale(ts, pc)
  {
    if ts != [] {
      var front, last := ts[..|ts| - 1], ts[|ts| - 1];
      if last.Active(pc) {
        AllActiveIff(ts, pc);
      } else {
        TrimIsExactIff(front, pc);
        assert ActiveTries(ts, pc) == ActiveTries(front, pc);
        assert NoneStale(ts, pc) <==> NoneStale(front, pc) by {
          assert forall i | 0 <= i < |front| :: front[i] == ts[i];
        }
      }
    }
  }

  ghost predicate AlwaysExact<C>(ts: seq<Try<C>>) {
    forall pc: int :: Trimmed(ts, pc) == ActiveTries(ts, pc)
  }

  lemma NestedIsExact<C>(ts: seq<Try<C>>, pc: int)
    requires NestedRanges(ts)
    ensures NoneStale(ts, pc) && Trimmed(ts, pc) == ActiveTries(ts, pc)
  {
    forall i, j | 0 <= i < j < |ts| && ts[j].Active(pc) ensures ts[i].Active(pc) {
      assert Within(ts[j], ts[i]);
    }
    TrimIsExactIff(ts, pc);
  }

  /** It does so at every position if and only if the try blocks are nested. */
  lemma TrimIsAlwaysExactIff<C>(ts: seq<Try<C>>)
    ensures AlwaysExact(ts) <==> NestedRanges(ts)
  {
    if NestedRanges(ts) {
      forall pc: int ensures Trimmed(ts, pc) == ActiveTries(ts, pc) {
        NestedIsExact(ts, pc);
      }
    }
    if AlwaysExact(ts) {
      forall i, j | 0 <= i < j < |ts| ensures Within(ts[j], ts[i]) {
        var first, last := ts[j].pc, ts[j].pc + ts[j].jumpEnd;
        TrimIsExactIff(ts, first);
        TrimIsExactIff(ts, last);
        assert ts[j].Active(first) && ts[j].Active(last);
      }
    }
  }

  /** The first try block that a throw visits after trimming is the innermost active one. */
  lemma {:induction false} FirstVisitedIsActive<C>(ts: seq<Try<C>>, pc: int)
    ensures var t, a := Trimmed(ts, pc), ActiveTries(ts, pc);
            && (t == [] <==> a == [])
            && (t != [] ==> a[|a| - 1] == t[|t| - 1] && t[|t| - 1].Active(pc))
  {
    if ts != [] && !ts[|ts| - 1].Active(pc) {
      FirstVisitedIsActive(ts[..|ts| - 1], pc);
      assert ActiveTries(ts, pc) == ActiveTries(ts[..|ts| - 1], pc);
    }
  }

  /** In structured code, entering a try block keeps the open ones nested if and only if all of
      them are active where it is entered: the block pushes its handler without trimming first. */
  lemma EnterKeepsNestedIff<C>(ts: seq<Try<C>>, t: Try<C>)
    requires NestedRanges(ts) && forall i | 0 <= i < |ts| :: Within(t, ts[i]) || Disjoint(t, ts[i])
    ensures NestedRanges(ts + [t]) <==> forall i | 0 <= i < |ts| :: ts[i].Active(t.pc)
  {
    var us := ts + [t];
    assert us[|ts|] == t && forall i | 0 <= i < |ts| :: us[i] == ts[i];
    if NestedRanges(us) {
      forall i | 0 <= i < |ts| ensures ts[i].Active(t.pc) {
        assert Within(us[|ts|], us[i]);
      }
    }
    if forall i | 0 <= i < |ts| :: ts[i].Active(t.pc) {
      forall i, j | 0 <= i < j < |us| ensures Within(us[j], us[i]) {
        if j == |ts| {
          assert ts[i].Active(t.pc);
        } else {
          assert Within(ts[j], ts[i]);
        }
      }
    }
  }

  /** Trimming before the block is entered restores it. */
  lemma TrimThenEnterIsNested<C>(ts: seq<Try<C>>, t: Try<C>)
    requires NestedRanges(ts) && forall i | 0 <= i < |ts| :: Within(t, ts[i]) || Disjoint(t, ts[i])
    ensures NestedRanges(Trimmed(ts, t.pc) + [t])
  {
    var us := Trimmed(ts, t.pc);
    assert us <= ts;
    assert forall i | 0 <= i < |us| :: us[i] == ts[i];
    forall i, j | 0 <= i < j < |us| ensures Within(us[j], us[i]) {
      assert Within(ts[j], ts[i]);
    }
    NestedIsExact(ts, t.pc);
    AllTrimmedActive(ts, t.pc);
    EnterKeepsNestedIff(us, t);
  }

  lemma {:induction false} AllTrimmedActive<C>(ts: seq<Try<C>>, pc: int)
    requires NoneStale(ts, pc)
    ensures forall i | 0 <= i < |Trimmed(ts, pc)| :: Trimmed(ts, pc)[i].Active(pc)
  {
    if ts != [] && !ts[|ts| - 1].Active(pc) {
      var front := ts[..|ts| - 1];
      assert forall i | 0 <= i < |front| :: front[i] == ts[i];
      AllTrimmedActive(front, pc);
    }
  }

  /** A branch out of one try block and into its sibling leaves the first one stale under the
      second: a throw in the second visits the first as soon as the second does not catch. */
  lemma StaleSiblingStays<C>(catches: C)
    ensures var outer, first, second := Try(0, 100, 0, catches), Try(10, 10, 3, catches), Try(30, 10, 0, catches);
            && NestedRanges([outer, first]) && Disjoint(first, second)
            && Trimmed([outer, first, second], 35) == [outer, first, second]
            && ActiveTries([outer, first, second], 35) == [outer, second]
  {
    var outer, first, second := Try(0, 100, 0, catches), Try(10, 10, 3, catches), Try(30, 10, 0, catches);
    var ts := [outer, first, second];
    assert ts[..2] == [outer, first] && [outer, first][..1] == [outer] && [outer][..0] == [];
    assert ActiveTries([outer], 35) == [outer];
    assert ActiveTries([outer, first], 35) == [outer];
  }

  /** The end of a try block pops the top handler. This is the handler of the block that ends, the
      innermost one that is active at its end, exactly when no stale handler lies above it. Trimming
      first would always pop the right one. */
  lemma LeaveIsOwnIff<C>(ts: seq<Try<C>>, own: nat, end: int)
    requires own < |ts| && ts[own].Active(end) && forall i | own < i < |ts| :: !ts[i].Active(end)
    ensures Drop(ts, 1) == ts[..own] <==> Trimmed(ts, end) == ts
    ensures ts[own] in Drop(ts, 1) <== Trimmed(ts, end) != ts
    ensures Trimmed(ts, end) != [] && Drop(Trimmed(ts, end), 1) == ts[..own]
  {
    StackManager.TrimmedPrefix(ts, own + 1, end);
    assert Drop(ts[..own + 1], 1) == ts[..own];
    if own + 1 == |ts| { assert ts[..own + 1] == ts; }
  }
}
