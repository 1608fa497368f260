/** The gas counter: a total that many threads change by compare-exchange, as a state machine over
    the atomic steps of the threads. */
module GasCounter {
  import opened Arith
  import opened Words

  datatype Call = AddCost(cost: U64) | SubCost(cost: U64) | Clear

  // ------------------------------------------------------------------ one call at a time

  /** The new total, or none when the call is refused. A charge is compared with the limit after
      the sum has wrapped around. */
  datatype Outcome = Stored(total: U64) | Refused

  function Attempt(call: Call, total: U64, limit: U64): Outcome {
    match call
    case AddCost(cost) => if Wrap(total + cost) > limit then Refused else Stored(Wrap(total + cost))
    case SubCost(cost) => if total <= cost then Refused else Stored(Wrap(total - cost))
    case Clear => Stored(0)
  }

  /** The calls in the order of the steps at which they returned, each with its answer. */
  datatype History = Start | Then(before: History, thread: nat, call: Call, accepted: bool)

  /** The total when the accepted calls are made one after the other. */
  function Replay(h: History, limit: U64): U64 {
    match h
    case Start => 0
    case Then(before, _, call, accepted) =>
      var total := Replay(before, limit);
      match Attempt(call, total, limit)
      case Stored(t) => if accepted then t else total
      case Refused => total
  }

  /** Every answer is the one that the calls give when made one after the other. */
  predicate Sequential(h: History, limit: U64) {
    h.Then? ==>
      Sequential(h.before, limit) && h.accepted == Attempt(h.call, Replay(h.before, limit), limit).Stored?
  }

  /** The call would have been refused now or at some earlier time. */
  predicate Refusable(h: History, call: Call, limit: U64) {
    Attempt(call, Replay(h, limit), limit).Refused? || (h.Then? && Refusable(h.before, call, limit))
  }

  /** Every call was accepted at the total that it met, or refused at that total or at an earlier one. */
  predicate Answered(h: History, limit: U64) {
    h.Then? ==>
      && Answered(h.before, limit)
      && if h.accepted then Attempt(h.call, Replay(h.before, limit), limit).Stored?
         else Refusable(h.before, h.call, limit)
  }

  // ------------------------------------------------------------------ interleaved steps

  /** A thread between its last load and its next exchange. The load saw the total as it was after
      the calls of `loadedAt`. */
  datatype Thread = Idle | Trying(call: Call, seen: U64, loadedAt: History)

  datatype State = State(total: U64, limit: U64, threads: map<nat, Thread>, history: History) {
    function Of(t: nat): Thread {
      if t in threads then threads[t] else Idle
    }
  }

  /** The second history consists of the first calls of the first one. */
  predicate Extends(h: History, at: History) {
    h == at || (h.Then? && Extends(h.before, at))
  }

  /** A step of thread t: the first load of a call with the test that follows it, a compare-exchange
      that may fail for no reason with the test that follows a failure, or the store of a clear. All
      loads are relaxed, so a load, also that of a failed exchange, may see the total as it was at an
      earlier time `at`. */
  datatype Action =
    | Load(t: nat, call: Call, at: History)
    | Exchange(t: nat, spurious: bool, at: History)
    | Store(t: nat)

  predicate Enabled(s: State, a: Action) {
    match a
    case Load(t, call, at) => s.Of(t).Idle? && !call.Clear? && Extends(s.history, at)
    case Exchange(t, _, at) => s.Of(t).Trying? && Extends(s.history, at)
    case Store(t) => s.Of(t).Idle?
  }

  /** The loads of the step see the current total. */
  predicate Fresh(s: State, a: Action) {
    a.Store? || a.at == s.history
  }

  /** A thread that has just loaded a total either gives up or goes on to the exchange. */
  function Decide(s: State, t: nat, call: Call, at: History): State {
    var seen := Replay(at, s.limit);
    if Attempt(call, seen, s.limit).Refused? then
      s.(threads := s.threads[t := Idle], history := Then(s.history, t, call, false))
    else
      s.(threads := s.threads[t := Trying(call, seen, at)])
  }

  function Step(s: State, a: Action): State
    requires Enabled(s, a)
  {
    match a
    case Load(t, call, at) => Decide(s, t, call, at)
    case Exchange(t, spurious, at) =>
      var me := s.Of(t);
      var next := Attempt(me.call, me.seen, s.limit);
      if s.total == me.seen && !spurious && next.Stored? then
        State(next.total, s.limit, s.threads[t := Idle], Then(s.history, t, me.call, true))
      else
        Decide(s, t, me.call, at)
    case Store(t) => s.(total := 0, history := Then(s.history, t, Clear, true))
  }

  predicate LegalRun(s: State, actions: seq<Action>)
    decreases |actions|
  {
    actions != [] ==> Enabled(s, actions[0]) && LegalRun(Step(s, actions[0]), actions[1..])
  }

  function Run(s: State, actions: seq<Action>): State
    requires LegalRun(s, actions)
    decreases |actions|
  {
    if actions == [] then s else Run(Step(s, actions[0]), actions[1..])
  }

  predicate FreshRun(s: State, actions: seq<Action>)
    requires LegalRun(s, actions)
    decreases |actions|
  {
    actions != [] ==> Fresh(s, actions[0]) && FreshRun(Step(s, actions[0]), actions[1..])
  }

  function Init(limit: U64): State {
    State(0, limit, map[], Start)
  }

  // ------------------------------------------------------------------ every run

  predicate ThreadOk(s: State, t: nat) {
    var me := s.Of(t);
    me.Trying? ==>
      && !me.call.Clear? && me.seen == Replay(me.loadedAt, s.limit)
      && Attempt(me.call, me.seen, s.limit).Stored?
  }

  ghost predicate Inv(s: State) {
    && s.total <= s.limit
    && s.total == Replay(s.history, s.limit)
    && Answered(s.history, s.limit)
    && forall t: nat :: ThreadOk(s, t)
  }

  lemma {:induction false} RefusableLater(h: History, at: History, call: Call, limit: U64)
    requires Extends(h, at) && Attempt(call, Replay(at, limit), limit).Refused?
    ensures Refusable(h, call, limit)
  {
    if h != at { RefusableLater(h.before, at, call, limit); }
  }

  /** Every atomic step keeps the invariant, and a step with fresh loads keeps the answers sequential. */
  lemma StepKeepsInv(s: State, a: Action)
    requires Inv(s) && Enabled(s, a)
    ensures Inv(Step(s, a)) && Step(s, a).limit == s.limit
    ensures Fresh(s, a) && Sequential(s.history, s.limit) ==> Sequential(Step(s, a).history, s.limit)
  {
    assert ThreadOk(s, a.t);
    match a
    case Load(t, call, at) => DecideKeepsInv(s, t, call, at);
    case Exchange(t, spurious, at) =>
      var me := s.Of(t);
      DecideKeepsInv(s, t, me.call, at);
      if s.total == me.seen && !spurious { ReturnKeepsInv(s, t, me.call); }
    case Store(t) => ReturnKeepsInv(s, t, Clear);
  }

  /** A thread that has loaded a total. */
  lemma DecideKeepsInv(s: State, t: nat, call: Call, at: History)
    requires Inv(s) && Extends(s.history, at) && !call.Clear?
    ensures var s' := Decide(s, t, call, at);
            && Inv(s') && s'.limit == s.limit
            && (at == s.history && Sequential(s.history, s.limit) ==> Sequential(s'.history, s.limit))
  {
    var s' := Decide(s, t, call, at);
    if Attempt(call, Replay(at, s.limit), s.limit).Refused? { RefusableLater(s.history, at, call, s.limit); }
    forall u: nat ensures ThreadOk(s', u) {
      assert ThreadOk(s, u);
    }
  }

  /** A call that takes effect at the current total. */
  lemma ReturnKeepsInv(s: State, t: nat, call: Call)
    requires Inv(s) && Attempt(call, s.total, s.limit).Stored?
    ensures var next, h := Attempt(call, s.total, s.limit).total, Then(s.history, t, call, true);
            && next <= s.limit && next == Replay(h, s.limit) && Answered(h, s.limit)
            && (Sequential(s.history, s.limit) ==> Sequential(h, s.limit))
            && (forall threads | threads == s.threads || threads == s.threads[t := Idle] ::
                  Inv(State(next, s.limit, threads, h)))
  {
    var next, h := Attempt(call, s.total, s.limit).total, Then(s.history, t, call, true);
    forall threads | threads == s.threads || threads == s.threads[t := Idle]
      ensures Inv(State(next, s.limit, threads, h))
    {
      forall u: nat ensures ThreadOk(State(next, s.limit, threads, h), u) {
        assert ThreadOk(s, u);
      }
    }
  }

  lemma {:induction false} RunKeepsInv(s: State, actions: seq<Action>)
    requires Inv(s) && LegalRun(s, actions)
    ensures Inv(Run(s, actions)) && Run(s, actions).limit == s.limit
    ensures FreshRun(s, actions) && Sequential(s.history, s.limit) ==> Sequential(Run(s, actions).history, s.limit)
    decreases |actions|
  {
    if actions != [] {
      StepKeepsInv(s, actions[0]);
      RunKeepsInv(Step(s, actions[0]), actions[1..]);
    }
  }

  /** Every run, whatever its loads see: the total never exceeds the limit, it is that of the accepted
      calls made one after the other, and every refusal is due to a total that there was. With fresh
      loads the run is linearizable: all answers are those of the calls made one after the other. */
  lemma EveryRunIsSequential(limit: U64, actions: seq<Action>)
    requires LegalRun(Init(limit), actions)
    ensures var s := Run(Init(limit), actions);
            && s.total <= limit && s.total == Replay(s.history, limit) && Answered(s.history, limit)
            && (FreshRun(Init(limit), actions) ==> Sequential(s.history, limit))
  {
    assert Inv(Init(limit));
    RunKeepsInv(Init(limit), actions);
  }

  // ------------------------------------------------------------------ one answer to each call

  /** The calls of thread t that were answered, in order. */
  function Answers(h: History, t: nat): seq<Call> {
    if h.Start? then []
    else if h.thread == t then Answers(h.before, t) + [h.call]
    else Answers(h.before, t)
  }

  /** The calls that thread t started, in order. */
  function Started(actions: seq<Action>, t: nat): seq<Call>
    decreases |actions|
  {
    if actions == [] then [] else StartedBy(actions[0], t) + Started(actions[1..], t)
  }

  function StartedBy(a: Action, t: nat): seq<Call> {
    match a
    case Load(u, call, _) => if u == t then [call] else []
    case Store(u) => if u == t then [Clear] else []
    case Exchange(_, _, _) => []
  }

  /** The call that thread t has started and that is not answered yet. */
  function Pending(s: State, t: nat): seq<Call> {
    match s.Of(t)
    case Idle => []
    case Trying(call, _, _) => [call]
  }

  /** The calls of thread t that were answered, and the one that is pending. */
  function Record(s: State, t: nat): seq<Call> {
    Answers(s.history, t) + Pending(s, t)
  }

  lemma StepAnswers(s: State, a: Action, t: nat)
    requires Enabled(s, a)
    ensures Record(Step(s, a), t) == Record(s, t) + StartedBy(a, t)
  {
  }

  lemma Regroup(a: seq<Call>, b: seq<Call>, c: seq<Call>)
    ensures a + b + c == a + (b + c)
  {
  }

  lemma {:induction false} RunAnswers(s: State, actions: seq<Action>, t: nat)
    requires LegalRun(s, actions)
    ensures Record(Run(s, actions), t) == Record(s, t) + Started(actions, t)
    decreases |actions|
  {
    if actions != [] {
      StepAnswers(s, actions[0], t);
      RunAnswers(Step(s, actions[0]), actions[1..], t);
      Regroup(Record(s, t), StartedBy(actions[0], t), Started(actions[1..], t));
    }
  }

  /** Every call is answered at most once, and the calls of a thread are answered in the order in which
      it started them: its answers are the calls that it started, without the one that it is trying. */
  lemma EveryCallIsAnsweredOnce(limit: U64, actions: seq<Action>, t: nat)
    requires LegalRun(Init(limit), actions)
    ensures var s := Run(Init(limit), actions);
            Started(actions, t) == Answers(s.history, t) + Pending(s, t)
  {
    RunAnswers(Init(limit), actions, t);
  }

  /** The total changes only at an answer: an exchange that succeeds or a store. An exchange that fails,
      for no reason or because the total is another, leaves it. */
  lemma TotalChangesAtAnswers(s: State, a: Action)
    requires Enabled(s, a)
    ensures Step(s, a).total != s.total ==>
              && Step(s, a).history == Then(s.history, a.t, if a.Store? then Clear else s.Of(a.t).call, true)
              && (a.Store? || (a.Exchange? && !a.spurious && s.total == s.Of(a.t).seen))
    ensures a.Exchange? && (a.spurious || s.total != s.Of(a.t).seen) ==> Step(s, a).total == s.total
  {
  }

  /** No call that changed the total took effect after `at`. */
  predicate Quiet(h: History, at: History) {
    h == at || (h.Then? && !h.accepted && Quiet(h.before, at))
  }

  lemma {:induction false} QuietKeepsTotal(h: History, at: History, limit: U64)
    requires Quiet(h, at)
    ensures Replay(h, limit) == Replay(at, limit)
  {
    if h != at { QuietKeepsTotal(h.before, at, limit); }
  }

  /** The counter is lock-free: an exchange that finds another total, rather than failing for no
      reason, was overtaken by a call that took effect after the time that this thread's load saw. */
  lemma FailureMeansProgress(limit: U64, actions: seq<Action>, t: nat)
    requires LegalRun(Init(limit), actions)
    requires var s := Run(Init(limit), actions); s.Of(t).Trying? && s.total != s.Of(t).seen
    ensures var s := Run(Init(limit), actions); !Quiet(s.history, s.Of(t).loadedAt)
  {
    var s := Run(Init(limit), actions);
    assert Inv(Init(limit));
    RunKeepsInv(Init(limit), actions);
    assert ThreadOk(s, t);
    if Quiet(s.history, s.Of(t).loadedAt) { QuietKeepsTotal(s.history, s.Of(t).loadedAt, limit); }
  }

  // ------------------------------------------------------------------ conservation

  /** Accepted charges minus accepted refunds since the last clear. */
  function Balance(h: History): int {
    match h
    case Start => 0
    case Then(before, _, call, accepted) =>
      if !accepted then Balance(before)
      else
        match call
        case AddCost(cost) => Balance(before) + cost
        case SubCost(cost) => Balance(before) - cost
        case Clear => 0
  }

  /** The accepted charges since the last clear whose sum did not fit 64 bits. */
  function Overflows(h: History, limit: U64): nat {
    match h
    case Start => 0
    case Then(before, _, call, accepted) =>
      if !accepted then Overflows(before, limit)
      else
        match call
        case AddCost(cost) => Overflows(before, limit) + if Replay(before, limit) + cost >= TWO64 then 1 else 0
        case SubCost(_) => Overflows(before, limit)
        case Clear => 0
  }

  lemma {:induction false} BalanceIs(h: History, limit: U64)
    requires Answered(h, limit)
    ensures Balance(h) == Replay(h, limit) + TWO64 * Overflows(h, limit)
  {
    if h.Then? {
      BalanceIs(h.before, limit);
      var total := Replay(h.before, limit);
      if h.call.AddCost? { WrapSum(total, h.call.cost); }
      if h.call.SubCost? && h.accepted { WrapSmall(total - h.call.cost); }
    }
  }

  lemma WrapSum(a: U64, b: U64)
    ensures Wrap(a + b) == if a + b < TWO64 then a + b else a + b - TWO64
  {
    var sum: int := a + b;
    DivModUnique(sum, TWO64, if sum < TWO64 then 0 else 1, if sum < TWO64 then sum else sum - TWO64);
  }

  /** The total is what was charged and not refunded exactly when no charge overflowed. */
  lemma ConservedIff(limit: U64, actions: seq<Action>)
    requires LegalRun(Init(limit), actions)
    ensures var s := Run(Init(limit), actions);
            s.total == Balance(s.history) <==> Overflows(s.history, limit) == 0
  {
    EveryRunIsSequential(limit, actions);
    BalanceIs(Run(Init(limit), actions).history, limit);
  }

  /** No charge in the history is larger than what the limit leaves of 64 bits. */
  predicate Modest(h: History, limit: U64) {
    h.Then? ==> Modest(h.before, limit) && (h.call.AddCost? ==> limit + h.call.cost < TWO64)
  }

  lemma {:induction false} ModestNeverOverflows(h: History, limit: U64)
    requires Answered(h, limit) && Modest(h, limit)
    ensures Overflows(h, limit) == 0 && Replay(h, limit) <= limit
  {
    if h.Then? { ModestNeverOverflows(h.before, limit); }
  }

  /** With such charges only, an accepted charge never takes the balance past the limit and an accepted
      refund never below one. With fresh loads calls are refused only then. */
  lemma ModestChargesAreExact(h: History, limit: U64)
    requires h.Then? && Answered(h, limit) && Modest(h, limit)
    ensures Replay(h, limit) == Balance(h)
    ensures h.call.AddCost? && h.accepted ==> Balance(h.before) + h.call.cost <= limit
    ensures h.call.SubCost? && h.accepted ==> Balance(h.before) > h.call.cost
    ensures Sequential(h, limit) && h.call.AddCost? && !h.accepted ==> Balance(h.before) + h.call.cost > limit
    ensures Sequential(h, limit) && h.call.SubCost? && !h.accepted ==> Balance(h.before) <= h.call.cost
  {
    BalanceIs(h, limit);
    BalanceIs(h.before, limit);
    ModestNeverOverflows(h, limit);
    ModestNeverOverflows(h.before, limit);
  }

  /** A charge that wraps around is accepted although it exceeds the limit many times over, and it
      lowers the total. */
  lemma WrappedChargeIsAccepted()
    ensures var first := Then(Start, 0, AddCost(5), true);
            var a0, a1 := Load(0, AddCost(5), Start), Exchange(0, false, Start);
            var a2, a3 := Load(0, AddCost(TWO64 - 2), first), Exchange(0, false, first);
            && LegalRun(Init(10), [a0, a1, a2, a3]) && FreshRun(Init(10), [a0, a1, a2, a3])
            && var s := Run(Init(10), [a0, a1, a2, a3]);
               s.total == 3 && Balance(s.history) == TWO64 + 3
  {
    var first := Then(Start, 0, AddCost(5), true);
    var a0, a1 := Load(0, AddCost(5), Start), Exchange(0, false, Start);
    var a2, a3 := Load(0, AddCost(TWO64 - 2), first), Exchange(0, false, first);
    var s1 := Step(Init(10), a0);
    var s2 := Step(s1, a1);
    var s3 := Step(s2, a2);
    var s4 := Step(s3, a3);
    assert s1.Of(0) == Trying(AddCost(5), 0, Start);
    assert s2.total == 5 && s2.history == first;
    WrapSum(5, TWO64 - 2);
    assert s3.Of(0) == Trying(AddCost(TWO64 - 2), 5, first);
    assert s4.total == 3 && s4.history == Then(first, 0, AddCost(TWO64 - 2), true);
    RunFirst(s4, []);
    RunFirst(s3, [a3]);
    RunFirst(s2, [a2, a3]);
    RunFirst(s1, [a1, a2, a3]);
    RunFirst(Init(10), [a0, a1, a2, a3]);
  }

  /** A stale load can refuse a charge that the current total admits. */
  lemma StaleLoadCanRefuse()
    ensures var full := Then(Start, 0, AddCost(10), true);
            var a0, a1, a2 := Load(0, AddCost(10), Start), Exchange(0, false, Start), Store(0);
            var a3 := Load(1, AddCost(1), full);
            && LegalRun(Init(10), [a0, a1, a2, a3])
            && var s := Run(Init(10), [a0, a1, a2, a3]);
               s.total == 0 && Answered(s.history, 10) && !Sequential(s.history, 10)
  {
    var full := Then(Start, 0, AddCost(10), true);
    var a0, a1, a2 := Load(0, AddCost(10), Start), Exchange(0, false, Start), Store(0);
    var a3 := Load(1, AddCost(1), full);
    var s1 := Step(Init(10), a0);
    var s2 := Step(s1, a1);
    var s3 := Step(s2, a2);
    var s4 := Step(s3, a3);
    assert s1.Of(0) == Trying(AddCost(10), 0, Start);
    assert s2.total == 10 && s2.history == full;
    assert s3.history == Then(full, 0, Clear, true) && Extends(s3.history, full);
    assert Replay(full, 10) == 10 && Replay(s3.history, 10) == 0;
    assert s4.history == Then(s3.history, 1, AddCost(1), false);
    RunFirst(s4, []);
    RunFirst(s3, [a3]);
    RunFirst(s2, [a2, a3]);
    RunFirst(s1, [a1, a2, a3]);
    RunFirst(Init(10), [a0, a1, a2, a3]);
    EveryRunIsSequential(10, [a0, a1, a2, a3]);
  }

  /** Taking the first step of a run. */
  lemma RunFirst(s: State, actions: seq<Action>)
    ensures actions == [] ==> LegalRun(s, actions) && FreshRun(s, actions) && Run(s, actions) == s
    ensures actions != [] && Enabled(s, actions[0]) && LegalRun(Step(s, actions[0]), actions[1..]) ==>
              && LegalRun(s, actions)
              && Run(s, actions) == Run(Step(s, actions[0]), actions[1..])
              && (FreshRun(s, actions) <==> Fresh(s, actions[0]) && FreshRun(Step(s, actions[0]), actions[1..]))
  {
  }
}
