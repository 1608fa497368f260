/** The execution stack as WebAssembly describes it: nested activations, each with its locals, its
    operands and its open try blocks. */
module Activations {

  /** An open try block: its code range, the operand height below it, and its catch clauses. */
  datatype Try<C> = Try(pc: int, jumpEnd: nat, height: nat, catches: C) {
    predicate Active(at: int) { pc <= at <= pc + jumpEnd }
  }

  /** An activation inside the activations of its callers, above the values that were pushed before
      any of them. */
  datatype Nested<V, M, C> =
    | Bottom(values: seq<V>)
    | Act(outer: Nested<V, M, C>, mod: M, from: int, arity: nat,
          locals: seq<V>, operands: seq<V>, tries: seq<Try<C>>)
  {
    /** The operands of the innermost activation. */
    function Operands(): seq<V> {
      if Bottom? then values else operands
    }

    function WithOperands(ops: seq<V>): Nested<V, M, C> {
      if Bottom? then Bottom(ops) else this.(operands := ops)
    }

    function Depth(): nat {
      if Bottom? then 0 else 1 + outer.Depth()
    }
  }

  function Top<V>(s: seq<V>, n: nat): seq<V>
    requires n <= |s|
  {
    s[|s| - n..]
  }

  function Drop<V>(s: seq<V>, n: nat): seq<V>
    requires n <= |s|
  {
    s[..|s| - n]
  }

  // ----- operations -----

  function Call<V, M, C>(n: Nested<V, M, C>, mod: M, from: int, args: nat, arity: nat): Nested<V, M, C>
    requires args <= |n.Operands()|
  {
    Act(n.WithOperands(Drop(n.Operands(), args)), mod, from, arity, Top(n.Operands(), args), [], [])
  }

  /** A tail call replaces the innermost activation and keeps its return address. */
  function TailCall<V, M, C>(n: Nested<V, M, C>, mod: M, args: nat, arity: nat): Nested<V, M, C>
    requires n.Act? && args <= |n.operands|
  {
    Act(n.outer, mod, n.from, arity, Top(n.operands, args), [], [])
  }

  function Return<V, M, C>(n: Nested<V, M, C>): Nested<V, M, C>
    requires n.Act? && n.arity <= |n.operands|
  {
    n.outer.WithOperands(n.outer.Operands() + Top(n.operands, n.arity))
  }

  function Enter<V, M, C>(n: Nested<V, M, C>, pc: int, jumpEnd: nat, params: nat, catches: C): Nested<V, M, C>
    requires n.Act? && params <= |n.operands|
  {
    n.(tries := n.tries + [Try(pc, jumpEnd, |n.operands| - params, catches)])
  }

  function Leave<V, M, C>(n: Nested<V, M, C>): Nested<V, M, C>
    requires n.Act? && n.tries != []
  {
    n.(tries := Drop(n.tries, 1))
  }

  /** The try blocks without the inactive ones on top. */
  function Trimmed<C>(ts: seq<Try<C>>, pc: int): (r: seq<Try<C>>)
    ensures r <= ts
  {
    if ts == [] || ts[|ts| - 1].Active(pc) then ts else Trimmed(ts[..|ts| - 1], pc)
  }

  function Trim<V, M, C>(n: Nested<V, M, C>, pc: int): Nested<V, M, C>
    requires n.Act?
  {
    n.(tries := Trimmed(n.tries, pc))
  }

  /** A branch removes operands below the ones that it carries. */
  function Branch<V, M, C>(n: Nested<V, M, C>, begin: nat, end: nat): Nested<V, M, C>
    requires end <= begin <= |n.Operands()|
  {
    n.WithOperands(Drop(n.Operands(), begin) + Top(n.Operands(), end))
  }

  /** The number of values of all activations and under them. */
  function Size<V, M, C>(n: Nested<V, M, C>): nat {
    if n.Bottom? then |n.values| else Size(n.outer) + |n.locals| + |n.operands|
  }

  /** Writing the value `offset` places below the top: an operand or a local of the innermost
      activation, or a value of its callers. */
  function Store<V, M, C>(n: Nested<V, M, C>, offset: nat, v: V): Nested<V, M, C>
    requires 0 < offset <= Size(n)
  {
    var ops := n.Operands();
    if offset <= |ops| then n.WithOperands(ops[|ops| - offset := v])
    else if offset <= |ops| + |n.locals| then n.(locals := n.locals[|n.locals| + |ops| - offset := v])
    else n.(outer := Store(n.outer, offset - |ops| - |n.locals|, v))
  }

  /** The innermost activation that has an open try block, or the bottom. */
  function Catching<V, M, C>(n: Nested<V, M, C>): (c: Nested<V, M, C>)
    ensures c.Act? ==> c.tries != []
  {
    if n.Bottom? || n.tries != [] then n else Catching(n.outer)
  }

  function Innermost<V, M, C>(n: Nested<V, M, C>): Try<C>
    requires n.Act? && n.tries != []
  {
    n.tries[|n.tries| - 1]
  }

  predicate NoTries<V, M, C>(n: Nested<V, M, C>) {
    n.Bottom? || (n.tries == [] && NoTries(n.outer))
  }

  lemma {:induction false} CatchingIff<V, M, C>(n: Nested<V, M, C>)
    ensures Catching(n).Bottom? <==> NoTries(n)
  {
    if n.Act? { CatchingIff(n.outer); }
  }

  /** The operands that a throw of `values` values finds: the values themselves, and below them the
      operands under the try block where it lands. */
  predicate CanThrow<V, M, C>(n: Nested<V, M, C>, values: nat) {
    var c := Catching(n);
    c.Act? ==>
      && values <= |n.Operands()|
      && (if n.Act? && n.tries != [] then Innermost(c).height + values <= |c.operands|
          else Innermost(c).height <= |c.operands|)
  }

  /** The innermost try block closed, the operands cut back to its height, and the thrown values on
      them. */
  function Landed<V, M, C>(c: Nested<V, M, C>, thrown: seq<V>): Nested<V, M, C>
    requires c.Act? && c.tries != [] && Innermost(c).height <= |c.operands|
  {
    c.(tries := Drop(c.tries, 1), operands := c.operands[..Innermost(c).height] + thrown)
  }

  /** The state after a throw to the innermost open try block. */
  function Thrown<V, M, C>(n: Nested<V, M, C>, values: nat): Nested<V, M, C>
    requires CanThrow(n, values) && Catching(n).Act?
  {
    Landed(Catching(n), Top(n.Operands(), values))
  }
}
