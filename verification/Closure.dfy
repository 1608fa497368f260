/** The reflexive and transitive closure of a relation. */
module Closure {

  /** `to` is reached from `from` in `n` steps. */
  ghost predicate Reaches<T(!new)>(step: (T, T) -> bool, n: nat, from: T, to: T) {
    if n == 0 then from == to
    else exists mid :: step(from, mid) && Reaches(step, n - 1, mid, to)
  }

  ghost predicate Star<T(!new)>(step: (T, T) -> bool, from: T, to: T) {
    exists n: nat :: Reaches(step, n, from, to)
  }

  lemma StarReflexive<T(!new)>(step: (T, T) -> bool, x: T)
    ensures Star(step, x, x)
  {
    assert Reaches(step, 0, x, x);
  }

  lemma StarStep<T(!new)>(step: (T, T) -> bool, from: T, mid: T, to: T)
    requires step(from, mid) && Star(step, mid, to)
    ensures Star(step, from, to)
  {
    var n: nat :| Reaches(step, n, mid, to);
    assert Reaches(step, n + 1, from, to);
  }

  lemma StarUnfold<T(!new)>(step: (T, T) -> bool, from: T, to: T) returns (mid: T)
    requires Star(step, from, to) && from != to
    ensures step(from, mid) && Star(step, mid, to)
  {
    var n: nat :| Reaches(step, n, from, to);
    mid :| step(from, mid) && Reaches(step, n - 1, mid, to);
  }

  lemma {:induction false} ReachesAdds<T(!new)>(step: (T, T) -> bool, m: nat, n: nat, a: T, b: T, c: T)
    requires Reaches(step, m, a, b) && Reaches(step, n, b, c)
    ensures Reaches(step, m + n, a, c)
    decreases m
  {
    if m > 0 {
      var mid :| step(a, mid) && Reaches(step, m - 1, mid, b);
      ReachesAdds(step, m - 1, n, mid, b, c);
      assert Reaches(step, m + n - 1, mid, c);
    }
  }

  lemma StarTransitive<T(!new)>(step: (T, T) -> bool, a: T, b: T, c: T)
    requires Star(step, a, b) && Star(step, b, c)
    ensures Star(step, a, c)
  {
    var m: nat :| Reaches(step, m, a, b);
    var n: nat :| Reaches(step, n, b, c);
    ReachesAdds(step, m, n, a, b, c);
  }

  /** A property that every step keeps holds along the closure. */
  lemma {:induction false} StarKeeps<T(!new)>(step: (T, T) -> bool, inv: T -> bool, from: T, to: T)
    requires Star(step, from, to) && inv(from)
    requires forall x, y :: inv(x) && step(x, y) ==> inv(y)
    ensures inv(to)
  {
    var n: nat :| Reaches(step, n, from, to);
    ReachesKeeps(step, inv, n, from, to);
  }

  lemma {:induction false} ReachesKeeps<T(!new)>(step: (T, T) -> bool, inv: T -> bool, n: nat, from: T, to: T)
    requires Reaches(step, n, from, to) && inv(from)
    requires forall x, y :: inv(x) && step(x, y) ==> inv(y)
    ensures inv(to)
  {
    if n > 0 {
      var mid :| step(from, mid) && Reaches(step, n - 1, mid, to);
      ReachesKeeps(step, inv, n - 1, mid, to);
    }
  }
}
