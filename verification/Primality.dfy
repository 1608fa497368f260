/** Modular arithmetic on 64-bit words and the primality test (lib/common/hash.cpp). */
module Primality {
  import opened Arith
  import opened NumberTheory
  import opened Words

  // ----- mulMod -----

  /** What the first doubling loses when even the corrected sum does not fit in a word. */
  function Lost(a: U64, m: U64): int {
    if a + a - m >= TWO64 then TWO64 else 0
  }

  /** A wrapping sum, corrected once by the modulus after an overflow, and reduced. */
  function AddReduced(x: U64, y: U64, m: U64): (c: U64)
    requires 0 < m
    ensures c < m
  {
    var s := Wrap(x + y);
    (if s < x then Wrap(s - m) else s) % m
  }

  lemma AddReducedIs(x: U64, y: U64, m: U64)
    requires 0 < m
    ensures AddReduced(x, y, m) == (x + y - (if x + y - m >= TWO64 then TWO64 else 0)) % m
  {
    var s := Wrap(x + y);
    if x + y < TWO64 {
      DivModUnique(x + y, TWO64, 0, x + y);
    } else {
      DivModUnique(x + y, TWO64, 1, x + y - TWO64);
      if s < m {
        DivModUnique(s - m, TWO64, -1, s - m + TWO64);
        ModAddMultiple(x + y, -1, m);
      } else {
        DivModUnique(s - m, TWO64, 0, s - m);
        ModAddMultiple(s, -1, m);
      }
    }
  }

  /** The remainder of r + a b, short of what the first doubling of `a` loses. */
  function Owed(r: int, a: U64, b: nat, m: U64): int
    requires m > 0
  {
    (r + a * b - Lost(a, m) * (b / 2)) % m
  }

  lemma ModSumProduct(x: int, d: int, h: int, m: int)
    requires m > 0
    ensures (x % m + d % m * h) % m == (x + d * h) % m
  {
    ModAdd(x, d % m * h, m);
    ModMul(d, h, m);
    ModAdd(d % m * h, x, m);
    ModAdd(d * h, x, m);
  }

  lemma SplitProduct(r: int, a: int, b: int, h: int, bit: int, lost: int)
    requires b == bit + 2 * h
    ensures r + a * b - lost * h == r + a * bit + (a + a - lost) * h
  {
    assert a * b == a * bit + a * (2 * h);
    assert (a + a - lost) * h == a * (2 * h) - lost * h;
  }

  /** Taking the lowest bit off the multiplier and doubling the multiplicand owes the same. */
  lemma OwedStep(r: U64, a: U64, b: nat, m: U64)
    requires r < m
    ensures var low := if b % 2 == 1 then (r + a) % m else r;
            Owed(r, a, b, m) == (low + (a + a - Lost(a, m)) % m * (b / 2)) % m
  {
    var lost := Lost(a, m);
    SplitProduct(r, a, b, b / 2, b % 2, lost);
    ModSumProduct(r + a * (b % 2), a + a - lost, b / 2, m);
    if b % 2 == 0 { DivModUnique(r, m, 0, r); }
  }

  /** The loop from the state r, a, b. */
  function MulModFrom(r: U64, a: U64, b: U64, m: U64): U64
    requires r < m
    decreases b
  {
    if b == 0 then r
    else MulModFrom(
      if b % 2 == 1 then AddReduced(r, a, m) else r,
      if b / 2 != 0 then AddReduced(a, a, m) else a,
      b / 2,
      m)
  }

  lemma {:induction false} MulModFromIs(r: U64, a: U64, b: U64, m: U64)
    requires r < m
    ensures MulModFrom(r, a, b, m) == Owed(r, a, b, m)
    decreases b
  {
    if b == 0 {
      DivModUnique(r, m, 0, r);
    } else {
      var low := if b % 2 == 1 then AddReduced(r, a, m) else r;
      OwedStep(r, a, b, m);
      AddReducedIs(r, a, m);
      AddReducedIs(a, a, m);
      if b / 2 == 0 {
        DivModUnique(low, m, 0, low);
        assert MulModFrom(low, a, 0, m) == low;
      } else {
        MulModFromIs(low, AddReduced(a, a, m), b / 2, m);
      }
    }
  }

  lemma OwedExactIff(a: U64, b: U64, m: U64)
    requires m > 0
    ensures Owed(0, a, b, m) == (a * b) % m <==> a + a < TWO64 + m || (TWO64 * (b / 2)) % m == 0
  {
    ModEqualIff(a * b, a * b - Lost(a, m) * (b / 2), m);
  }

  method MulMod(a0: U64, b0: U64, m: U64) returns (r: U64)
    requires m > 0
    ensures r < m
    ensures a0 < m ==> r == (a0 * b0) % m
    ensures r == (a0 * b0 - Lost(a0, m) * (b0 / 2)) % m
    ensures r == (a0 * b0) % m <==> a0 + a0 < TWO64 + m || (TWO64 * (b0 / 2)) % m == 0
  {
    var a: U64, b: U64 := a0, b0;
    r := 0;
    while b != 0
      invariant r < m
      invariant MulModFrom(r, a, b, m) == MulModFrom(0, a0, b0, m)
    {
      if b % 2 == 1 {
        r := AddReduced(r, a, m);
      }
      b := b / 2;
      if b != 0 {
        a := AddReduced(a, a, m);
      }
    }
    MulModFromIs(0, a0, b0, m);
    OwedExactIff(a0, b0, m);
  }

  /** An input on which the product is wrong: 2 (2^64 - 1) is a multiple of 3. */
  lemma MulModCanBeWrong()
    ensures MulModFrom(0, TWO64 - 1, 2, 3) == 2 && ((TWO64 - 1) * 2) % 3 == 0
  {
    MulModFromIs(0, TWO64 - 1, 2, 3);
  }

  // ----- powMod -----

  lemma PowHalve(a: int, b: nat)
    ensures Pow(a, b) == (if b % 2 == 1 then a else 1) * Pow(a * a, b / 2)
  {
    PowMul(a, 2, b / 2);
    assert Pow(a, 2) == a * Pow(a, 1) == a * a;
    PowAdd(a, b % 2, 2 * (b / 2));
    assert Pow(a, 1) == a * Pow(a, 0);
  }

  /** Taking the lowest bit off the exponent and squaring the base. */
  lemma PowModStep(r: int, a: int, b: nat, m: int)
    requires m > 0
    ensures var low := if b % 2 == 1 then (r * a) % m else r;
            (low * Pow((a * a) % m, b / 2)) % m == (r * Pow(a, b)) % m
  {
    var p, q, x := Pow(a * a, b / 2), Pow((a * a) % m, b / 2), if b % 2 == 1 then r * a else r;
    PowHalve(a, b);
    assert r * Pow(a, b) == x * p by {
      if b % 2 == 1 { assert r * (a * p) == r * a * p; }
    }
    PowModBase(a * a, b / 2, m);
    ModMulCongruent(q, p, x, m);
    assert q * x == x * q && p * x == x * p;
    if b % 2 == 1 { ModMul(r * a, q, m); }
  }

  /** The power when the first squaring of the base may lose an overflow; later squarings start from
      a reduced base and lose nothing. */
  function PowOwed(a: U64, b: nat, m: U64): int
    requires m > 0
  {
    ((if b % 2 == 1 then a else 1) * Pow(Owed(0, a, a, m), b / 2)) % m
  }

  lemma PowOwedExact(a: U64, b: nat, m: U64)
    requires m > 0 && (b <= 1 || a + a < TWO64 + m || (TWO64 * (a / 2)) % m == 0)
    ensures PowOwed(a, b, m) == Pow(a, b) % m
  {
    if b <= 1 {
      assert b == 1 ==> Pow(a, b) == a * Pow(a, 0);
    } else {
      OwedExactIff(a, a, m);
      PowModStep(1, a, b, m);
      var q := Pow((a * a) % m, b / 2);
      if b % 2 == 1 { ModMul(a, q, m); }
    }
  }

  lemma FirstRound(a: U64, b: nat, m: U64, low: int, square: int)
    requires m > 0 && low == (if b % 2 == 1 then a % m else 1) && (b / 2 != 0 ==> square == Owed(0, a, a, m))
    ensures (low * Pow(square, b / 2)) % m == PowOwed(a, b, m)
  {
    if b / 2 == 0 { assert Pow(square, b / 2) == Pow(Owed(0, a, a, m), b / 2) == 1; }
    if b % 2 == 1 { ModMul(a, Pow(square, b / 2), m); }
  }

  method PowMod(a0: U64, b0: U64, m: U64) returns (r: U64)
    requires m > 0
    ensures r == if m == 1 && b0 == 0 then 1 else PowOwed(a0, b0, m)
    ensures a0 < m && m > 1 ==> r == Pow(a0, b0) % m
  {
    var a: U64, b: U64 := a0, b0;
    r := 1;
    while b != 0
      invariant b <= b0 && (b == b0 ==> r == 1 && a == a0)
      invariant b < b0 ==> (b > 0 ==> a < m) && (r * Pow(a, b)) % m == PowOwed(a0, b0, m)
      invariant r < m || (r == 1 && m == 1 && (b > 0 || b0 == 0))
    {
      PowModStep(r, a, b, m);
      ghost var first := b == b0;
      if b % 2 == 1 {
        r := MulMod(r, a, m);
      }
      b := b / 2;
      if b != 0 {
        a := MulMod(a, a, m);
      }
      if first { FirstRound(a0, b0, m, r, a); }
    }
    if r < m { DivModUnique(r, m, 0, r); }
    if a0 < m { PowOwedExact(a0, b0, m); }
  }

  // ----- the strong probable prime test -----

  /** The odd part of a positive number and the exponent of two in it. */
  function OddPart(x: nat): nat {
    if x > 0 && x % 2 == 0 then OddPart(x / 2) else x
  }

  function TwoPart(x: nat): nat {
    if x > 0 && x % 2 == 0 then 1 + TwoPart(x / 2) else 0
  }

  lemma {:induction false} OddTimesTwoPart(x: nat)
    requires x > 0
    ensures OddPart(x) % 2 == 1 && x == OddPart(x) * Pow2(TwoPart(x))
  {
    if x % 2 == 0 {
      OddTimesTwoPart(x / 2);
      assert Pow2(TwoPart(x)) == 2 * Pow2(TwoPart(x / 2));
    }
  }

  /** Shifting out k zero bits. */
  lemma {:induction false} ShiftOut(x: nat, k: nat)
    requires x > 0 && x % Pow2(k) == 0
    ensures x / Pow2(k) > 0
    ensures OddPart(x / Pow2(k)) == OddPart(x) && TwoPart(x) == k + TwoPart(x / Pow2(k))
    decreases k
  {
    if k > 0 {
      HalfMultiple(x, Pow2(k - 1));
      ShiftOut(x / 2, k - 1);
    }
  }

  lemma HalfMultiple(x: nat, p: nat)
    requires x > 0 && p > 0 && x % (2 * p) == 0
    ensures x % 2 == 0 && x / 2 > 0 && x / 2 % p == 0 && x / 2 / p == x / (2 * p)
  {
    var q := x / (2 * p);
    assert x == q * (2 * p) == 2 * (q * p);
    DivModUnique(x, 2, q * p, 0);
    DivModUnique(q * p, p, q, 0);
  }

  /** b squared r times modulo n. */
  ghost function Squared(n: int, b: int, r: nat): int
    requires n > 1
  {
    Pow(b, Pow2(r)) % n
  }

  /** a^(d 2^r) modulo n, where d is the odd part of n - 1. */
  ghost function Square(n: int, a: int, r: nat): int
    requires n > 1
  {
    Squared(n, Pow(a, OddPart(n - 1)), r)
  }

  ghost predicate StrongProbablePrime(n: int, a: int)
    requires n > 1
  {
    || Square(n, a, 0) == 1
    || exists r: nat | r < TwoPart(n - 1) :: Square(n, a, r) == n - 1
  }

  lemma SquareNext(n: int, b: int, r: nat)
    requires n > 1
    ensures Squared(n, b, r + 1) == (Squared(n, b, r) * Squared(n, b, r)) % n
  {
    var y := Pow(b, Pow2(r));
    PowAdd(b, Pow2(r), Pow2(r));
    ModMul(y, y, n);
    ModMul(y, y % n, n);
    assert y * (y % n) == (y % n) * y;
  }

  /** Squares of zero or one stay zero or one. */
  lemma {:induction false} SquareStays(n: int, b: int, r: nat, r': nat)
    requires n > 2 && r <= r' && Squared(n, b, r) <= 1
    ensures Squared(n, b, r') <= 1
  {
    if r < r' {
      SquareStays(n, b, r, r' - 1);
      SquareNext(n, b, r' - 1);
      var x := Squared(n, b, r' - 1);
      assert x == 0 || x == 1;
      DivModUnique(x * x, n, 0, x);
    }
  }

  lemma TwoPartBound(x: U64)
    requires x > 0
    ensures TwoPart(x) < 64
  {
    OddTimesTwoPart(x);
    Pow2Word64();
    if TwoPart(x) >= 64 {
      Pow2Monotone(64, TwoPart(x));
      MulMonotone(Pow2(TwoPart(x)), 1, OddPart(x));
    }
  }

  /** The part d of x that is still to be split, after s zero bits were shifted out. */
  ghost predicate Split(x: nat, d: nat, s: nat) {
    d > 0 && OddPart(d) == OddPart(x) && s + TwoPart(d) == TwoPart(x)
  }

  lemma SplitShift(x: nat, d: nat, s: nat, k: nat, w: nat)
    requires Split(x, d, s) && w == Pow2(k) && d % w == 0
    ensures Split(x, d / w, s + k) && s + k <= TwoPart(x)
  {
    ShiftOut(d, k);
  }

  lemma SplitDone(x: nat, d: nat, s: nat)
    requires Split(x, d, s) && d % 2 == 1
    ensures d == OddPart(x) && s == TwoPart(x)
  {
  }

  lemma NoMoreZeros(d: nat, w: nat)
    requires w > 0 && d % w == 0 && d % (w * w) != 0
    ensures d / w % w != 0
  {
    if d / w % w == 0 {
      var q := d / w / w;
      assert d == q * (w * w) by {
        assert d == d / w * w && d / w == q * w;
        assert q * w * w == q * (w * w);
      }
      ModMultiple(q, w * w);
    }
  }

  /** One of the three tests after the byte loop: shift out k bits if they are zero. */
  method StripBits(ghost x: U64, d0: U64, s0: U8, k: nat, w: nat) returns (d: U64, s: U8)
    requires x > 0 && Split(x, d0, s0) && w == Pow2(k) > 1 && d0 % (w * w) != 0
    ensures Split(x, d, s) && d % w != 0
  {
    d, s := d0, s0;
    if d % w == 0 {
      TwoPartBound(x);
      SplitShift(x, d, s, k, w);
      NoMoreZeros(d, w);
      d, s := d / w, s + k;
    }
  }

  /** Splitting n - 1 into an odd part and a power of two, by bytes first. */
  method SplitPowerOfTwo(n: U64) returns (d: U64, s: U8)
    requires n > 1
    ensures d == OddPart(n - 1) && s == TwoPart(n - 1) < 64
  {
    TwoPartBound(n - 1);
    Pow2Small();
    d, s := n - 1, 0;
    while d % 256 == 0
      invariant Split(n - 1, d, s)
      decreases d
    {
      SplitShift(n - 1, d, s, 8, 256);
      d, s := d / 256, s + 8;
    }
    d, s := StripBits(n - 1, d, s, 4, 16);
    d, s := StripBits(n - 1, d, s, 2, 4);
    d, s := StripBits(n - 1, d, s, 1, 2);
    SplitDone(n - 1, d, s);
  }

  /** The test from its first value b on, when n - 1 has s factors of two. */
  ghost predicate Accepts(n: int, b: int, s: nat)
    requires n > 1
  {
    b == 1 || b == n - 1 || exists r: nat | 0 < r < s :: Squared(n, b, r) == n - 1
  }

  method Sprp(n: U64, a: U64) returns (pass: bool)
    requires n > 1
    ensures pass == Accepts(n, PowOwed(a, OddPart(n - 1), n), TwoPart(n - 1))
    ensures n > 2 && n % 2 == 1 && a < n ==> pass == StrongProbablePrime(n, a)
  {
    var d, s := SplitPowerOfTwo(n);
    var b := PowMod(a, d, n);
    if n > 2 && n % 2 == 1 && a < n { AcceptsIff(n, a); }
    if b == 1 || b == n - 1 {
      return true;
    }
    pass := SquareUp(n, s, b);
  }

  /** For an odd number and a base below it, this is the strong probable prime test. */
  lemma AcceptsIff(n: U64, a: U64)
    requires n > 2 && n % 2 == 1 && a < n
    ensures Accepts(n, PowOwed(a, OddPart(n - 1), n), TwoPart(n - 1)) <==> StrongProbablePrime(n, a)
  {
    var p, b := Pow(a, OddPart(n - 1)), PowOwed(a, OddPart(n - 1), n);
    PowOwedExact(a, OddPart(n - 1), n);
    assert Square(n, a, 0) == b by { assert Pow(p, 1) == p * Pow(p, 0); }
    forall r: nat ensures Squared(n, b, r) == Square(n, a, r) {
      PowModBase(p, Pow2(r), n);
    }
  }

  /** The squaring loop: look for minus one among the squares that follow. */
  method SquareUp(n: U64, s: U8, b0: U64) returns (pass: bool)
    requires n > 2 || (n == 2 && s == 0)
    requires b0 < n
    ensures pass == exists r: nat | 0 < r < s :: Squared(n, b0, r) == n - 1
  {
    var b := b0;
    var r: U8 := 1;
    assert Squared(n, b0, 0) == b0 by {
      assert Pow(b0, 1) == b0 * Pow(b0, 0);
      DivModUnique(b0, n, 0, b0);
    }
    while r < s
      invariant 1 <= r
      invariant b == Squared(n, b0, r - 1) && 0 <= b < n
      invariant forall k: nat | 0 < k < r :: Squared(n, b0, k) != n - 1
    {
      SquareNext(n, b0, r - 1);
      b := MulMod(b, b, n);
      if b <= 1 {
        forall k: nat | 0 < k < s ensures Squared(n, b0, k) != n - 1 {
          if k >= r { SquareStays(n, b0, r, k); }
        }
        return false;
      }
      if b == n - 1 {
        return true;
      }
      r := r + 1;
    }
    return false;
  }

  // ----- what the test means -----

  lemma {:induction false} OddPartOf(d: nat, s: nat)
    requires d % 2 == 1
    ensures OddPart(d * Pow2(s)) == d && TwoPart(d * Pow2(s)) == s
  {
    if s == 0 {
      assert d * Pow2(0) == d;
    } else {
      OddPartOf(d, s - 1);
      DoubleFactor(d, Pow2(s - 1));
      MulMonotone(d, 1, Pow2(s - 1));
    }
  }

  /** a to the power d 2^r. */
  function PowDoubled(a: nat, d: nat, r: nat): int {
    MulMonotone(Pow2(r), 0, d);
    Pow(a, Pow2(r) * d)
  }

  lemma SquareIsPower(n: int, a: nat, d: nat, r: nat)
    requires n > 1 && OddPart(n - 1) == d
    ensures Square(n, a, r) == PowDoubled(a, d, r) % n
  {
    PowMul(a, d, Pow2(r));
    assert Pow2(r) * d == d * Pow2(r);
  }

  /** The textbook form: with n - 1 = d 2^s and d odd, a^d is 1 modulo n, or a^(d 2^r) is -1 for some
      r below s. */
  lemma StrongProbablePrimeIff(n: int, a: nat, d: nat, s: nat)
    requires n > 2 && n - 1 == d * Pow2(s) && d % 2 == 1
    ensures StrongProbablePrime(n, a) <==>
              Pow(a, d) % n == 1 || exists r: nat | r < s :: PowDoubled(a, d, r) % n == n - 1
  {
    OddPartOf(d, s);
    forall r: nat ensures Square(n, a, r) == PowDoubled(a, d, r) % n {
      SquareIsPower(n, a, d, r);
    }
    assert Pow2(0) * d == d;
  }

  lemma {:induction false} SquareStaysOne(n: int, b: int, r: nat, r': nat)
    requires n > 2 && r <= r' && Squared(n, b, r) == 1
    ensures Squared(n, b, r') == 1
  {
    if r < r' {
      SquareStaysOne(n, b, r, r' - 1);
      SquareNext(n, b, r' - 1);
      DivModUnique(1, n, 0, 1);
    }
  }

  lemma MinusOneSquared(n: int)
    requires n > 2
    ensures (n - 1) * (n - 1) % n == 1
  {
    assert (n - 1) * (n - 1) == (n - 2) * n + 1;
    DivModUnique((n - 1) * (n - 1), n, n - 2, 1);
  }

  /** What passes the test to a base passes Fermat's test to it. */
  lemma PassingIsFermat(n: int, a: nat)
    requires n > 2 && n % 2 == 1 && StrongProbablePrime(n, a)
    ensures Pow(a, n - 1) % n == 1
  {
    var b, s := Pow(a, OddPart(n - 1)), TwoPart(n - 1);
    OddTimesTwoPart(n - 1);
    PowMul(a, OddPart(n - 1), Pow2(s));
    assert Squared(n, b, s) == Pow(a, n - 1) % n;
    if Square(n, a, 0) == 1 {
      SquareStaysOne(n, b, 0, s);
    } else {
      var r: nat :| r < s && Square(n, a, r) == n - 1;
      SquareNext(n, b, r);
      MinusOneSquared(n);
      SquareStaysOne(n, b, r + 1, s);
    }
  }

  // ----- no prime is rejected -----

  /** The last of the squares is one, by Fermat. */
  lemma LastSquare(n: int, a: nat)
    requires Prime(n) && 0 < a < n
    ensures Square(n, a, TwoPart(n - 1)) == 1
  {
    OddTimesTwoPart(n - 1);
    PowMul(a, OddPart(n - 1), Pow2(TwoPart(n - 1)));
    Fermat(n, a);
  }

  /** Going down from a square that is one, the first that is not one is minus one. */
  lemma {:induction false} DescendSquares(n: int, a: nat, r: nat)
    requires Prime(n) && Square(n, a, r) == 1
    ensures Square(n, a, 0) == 1 || exists k: nat | k < r :: Square(n, a, k) == n - 1
  {
    if r > 0 {
      SquareNext(n, Pow(a, OddPart(n - 1)), r - 1);
      SquareRootsOfOne(n, Square(n, a, r - 1));
      if Square(n, a, r - 1) == 1 {
        DescendSquares(n, a, r - 1);
      }
    }
  }

  /** Every odd prime is a strong probable prime to every base. */
  lemma PrimesPass(n: int, a: nat)
    requires Prime(n) && 0 < a < n
    ensures StrongProbablePrime(n, a)
  {
    LastSquare(n, a);
    DescendSquares(n, a, TwoPart(n - 1));
  }

  const BASES: seq<int> := [2, 3, 5, 7, 11, 13, 17, 19, 23, 29, 31, 37]

  /** A number below 49 with a proper divisor is a multiple of 2, 3 or 5. */
  lemma SmallDivisor(p: int, d: int)
    requires 2 <= d < p < 49 && Divides(d, p)
    ensures p % 2 == 0 || p % 3 == 0 || p % 5 == 0
  {
    var q := p / d;
    assert p == d * q;
    if q <= 1 { MulMonotone(d, q, 1); }
    if d >= 7 && q >= 7 {
      MulMonotone(d, 7, q);
    } else if d < 7 {
      SmallFactor(d, q);
    } else {
      SmallFactor(q, d);
    }
  }

  lemma SmallFactor(d: int, q: int)
    requires 2 <= d < 7
    ensures d * q % 2 == 0 || d * q % 3 == 0 || d * q % 5 == 0
  {
    MultipleOfFactor(d, q, if d % 2 == 0 then 2 else d);
  }

  lemma MultipleOfFactor(d: int, q: int, m: int)
    requires m > 0 && d % m == 0
    ensures d * q % m == 0
  {
    var k := d / m;
    assert d == m * k;
    MulAssociates(q, k, m);
    assert d * q == q * k * m;
    ModMultiple(q * k, m);
  }

  lemma SmallPrimeIff(p: int)
    requires 2 <= p < 49
    ensures Prime(p) <==> p in {2, 3, 5} || (p % 2 != 0 && p % 3 != 0 && p % 5 != 0)
  {
    if p > 5 && Prime(p) { assert !Divides(2, p) && !Divides(3, p) && !Divides(5, p); }
    if p == 4 { assert Divides(2, 4); }
    if p % 2 != 0 && p % 3 != 0 && p % 5 != 0 {
      forall d | 2 <= d < p ensures !Divides(d, p) {
        if Divides(d, p) { SmallDivisor(p, d); }
      }
    }
  }

  /** The bases are the first twelve primes. */
  lemma BasesAreTheFirstPrimes(p: int)
    requires p <= 40
    ensures Prime(p) <==> p in BASES
    ensures |BASES| == 12 && forall i, j | 0 <= i < j < 12 :: BASES[i] < BASES[j]
  {
    if 2 <= p {
      SmallPrimeIff(p);
      SmallSieve(p);
    }
    assert p in BASES <==> p in {2, 3, 5, 7, 11, 13, 17, 19, 23, 29, 31, 37};
  }

  lemma SmallSieve(p: int)
    requires 2 <= p <= 40
    ensures p in {2, 3, 5} || (p % 2 != 0 && p % 3 != 0 && p % 5 != 0)
            <==> p in {2, 3, 5, 7, 11, 13, 17, 19, 23, 29, 31, 37}
  {
  }

  ghost predicate PassesAll(n: int)
    requires n > 1
  {
    forall i | 0 <= i < |BASES| :: StrongProbablePrime(n, BASES[i])
  }

  /** The test of an odd number to a base below it. */
  method PassesBase(n: U64, a: U64) returns (pass: bool)
    requires n > 2 && n % 2 == 1 && a < n
    ensures pass == StrongProbablePrime(n, a)
  {
    pass := Sprp(n, a);
  }

  method IsPrime(n: U64) returns (ok: bool)
    ensures ok <==> && n >= 2 && n % 2 == 1
                    && (|| n < 4
                        || (StrongProbablePrime(n, 2) && (n < 2047 || PassesAll(n))))
    ensures Prime(n) ==> (ok <==> n != 2)
  {
    if Prime(n) && n >= 4 {
      PrimesPassAll(n);
      assert !Divides(2, n);
    }
    if n < 2 || n % 2 == 0 { return false; }
    if n < 4 { return true; }
    ok := PassesBase(n, 2);
    if !ok { return; }
    if n < 2047 { return true; }
    ok := PassesBase(n, 3);
    if !ok { assert !StrongProbablePrime(n, BASES[1]); return; }
    ok := PassesBase(n, 5);
    if !ok { assert !StrongProbablePrime(n, BASES[2]); return; }
    ok := PassesBase(n, 7);
    if !ok { assert !StrongProbablePrime(n, BASES[3]); return; }
    ok := PassesBase(n, 11);
    if !ok { assert !StrongProbablePrime(n, BASES[4]); return; }
    ok := PassesBase(n, 13);
    if !ok { assert !StrongProbablePrime(n, BASES[5]); return; }
    ok := PassesBase(n, 17);
    if !ok { assert !StrongProbablePrime(n, BASES[6]); return; }
    ok := PassesBase(n, 19);
    if !ok { assert !StrongProbablePrime(n, BASES[7]); return; }
    ok := PassesBase(n, 23);
    if !ok { assert !StrongProbablePrime(n, BASES[8]); return; }
    ok := PassesBase(n, 29);
    if !ok { assert !StrongProbablePrime(n, BASES[9]); return; }
    ok := PassesBase(n, 31);
    if !ok { assert !StrongProbablePrime(n, BASES[10]); return; }
    ok := PassesBase(n, 37);
    if !ok { assert !StrongProbablePrime(n, BASES[11]); return; }
  }

  lemma PrimesPassAll(n: int)
    requires Prime(n) && n > 3
    ensures StrongProbablePrime(n, 2)
    ensures n >= 2047 ==> PassesAll(n)
  {
    PrimesPass(n, 2);
    if n >= 2047 {
      forall i | 0 <= i < |BASES| ensures StrongProbablePrime(n, BASES[i]) {
        PrimesPass(n, BASES[i]);
      }
    }
  }
}
