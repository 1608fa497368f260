/** 128-bit unsigned arithmetic on pairs of 64-bit words (include/common/int128.h, the portable
    branches). */
module Int128 {
  import opened Arith
  import opened Words

  // ----- one quotient digit -----

  /** The estimate of a quotient digit exceeds it by exactly the test of the correction loop. */
  lemma EstimateTooLarge(q: nat, rhat: nat, u: nat, next: nat, v1: nat, v0: nat)
    requires q * v1 + rhat == u
    ensures q * v0 > rhat * TWO32 + next <==> q * (v1 * TWO32 + v0) > u * TWO32 + next
  {
    assert q * (v1 * TWO32 + v0) == q * v1 * TWO32 + q * v0;
  }

  /** An estimate whose product exceeds the dividend exceeds the quotient. */
  lemma AboveQuotient(q: int, n: nat, v: nat)
    requires v > 0
    ensures q * v > n <==> q > n / v
  {
    var t := n / v;
    if q > t {
      MulMonotone(v, t + 1, q);
      assert v * (t + 1) == v * t + v;
    } else {
      MulMonotone(v, q, t);
    }
    assert q * v == v * q;
  }

  /** The first estimate is at most one above the base. */
  lemma FirstEstimate(u: nat, v1: nat, v0: nat)
    requires TWO32 <= 2 * v1 && v0 < TWO32 && u < v1 * TWO32 + v0
    ensures u / v1 <= TWO32 + 1
  {
    var q := u / v1;
    assert v1 * (TWO32 + 2) == v1 * TWO32 + 2 * v1;
    if q >= TWO32 + 2 {
      MulMonotone(v1, TWO32 + 2, q);
    }
  }

  /** Below the normalised divisor a digit of the quotient is below the base. */
  lemma DigitBound(u: nat, next: nat, v: nat)
    requires u < v && next < TWO32
    ensures 0 <= (u * TWO32 + next) / v < TWO32
  {
    AboveQuotient(TWO32, u * TWO32 + next, v);
    AboveQuotient(0, u * TWO32 + next, v);
    assert v * TWO32 >= (u + 1) * TWO32;
  }

  /** Once the partial remainder reaches the base, an estimate of at most the base is exact. */
  lemma LargeRemainder(q: nat, rhat: nat, next: nat, v0: nat)
    requires q <= TWO32 && v0 < TWO32 && rhat >= TWO32
    ensures q * v0 <= rhat * TWO32 + next
  {
    MulMonotone(v0, q, TWO32);
    MulMonotone(TWO32, v0, rhat);
  }

  /** The test of the correction loop, on words. */
  predicate TooLarge(q: U64, rhat: U64, next: U32, v0: U32) {
    Shr(q, 32) >= 1 || Wrap(q * v0) > Wrap(Shl(rhat, 32) + next)
  }

  function Digit(u: nat, next: nat, v1: nat, v0: nat): int
    requires v1 > 0
  {
    (u * TWO32 + next) / (v1 * TWO32 + v0)
  }

  /** The state of the correction loop after some corrections. */
  ghost predicate Estimate(q: int, rhat: int, u: U64, next: U32, v1: U32, v0: U32, corrections: nat) {
    && TWO32 <= 2 * v1 && u < v1 * TWO32 + v0
    && Digit(u, next, v1, v0) <= q <= TWO32 + 1 - corrections
    && corrections * v1 <= rhat < TWO32
    && q * v1 + rhat == u
  }

  lemma ShrHalf(x: U64)
    ensures Shr(x, 32) >= 1 <==> x >= TWO32
  {
    Pow2Word32();
  }

  /** No word overflows in the test, so it compares the estimate with the digit. */
  lemma TestIsExact(q: U64, rhat: U64, u: U64, next: U32, v1: U32, v0: U32, corrections: nat)
    requires Estimate(q, rhat, u, next, v1, v0, corrections)
    ensures TooLarge(q, rhat, next, v0) <==> q > Digit(u, next, v1, v0)
  {
    ShrHalf(q);
    Pow2Word32();
    DigitBound(u, next, v1 * TWO32 + v0);
    if q < TWO32 {
      MulMonotone(q, v0, TWO32);
      WrapSmall(q * v0);
      WrapSmall(rhat * TWO32);
      WrapSmall(rhat * TWO32 + next);
      EstimateTooLarge(q, rhat, u, next, v1, v0);
      AboveQuotient(q, u * TWO32 + next, v1 * TWO32 + v0);
    }
  }

  /** The first estimate is not below the digit. */
  lemma FirstEstimateAbove(u: nat, next: U32, v1: nat, v0: nat)
    requires v1 > 0
    ensures u / v1 >= Digit(u, next, v1, v0)
  {
    var q, v := u / v1 + 1, v1 * TWO32 + v0;
    assert q * v1 >= u + 1;
    assert q * v == q * v1 * TWO32 + q * v0;
    AboveQuotient(q, u * TWO32 + next, v);
  }

  lemma EstimateStarts(u: U64, next: U32, v1: U32, v0: U32)
    requires TWO32 <= 2 * v1 && u < v1 * TWO32 + v0
    ensures 0 <= u / v1 && Estimate(u / v1, u - u / v1 * v1, u, next, v1, v0, 0)
  {
    FirstEstimate(u, v1, v0);
    FirstEstimateAbove(u, next, v1, v0);
    assert u - u / v1 * v1 == u % v1;
  }

  lemma EstimateCorrected(q: U64, rhat: U64, u: U64, next: U32, v1: U32, v0: U32, corrections: nat)
    requires Estimate(q, rhat, u, next, v1, v0, corrections) && q > Digit(u, next, v1, v0)
    ensures corrections <= 1
    ensures if rhat + v1 >= TWO32 then q - 1 == Digit(u, next, v1, v0)
            else Estimate(q - 1, rhat + v1, u, next, v1, v0, corrections + 1)
  {
    DigitBound(u, next, v1 * TWO32 + v0);
    if corrections >= 2 { MulMonotone(v1, 2, corrections); }
    assert (q - 1) * v1 + (rhat + v1) == u;
    if rhat + v1 >= TWO32 {
      LargeRemainder(q - 1, rhat + v1, next, v0);
      EstimateTooLarge(q - 1, rhat + v1, u, next, v1, v0);
      AboveQuotient(q - 1, u * TWO32 + next, v1 * TWO32 + v0);
    } else {
      assert (corrections + 1) * v1 == corrections * v1 + v1;
    }
  }

  /** One of the two digit loops: estimate from the high half of the divisor, then correct. */
  method QuotientDigit(u: U64, next: U32, v1: U32, v0: U32) returns (q: U64, ghost corrections: nat)
    requires TWO32 <= 2 * v1 && u < v1 * TWO32 + v0
    ensures q == (u * TWO32 + next) / (v1 * TWO32 + v0) < TWO32
    ensures corrections <= 2
  {
    DigitBound(u, next, v1 * TWO32 + v0);
    EstimateStarts(u, next, v1, v0);
    q := u / v1;
    var rhat: U64 := u - q * v1;
    corrections := 0;
    TestIsExact(q, rhat, u, next, v1, v0, corrections);
    while TooLarge(q, rhat, next, v0)
      invariant Estimate(q, rhat, u, next, v1, v0, corrections) && corrections <= 2
      invariant TooLarge(q, rhat, next, v0) <==> q > Digit(u, next, v1, v0)
      decreases q
    {
      EstimateCorrected(q, rhat, u, next, v1, v0, corrections);
      q := q - 1;
      rhat := rhat + v1;
      corrections := corrections + 1;
      ShrHalf(rhat);
      if Shr(rhat, 32) >= 1 {
        break;
      }
      TestIsExact(q, rhat, u, next, v1, v0, corrections);
    }
  }

  // ----- 128 by 64 bits -----

  /** Two digits of long division in base 2^32. */
  lemma TwoDigits(u: int, n1: int, n0: int, v: int, q1: int, r1: int, q0: int, r0: int)
    requires u * TWO32 + n1 == q1 * v + r1 && r1 * TWO32 + n0 == q0 * v + r0
    ensures u * TWO64 + n1 * TWO32 + n0 == (q1 * TWO32 + q0) * v + r0
  {
    assert u * TWO64 == u * TWO32 * TWO32;
    assert (q1 * v + r1) * TWO32 == q1 * v * TWO32 + r1 * TWO32;
    assert (q1 * TWO32 + q0) * v == q1 * v * TWO32 + q0 * v;
  }

  /** The wrapping update of the partial remainder gives the true remainder. */
  lemma PartialRemainder(u: U64, next: U32, q: U64, v: U64)
    requires u < v && q == (u * TWO32 + next) / v
    ensures Wrap(Shl(u, 32) + next - Wrap(q * v)) == u * TWO32 + next - q * v == (u * TWO32 + next) % v
  {
    var n, p := u * TWO32 + next, q * v;
    assert n - p == n % v;
    Pow2Word32();
    WrapInner(u * TWO32, next, p);
    WrapSmall(n - p);
  }

  /** The high and the low half of a word, and the word of two halves. */
  function High(x: U64): (h: U32)
    ensures x == h * TWO32 + Low(x)
  {
    Pow2Word32();
    Shr(x, 32)
  }

  function Low(x: U64): U32 {
    x % TWO32
  }

  function Join(h: U32, l: U32): (x: U64)
    ensures x == h * TWO32 + l
  {
    Pow2Word32();
    WrapSmall(h * TWO32);
    OrDisjoint(h, l, 32);
    Or(Shl(h, 32), l)
  }

  /** One digit and the remainder it leaves. */
  method DivideDigit(u: U64, next: U32, v: U64) returns (q: U32, rem: U64)
    requires TWO64 <= 2 * v && u < v
    ensures u * TWO32 + next == q * v + rem && rem < v
  {
    var digit, _ := QuotientDigit(u, next, High(v), Low(v));
    q := digit;
    PartialRemainder(u, next, q, v);
    rem := Wrap(Shl(u, 32) + next - Wrap(q * v));
  }

  /** Long division of u 2^64 + un10 by a normalised divisor. */
  method DivideNormalised(u: U64, un10: U64, v: U64) returns (q: U64, r: U64)
    requires TWO64 <= 2 * v && u < v
    ensures u * TWO64 + un10 == q * v + r && r < v
  {
    var q1, u21 := DivideDigit(u, High(un10), v);
    var q0, r0 := DivideDigit(u21, Low(un10), v);
    TwoDigits(u, High(un10), Low(un10), v, q1, u21, q0, r0);
    SumOfHalves(q1, q0);
    q := Wrap(Shl(q1, 32) + q0);
    r := r0;
  }

  lemma SumOfHalves(h: U32, l: U32)
    ensures Wrap(Shl(h, 32) + l) == h * TWO32 + l
  {
    Pow2Word32();
    WrapSmall(h * TWO32);
    WrapSmall(h * TWO32 + l);
  }

  /** One digit of a division by at most 32 bits. */
  method DivideShortDigit(u: U32, next: U32, v: U32) returns (q: U32, rem: U32)
    requires u < v
    ensures u * TWO32 + next == q * v + rem && rem < v
  {
    DigitBound(u, next, v);
    var n := Join(u, next);
    q := n / v;
    rem := n % v;
  }

  /** A divisor of at most 32 bits: two divisions of words. */
  method DivideShort(u1: U64, u0: U64, v: U32) returns (q: U64, r: U64)
    requires u1 < v
    ensures u1 * TWO64 + u0 == q * v + r && r < v
  {
    var high, rem := DivideShortDigit(u1, High(u0), v);
    var low, r0 := DivideShortDigit(rem, Low(u0), v);
    TwoDigits(u1, High(u0), Low(u0), v, high, rem, low, r0);
    q := Join(high, low);
    r := r0;
  }

  /** A number whose high part is shifted to the top of its half fits in both halves. */
  lemma PairFits(v: nat, h: nat, l: nat, p: nat, c: nat, w: nat)
    requires c * p == w && v == h * w + l && l < w
    requires w <= 2 * (h * p) && h * p < w
    ensures w * w <= 2 * (v * p) < 2 * (w * w)
  {
    MulDistributes(h, 1, w);
    PairBelow(v, h, p, c, w);
    PairAbove(v, h, p, w);
  }

  lemma PairAbove(v: nat, h: nat, p: nat, w: nat)
    requires v >= h * w && w <= 2 * (h * p)
    ensures w * w <= 2 * (v * p)
  {
    MulMonotone(p, h * w, v);
    MulAssociates(p, h, w);
    var m := h * p;
    MulMonotone(w, w, 2 * m);
    assert w * (2 * m) == 2 * (m * w);
  }

  lemma PairBelow(v: nat, h: nat, p: nat, c: nat, w: nat)
    requires c * p == w && v < (h + 1) * w && h * p < w
    ensures v * p < w * w
  {
    if h >= c { MulMonotone(p, c, h); }
    assert h + 1 <= c;
    MulMonotone(p, h + 1, c);
    var m := p * (h + 1);
    assert m <= w;
    MulMonotone(w, m, w);
    MulMonotone(p, v + 1, (h + 1) * w);
    MulAssociates(p, h + 1, w);
    MulDistributes(v, 1, p);
  }

  /** Shifting by the leading zeros of the high half keeps the divisor in a word and normalises it. */
  lemma NormalisedDivisor(v: U64, s: nat)
    requires High(v) > 0 && s < 32 && Pow2(31) <= High(v) * Pow2(s) < Pow2(32)
    ensures TWO64 <= 2 * (v * Pow2(s)) < 2 * TWO64
  {
    Pow2Word32();
    assert Pow2(32) == 2 * Pow2(31);
    Pow2Add(32 - s, s);
    PairFits(v, High(v), Low(v), Pow2(s), Pow2(32 - s), TWO32);
  }

  lemma SplitArith(x: nat, h: int, l: int, p: nat, c: nat)
    requires x == h * c + l && 0 <= l < c && c * p == TWO64 && x < TWO64
    ensures 0 <= h < p && x * p == h * TWO64 + l * p && 0 <= l * p < TWO64
  {
    assert p != 0;
    if h >= p { MulMonotone(c, p, h); }
    if h < 0 { MulMonotone(c, h, -1); }
    assert x * p == h * (c * p) + l * p;
    MulMonotone(p, l, c - 1);
    MulMonotone(p, 0, l);
    assert p * (c - 1) == TWO64 - p;
  }

  /** A word shifted left by s is split into the bits shifted out and the bits that stay. */
  lemma ShiftSplits(x: U64, s: nat)
    requires 0 < s < 64
    ensures Shr(x, 64 - s) < Pow2(s)
    ensures x * Pow2(s) == Shr(x, 64 - s) * TWO64 + Shl(x, s)
  {
    var p, c := Pow2(s), Pow2(64 - s);
    assert c * p == TWO64 by { Pow2Add(64 - s, s); Pow2Word64(); }
    var h, l := x / c, x % c;
    assert x == h * c + l;
    SplitArith(x, h, l, p, c);
    DivModUnique(x * p, TWO64, h, l * p);
  }

  lemma DividendArith(u1: nat, u0: nat, v: nat, p: nat, h: nat, low: nat)
    requires u0 * p == h * TWO64 + low && h < p && u1 < v
    ensures u1 * p + h < v * p
    ensures (u1 * p + h) * TWO64 + low == (u1 * TWO64 + u0) * p
  {
    MulMonotone(p, u1 + 1, v);
    assert p * (u1 + 1) == u1 * p + p;
    assert (u1 * TWO64 + u0) * p == u1 * p * TWO64 + u0 * p;
  }

  /** The normalised dividend. */
  lemma NormalisedDividend(u1: U64, u0: U64, v: U64, s: nat)
    requires 0 < s < 64 && u1 < v && v * Pow2(s) < TWO64
    ensures var u := Or(Shl(u1, s), Shr(u0, 64 - s));
            && u < v * Pow2(s)
            && u * TWO64 + Shl(u0, s) == (u1 * TWO64 + u0) * Pow2(s)
  {
    var p, h := Pow2(s), Shr(u0, 64 - s);
    ShiftSplits(u0, s);
    DividendArith(u1, u0, v, p, h, Shl(u0, s));
    WrapSmall(u1 * p);
    OrDisjoint(u1, h, s);
  }

  /** Shifting the remainder back. */
  lemma Denormalise(n: int, q: int, v: nat, rn: nat, p: nat)
    requires p > 0 && n * p == q * (v * p) + rn && rn < v * p
    ensures n == q * v + rn / p && rn / p < v
  {
    var r := n - q * v;
    assert rn == r * p by { assert q * (v * p) == q * v * p; }
    DivModUnique(rn, p, r, 0);
    if r >= v { MulMonotone(p, v, r); }
  }

  /** A divisor of more than 32 bits: normalise, divide by digits, and shift the remainder back. */
  method DivideLong(u1: U64, u0: U64, v: U64, s: nat) returns (q: U64, r: U64)
    requires u1 < v && s < 32 && TWO64 <= 2 * (v * Pow2(s)) < 2 * TWO64
    ensures u1 * TWO64 + u0 == q * v + r && r < v
  {
    var vn, un64, un10 := v, u1, u0;
    if s > 0 {
      WrapSmall(v * Pow2(s));
      NormalisedDividend(u1, u0, v, s);
      vn := Shl(v, s);
      un64 := Or(Shl(u1, s), Shr(u0, 64 - s));
      un10 := Shl(u0, s);
    }
    var rn;
    q, rn := DivideNormalised(un64, un10, vn);
    Denormalise(u1 * TWO64 + u0, q, v, rn, Pow2(s));
    r := Shr(rn, s);
  }

  method Udiv128By64To64(u1: U64, u0: U64, v: U64) returns (q: U64, r: U64)
    requires u1 < v
    ensures u1 * TWO64 + u0 == q * v + r && r < v
  {
    if High(v) == 0 {
      q, r := DivideShort(u1, u0, Low(v));
    } else {
      Pow2Word32();
      var s := Clz(High(v), 32);
      NormalisedDivisor(v, s);
      q, r := DivideLong(u1, u0, v, s);
    }
  }
}
