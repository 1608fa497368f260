/** The `uint128` class: operators on a pair of words, each proved to be the operation on the
    number that the pair denotes (include/common/int128.h). */
module UInt128 {
  import opened Arith
  import opened Words
  import opened Int128

  datatype U128 = U128(high: U64, low: U64) {
    function Value(): (v: int)
      ensures 0 <= v < TWO128
    {
      high * TWO64 + low
    }
  }

  predicate Less(a: U128, b: U128) {
    if a.high == b.high then a.low < b.low else a.high < b.high
  }

  lemma LessIff(a: U128, b: U128)
    ensures Less(a, b) <==> a.Value() < b.Value()
    ensures a == b <==> a.Value() == b.Value()
  {
  }

  // ----- addition, subtraction, shifts -----

  /** A wrapped high word drops a multiple of 2^128. */
  lemma WordPair(h: int, l: U64)
    ensures U128(Wrap(h), l).Value() == (h * TWO64 + l) % TWO128
  {
    assert h * TWO64 + l == (h / TWO64) * TWO128 + (Wrap(h) * TWO64 + l);
    DivModUnique(h * TWO64 + l, TWO128, h / TWO64, Wrap(h) * TWO64 + l);
  }

  function Add(a: U128, b: U128): U128 {
    var carry := if TWO64 - 1 - a.low < b.low then 1 else 0;
    U128(Wrap(a.high + b.high + carry), Wrap(a.low + b.low))
  }

  lemma AddIs(a: U128, b: U128)
    ensures Add(a, b).Value() == (a.Value() + b.Value()) % TWO128
  {
    var carry := if TWO64 - 1 - a.low < b.low then 1 else 0;
    DivModUnique(a.low + b.low, TWO64, carry, a.low + b.low - carry * TWO64);
    WordPair(a.high + b.high + carry, Wrap(a.low + b.low));
  }

  function Sub(a: U128, b: U128): U128 {
    var borrow := if a.low < b.low then 1 else 0;
    U128(Wrap(a.high - b.high - borrow), Wrap(a.low - b.low))
  }

  lemma SubIs(a: U128, b: U128)
    ensures Sub(a, b).Value() == (a.Value() - b.Value()) % TWO128
  {
    var borrow := if a.low < b.low then 1 else 0;
    DivModUnique(a.low - b.low, TWO64, -borrow, a.low - b.low + borrow * TWO64);
    WordPair(a.high - b.high - borrow, Wrap(a.low - b.low));
  }

  /** Shifts by less than the width; a larger shift is undefined in the source language. */
  function ShiftLeft(a: U128, s: nat): U128
    requires s < 128
  {
    if s < 64 then
      if s != 0 then
        ShiftedHigh(a, s);
        U128(Or(Shl(a.high, s), Shr(a.low, 64 - s)), Shl(a.low, s))
      else a
    else U128(Shl(a.low, s - 64), 0)
  }

  /** The bits shifted in do not meet the bits shifted up. */
  lemma ShiftedHigh(a: U128, s: nat)
    requires 0 < s < 64
    ensures Or(Shl(a.high, s), Shr(a.low, 64 - s)) == Shl(a.high, s) + Shr(a.low, 64 - s) < TWO64
  {
    ShiftSplits(a.low, s);
    var k := ShlMultiple(a.high, s);
    OrDisjoint(k, Shr(a.low, 64 - s), s);
  }

  /** A word shifted left is a multiple of 2^s that leaves room for s more bits. */
  lemma ShlMultiple(x: U64, s: nat) returns (k: nat)
    requires 0 < s < 64
    ensures Shl(x, s) == k * Pow2(s) && Shl(x, s) + Pow2(s) <= TWO64
  {
    var p, c := Pow2(s), Pow2(64 - s);
    assert c * p == TWO64 by { Pow2Add(64 - s, s); Pow2Word64(); }
    k := x % c;
    MulStepBelow(p, k, c);
    ShiftedWord(x, x / c, k, p, c);
  }

  lemma ShiftedWord(x: nat, h: int, k: int, p: nat, c: nat)
    requires x == h * c + k && c * p == TWO64 && 0 <= k * p < TWO64
    ensures Wrap(x * p) == k * p
  {
    MulDistributes(h * c, k, p);
    MulAssociates(h, c, p);
    DivModUnique(x * p, TWO64, h, k * p);
  }

  lemma ShiftLeftIs(a: U128, s: nat)
    requires s < 128
    ensures ShiftLeft(a, s).Value() == (a.Value() * Pow2(s)) % TWO128
  {
    if s == 0 {
      DivModUnique(a.Value(), TWO128, 0, a.Value());
    } else if s < 64 {
      ShiftLeftShort(a, s);
    } else {
      ShiftLeftLong(a, s);
    }
  }

  lemma ShiftLeftLong(a: U128, s: nat)
    requires 64 <= s < 128
    ensures ShiftLeft(a, s).Value() == (a.Value() * Pow2(s)) % TWO128
  {
    var p := Pow2(s - 64);
    assert Pow2(s) == p * TWO64 by { Pow2Add(s - 64, 64); Pow2Word64(); }
    WordPair(a.low * p, 0);
    ShiftLong(a.high, a.low, p);
    ModAddMultiple(a.low * p * TWO64, a.high * p, TWO128);
  }

  lemma ShiftLong(h: int, l: int, p: int)
    ensures (h * TWO64 + l) * (p * TWO64) == l * p * TWO64 + h * p * TWO128
  {
    assert (h * TWO64 + l) * (p * TWO64) == h * TWO64 * (p * TWO64) + l * (p * TWO64);
    assert h * TWO64 * (p * TWO64) == h * p * (TWO64 * TWO64);
  }

  lemma ShiftShortArith(ah: int, al: int, p: int, h: int, low: int)
    requires al * p == h * TWO64 + low
    ensures (ah * TWO64 + al) * p == (ah * p + h) * TWO64 + low
  {
    assert (ah * TWO64 + al) * p == ah * p * TWO64 + al * p;
  }

  lemma WrapRoom(x: int, h: nat)
    requires Wrap(x) + h < TWO64
    ensures Wrap(x + h) == Wrap(x) + h
  {
    DivModUnique(x + h, TWO64, x / TWO64, x % TWO64 + h);
  }

  lemma ShiftLeftShort(a: U128, s: nat)
    requires 0 < s < 64
    ensures ShiftLeft(a, s).Value() == (a.Value() * Pow2(s)) % TWO128
  {
    var p, h, low := Pow2(s), Shr(a.low, 64 - s), Shl(a.low, s);
    ShiftSplits(a.low, s);
    ShiftedHigh(a, s);
    WrapRoom(a.high * p, h);
    WordPair(a.high * p + h, low);
    ShiftShortArith(a.high, a.low, p, h, low);
  }

  function ShiftRight(a: U128, s: nat): U128
    requires s < 128
  {
    if s < 64 then
      if s != 0 then
        ShiftedLow(a, s);
        U128(Shr(a.high, s), Or(Shr(a.low, s), Shl(a.high, 64 - s)))
      else a
    else U128(0, Shr(a.high, s - 64))
  }

  lemma ShiftedLow(a: U128, s: nat)
    requires 0 < s < 64
    ensures Or(Shr(a.low, s), Shl(a.high, 64 - s)) == Shr(a.low, s) + Shl(a.high, 64 - s) < TWO64
  {
    var k := ShlMultiple(a.high, 64 - s);
    ShiftSplits(a.low, 64 - s);
    OrDisjoint(k, Shr(a.low, s), 64 - s);
    OrCommutes(Shr(a.low, s), Shl(a.high, 64 - s));
  }

  lemma ShiftRightIs(a: U128, s: nat)
    requires s < 128
    ensures ShiftRight(a, s).Value() == a.Value() / Pow2(s)
  {
    if 0 < s < 64 {
      ShiftRightShort(a, s);
    } else if s >= 64 {
      ShiftRightWhole(a, s);
    }
  }

  lemma ShiftRightWhole(a: U128, s: nat)
    requires 64 <= s < 128
    ensures ShiftRight(a, s).Value() == a.Value() / Pow2(s)
  {
    var p := Pow2(s - 64);
    assert Pow2(s) == p * TWO64 by { Pow2Add(s - 64, 64); Pow2Word64(); }
    ShiftRightLong(a.high, a.low, p);
  }

  lemma ShiftRightShort(a: U128, s: nat)
    requires 0 < s < 64
    ensures ShiftRight(a, s).Value() == a.Value() / Pow2(s)
  {
    ShiftedLow(a, s);
    ShiftSplits(a.high, 64 - s);
    var p, c := Pow2(s), Pow2(64 - s);
    assert c * p == TWO64 by { Pow2Add(64 - s, s); Pow2Word64(); }
    ShiftRightArith(a.high, a.low, p, c, Shr(a.high, s), Shl(a.high, 64 - s), Shr(a.low, s));
  }

  lemma ShiftRightArith(h: nat, l: nat, p: nat, c: nat, hh: nat, hl: nat, lh: nat)
    requires p > 0 && c * p == TWO64 && h * c == hh * TWO64 + hl && lh == l / p
    ensures (h * TWO64 + l) / p == hh * TWO64 + (lh + hl)
  {
    assert h * TWO64 == h * c * p;
    assert h * TWO64 + l == (hh * TWO64 + hl) * p + (lh * p + l % p);
    assert (hh * TWO64 + (lh + hl)) * p == (hh * TWO64 + hl) * p + lh * p;
    DivModUnique(h * TWO64 + l, p, hh * TWO64 + (lh + hl), l % p);
  }

  lemma ShiftRightLong(h: nat, l: U64, p: nat)
    requires p > 0
    ensures (h * TWO64 + l) / (p * TWO64) == h / p
  {
    var q, r := h / p, h % p;
    MulMonotone(TWO64, r, p - 1);
    assert h * TWO64 + l == q * (p * TWO64) + (r * TWO64 + l) by {
      assert h == q * p + r;
      assert h * TWO64 == q * p * TWO64 + r * TWO64;
    }
    assert TWO64 * (p - 1) == p * TWO64 - TWO64;
    DivModUnique(h * TWO64 + l, p * TWO64, q, r * TWO64 + l);
  }

  // ----- multiplication -----

  /** The product by halves, with the carries left to the 128-bit additions. */
  function Mul(a: U128, b: U128): U128 {
    var a32, a00, b32, b00 := High(a.low), Low(a.low), High(b.low), Low(b.low);
    HalvesFit(a32, b32);
    HalvesFit(a00, b00);
    HalvesFit(a32, b00);
    HalvesFit(a00, b32);
    Combine(a.high * b.low + a.low * b.high + a32 * b32, a00 * b00, a32 * b00, a00 * b32)
  }

  function Combine(cross: int, low: U64, x: U64, y: U64): U128 {
    Add(Add(U128(Wrap(cross), low), ShiftLeft(U128(0, x), 32)), ShiftLeft(U128(0, y), 32))
  }

  lemma HalvesFit(x: U32, y: U32)
    ensures 0 <= x * y < TWO64
  {
    MulMonotone(x, y, TWO32 - 1);
    MulMonotone(TWO32 - 1, x, TWO32 - 1);
    MulMonotone(x, 0, y);
  }

  lemma ShiftedHalf(x: U64)
    ensures ShiftLeft(U128(0, x), 32).Value() == x * TWO32
  {
    Pow2Word32();
    ShiftLeftIs(U128(0, x), 32);
    DivModUnique(x * TWO32, TWO128, 0, x * TWO32);
  }

  lemma ProductOfPairs(ah: int, al: int, bh: int, bl: int, a32: int, a00: int, b32: int, b00: int)
    requires al == a32 * TWO32 + a00 && bl == b32 * TWO32 + b00
    ensures (ah * TWO64 + al) * (bh * TWO64 + bl)
         == (ah * bl + al * bh + a32 * b32) * TWO64 + a00 * b00 + a32 * b00 * TWO32 + a00 * b32 * TWO32
            + ah * bh * TWO128
  {
    ProductOfSplit(ah, al, bh, bl, TWO64);
    ProductOfSplit(a32, a00, b32, b00, TWO32);
    MulDistributes(ah * bl + al * bh, a32 * b32, TWO64);
    MulDistributes(a32 * b00, a00 * b32, TWO32);
  }

  lemma ProductOfSplit(ah: int, al: int, bh: int, bl: int, w: int)
    ensures (ah * w + al) * (bh * w + bl) == ah * bh * (w * w) + (ah * bl + al * bh) * w + al * bl
  {
    MulPairs(ah * w, al, bh * w, bl);
    assert ah * w * (bh * w) == ah * bh * (w * w) by {
      MulAssociates(ah * w, bh, w);
      MulAssociates(ah, w, bh);
      MulAssociates(ah, bh, w);
      MulAssociates(ah * bh, w, w);
    }
    assert ah * w * bl == ah * bl * w && al * (bh * w) == al * bh * w by {
      MulAssociates(ah, w, bl);
      MulAssociates(ah, bl, w);
      MulAssociates(al, bh, w);
    }
    MulDistributes(ah * bl, al * bh, w);
  }

  lemma AddThree(a: U128, b: U128, c: U128)
    ensures Add(Add(a, b), c).Value() == (a.Value() + b.Value() + c.Value()) % TWO128
  {
    AddIs(a, b);
    AddIs(Add(a, b), c);
    ModAdd(a.Value() + b.Value(), c.Value(), TWO128);
  }

  lemma CombineIs(cross: int, low: U64, x: U64, y: U64, k: int, total: int)
    requires total == cross * TWO64 + low + x * TWO32 + y * TWO32 + k * TWO128
    ensures Combine(cross, low, x, y).Value() == total % TWO128
  {
    var t := cross * TWO64 + low;
    ShiftedHalf(x);
    ShiftedHalf(y);
    WordPair(cross, low);
    AddThree(U128(Wrap(cross), low), ShiftLeft(U128(0, x), 32), ShiftLeft(U128(0, y), 32));
    ModAdd(t, x * TWO32 + y * TWO32, TWO128);
    ModAddMultiple(t + x * TWO32 + y * TWO32, k, TWO128);
  }

  /** The product is exact modulo 2^128. */
  lemma MulIs(a: U128, b: U128)
    ensures Mul(a, b).Value() == (a.Value() * b.Value()) % TWO128
  {
    var a32: int, a00: int, b32: int, b00: int := High(a.low), Low(a.low), High(b.low), Low(b.low);
    HalvesFit(a32, b32);
    HalvesFit(a00, b00);
    HalvesFit(a32, b00);
    HalvesFit(a00, b32);
    ProductOfPairs(a.high, a.low, b.high, b.low, a32, a00, b32, b00);
    CombineIs(a.high * b.low + a.low * b.high + a32 * b32, a00 * b00, a32 * b00, a00 * b32,
              a.high * b.high, a.Value() * b.Value());
  }

  /** `rapidMum`: both words of the full product of two words. */
  method RapidMum(a0: U64, b0: U64) returns (a: U64, b: U64)
    ensures b * TWO64 + a == a0 * b0
  {
    var r := Mul(U128(0, a0), U128(0, b0));
    MulIs(U128(0, a0), U128(0, b0));
    ShiftRightIs(r, 64);
    Pow2Word64();
    MulMonotone(a0, b0, TWO64);
    MulMonotone(a0, 0, b0);
    DivModUnique(a0 * b0, TWO128, 0, a0 * b0);
    a, b := r.low, ShiftRight(r, 64).low;
  }

  // ----- division -----

  function LeadingZeros(a: U128): nat {
    Pow2Word64();
    if a.high != 0 then Clz(a.high, 64)
    else if a.low != 0 then Clz(a.low, 64) + 64
    else 128
  }

  lemma ZerosOfHigh(h: U64, l: U64, s: nat)
    requires s < 64 && Pow2(63) <= h * Pow2(s) < Pow2(64)
    ensures TWO128 <= 2 * ((h * TWO64 + l) * Pow2(s)) && (h * TWO64 + l) * Pow2(s) < TWO128
  {
    Pow2Word64();
    assert Pow2(64) == 2 * Pow2(63);
    Pow2Add(64 - s, s);
    PairFits(h * TWO64 + l, h, l, Pow2(s), Pow2(64 - s), TWO64);
  }

  lemma ZerosOfLow(l: U64, s: nat)
    requires Pow2(63) <= l * Pow2(s) < Pow2(64)
    ensures TWO128 <= 2 * (l * Pow2(s + 64)) && l * Pow2(s + 64) < TWO128
  {
    Pow2Word64();
    assert Pow2(64) == 2 * Pow2(63);
    Pow2Add(s, 64);
    var x := l * Pow2(s);
    assert l * (Pow2(s) * TWO64) == x * TWO64;
  }

  /** Shifting by the leading zeros brings the highest bit to the top. */
  lemma LeadingZerosIs(a: U128)
    requires a.Value() > 0
    ensures var s := LeadingZeros(a);
            s < 128 && TWO128 <= 2 * (a.Value() * Pow2(s)) && a.Value() * Pow2(s) < TWO128
  {
    Pow2Word64();
    if a.high != 0 {
      ZerosOfHigh(a.high, a.low, Clz(a.high, 64));
    } else {
      ZerosOfLow(a.low, Clz(a.low, 64));
    }
  }

  lemma ZerosArith(l: nat, r: nat, p: nat, q: nat)
    requires r <= l && 2 * p <= q
    ensures 2 * (r * p) <= l * q
  {
    MulMonotone(p, r, l);
    MulMonotone(l, 2 * p, q);
    assert l * (2 * p) == 2 * (p * l);
  }

  /** The larger number has no more leading zeros. */
  lemma FewerZeros(l: nat, r: nat, sl: nat, sr: nat)
    requires r < l && TWO128 <= 2 * (r * Pow2(sr)) && l * Pow2(sl) < TWO128
    ensures sl <= sr
  {
    if sr < sl {
      Pow2Monotone(sr + 1, sl);
      ZerosArith(l, r, Pow2(sr), Pow2(sl));
    }
  }

  lemma AlignedArith(l: nat, r: nat, p: nat, d: nat)
    requires p > 0 && TWO128 <= 2 * (r * (d * p)) && r * (d * p) < TWO128 && l * p < TWO128
    ensures r * d < TWO128 && l < 2 * (r * d)
  {
    var x := r * d;
    assert r * (d * p) == p * x;
    MulMonotone(x, 1, p);
    if l >= 2 * x { MulMonotone(p, 2 * x, l); }
  }

  /** The divisor is shifted up to the highest bit of the dividend, and not further. */
  lemma AlignedDivisor(l: nat, r: nat, sl: nat, sr: nat)
    requires r < l
    requires TWO128 <= 2 * (r * Pow2(sr)) && r * Pow2(sr) < TWO128 && l * Pow2(sl) < TWO128
    ensures sl <= sr && r * Pow2(sr - sl) < TWO128 && l < r * Pow2(sr - sl + 1)
  {
    FewerZeros(l, r, sl, sr);
    Pow2Add(sr - sl, sl);
    AlignedArith(l, r, Pow2(sl), Pow2(sr - sl));
    assert r * Pow2(sr - sl + 1) == 2 * (r * Pow2(sr - sl));
  }

  method DivBy64(l: U128, r: U64) returns (q: U128)
    requires r > 0
    ensures q.Value() == l.Value() / r
  {
    if l.high == 0 && l.low < r {
      DivModUnique(l.Value(), r, 0, l.low);
      return U128(l.high, 0);
    }
    if l.high < r {
      var low, rem := Udiv128By64To64(l.high, l.low, r);
      DivModUnique(l.Value(), r, low, rem);
      return U128(0, low);
    }
    var high := l.high / r;
    var low, rem := Udiv128By64To64(l.high % r, l.low, r);
    LongQuotient(l.high, l.low, r, low, rem);
    return U128(high, low);
  }

  lemma LongQuotient(h: nat, l: nat, r: nat, low: nat, rem: nat)
    requires r > 0 && low * r + rem == h % r * TWO64 + l && rem < r
    ensures (h * TWO64 + l) / r == h / r * TWO64 + low
  {
    var q := h / r;
    assert h == q * r + h % r;
    assert h * TWO64 + l == (q * TWO64 + low) * r + rem by {
      assert h * TWO64 == q * r * TWO64 + h % r * TWO64;
      assert (q * TWO64 + low) * r == q * r * TWO64 + low * r;
    }
    DivModUnique(h * TWO64 + l, r, q * TWO64 + low, rem);
  }

  /** After the bits above 2^k were divided: the quotient so far and what is left. */
  ghost predicate Dividing(l0: nat, r: nat, k: nat, quotient: nat, l: nat) {
    l0 == quotient * (r * Pow2(k)) + l && l < r * Pow2(k)
  }

  lemma DividingStep(l0: nat, r: nat, k: nat, q: nat, l: nat, d: nat, q': nat, l': nat)
    requires k > 0 && Dividing(l0, r, k, q, l) && d == r * Pow2(k - 1)
    requires if l >= d then q' == 2 * q + 1 && l' == l - d else q' == 2 * q && l' == l
    ensures Dividing(l0, r, k - 1, q', l')
  {
    DoubleFactor(r, Pow2(k - 1));
    DoubleFactor(q, d);
    MulDistributes(2 * q, 1, d);
    MulAssociates(2, q, d);
  }

  /** The shift of the divisor before the loop, and its halving in the loop. */
  lemma ShiftUp(r: U128, s: nat)
    requires s < 128 && r.Value() * Pow2(s) < TWO128
    ensures ShiftLeft(r, s).Value() == r.Value() * Pow2(s)
  {
    ShiftLeftIs(r, s);
    DivModUnique(r.Value() * Pow2(s), TWO128, 0, r.Value() * Pow2(s));
  }

  lemma SubExact(a: U128, b: U128)
    requires b.Value() <= a.Value()
    ensures Sub(a, b).Value() == a.Value() - b.Value()
  {
    SubIs(a, b);
    DivModUnique(a.Value() - b.Value(), TWO128, 0, a.Value() - b.Value());
  }

  /** `<<= s` without overflow. */
  method ShiftUpBy(a: U128, s: nat) returns (r: U128)
    requires s < 128 && a.Value() * Pow2(s) < TWO128
    ensures r.Value() == a.Value() * Pow2(s)
  {
    ShiftUp(a, s);
    r := ShiftLeft(a, s);
  }

  /** `<<= 1` without overflow. */
  method Double(a: U128) returns (r: U128)
    requires 2 * a.Value() < TWO128
    ensures r.Value() == 2 * a.Value()
  {
    assert Pow2(1) == 2;
    r := ShiftUpBy(a, 1);
  }

  /** `>>= 1`. */
  method Halve(a: U128) returns (r: U128)
    ensures r.Value() == a.Value() / 2
  {
    ShiftRightIs(a, 1);
    assert Pow2(1) == 2;
    r := ShiftRight(a, 1);
  }

  /** `-=` without borrow. */
  method Subtract(a: U128, b: U128) returns (r: U128)
    requires b.Value() <= a.Value()
    ensures r.Value() == a.Value() - b.Value()
  {
    SubExact(a, b);
    r := Sub(a, b);
  }

  /** `|= 1` on an even number. */
  lemma LowBit(a: U128)
    ensures a.low % 2 == a.Value() % 2
  {
    ModAddMultiple(a.low, a.high * 0x8000_0000_0000_0000, 2);
    assert a.Value() == a.low + a.high * 0x8000_0000_0000_0000 * 2;
  }

  method SetLowBit(a: U128) returns (r: U128)
    requires a.Value() % 2 == 0
    ensures r.Value() == a.Value() + 1
  {
    LowBit(a);
    OrZero(a.high);
    OrOne(a.low);
    r := U128(Or(a.high, 0), Or(a.low, 1));
  }

  /** While the divisor is at least 2^64, the quotient stays below 2^64. */
  lemma QuotientFits(l0: nat, r: nat, k: nat, quotient: nat, l: nat)
    requires Dividing(l0, r, k, quotient, l) && l0 < TWO128 && r >= TWO64
    ensures quotient < TWO64
  {
    MulMonotone(r, 1, Pow2(k));
    MulMonotone(quotient, TWO64, r * Pow2(k));
    if quotient >= TWO64 { MulMonotone(TWO64, TWO64, quotient); }
  }

  /** The shifted divisor before the loop, with the state of the loop. */
  method Align(l: U128, r: U128) returns (denominator: U128, shift: nat)
    requires 0 < r.Value() < l.Value()
    ensures shift < 128 && denominator.Value() == r.Value() * Pow2(shift)
    ensures Dividing(l.Value(), r.Value(), shift + 1, 0, l.Value())
  {
    LeadingZerosIs(l);
    LeadingZerosIs(r);
    AlignedDivisor(l.Value(), r.Value(), LeadingZeros(l), LeadingZeros(r));
    shift := LeadingZeros(r) - LeadingZeros(l);
    denominator := ShiftUpBy(r, shift);
  }

  lemma HalvedDivisor(r: nat, k: nat)
    ensures k > 0 ==> (r * Pow2(k)) / 2 == r * Pow2(k - 1)
  {
    if k > 0 { assert r * Pow2(k) == 2 * (r * Pow2(k - 1)); }
  }

  method Div(l0: U128, r: U128) returns (quotient: U128)
    requires r.Value() > 0
    ensures quotient.Value() == l0.Value() / r.Value()
  {
    LessIff(l0, r);
    if Less(l0, r) {
      DivModUnique(l0.Value(), r.Value(), 0, l0.Value());
      return U128(0, 0);
    }
    if r == l0 {
      DivModUnique(l0.Value(), r.Value(), 1, 0);
      return U128(0, 1);
    }
    if r.high == 0 {
      quotient := DivBy64(l0, r.low);
      return;
    }
    quotient := DivLoop(l0, r);
  }

  /** The shift-subtract loop of `/`. */
  method DivLoop(l0: U128, r: U128) returns (quotient: U128)
    requires TWO64 <= r.Value() < l0.Value()
    ensures quotient.Value() == l0.Value() / r.Value()
  {
    var denominator, shift := Align(l0, r);
    var l := l0;
    quotient := U128(0, 0);
    for i := 0 to shift + 1
      invariant i <= shift ==> denominator.Value() == r.Value() * Pow2(shift - i)
      invariant Dividing(l0.Value(), r.Value(), shift + 1 - i, quotient.Value(), l.Value())
    {
      QuotientFits(l0.Value(), r.Value(), shift + 1 - i, quotient.Value(), l.Value());
      var q', l' := DivStep(quotient, l, denominator);
      DividingStep(l0.Value(), r.Value(), shift + 1 - i, quotient.Value(), l.Value(), denominator.Value(),
                   q'.Value(), l'.Value());
      quotient, l := q', l';
      HalvedDivisor(r.Value(), shift - i);
      denominator := Halve(denominator);
    }
    DivModUnique(l0.Value(), r.Value(), quotient.Value(), l.Value());
  }

  /** One round of the loop: shift the quotient, and subtract the divisor if it fits. */
  method DivStep(q: U128, l: U128, d: U128) returns (q': U128, l': U128)
    requires q.Value() < TWO64
    ensures if l.Value() >= d.Value() then q'.Value() == 2 * q.Value() + 1 && l'.Value() == l.Value() - d.Value()
            else q'.Value() == 2 * q.Value() && l' == l
  {
    LessIff(l, d);
    l' := l;
    q' := Double(q);
    if !Less(l, d) {
      l' := Subtract(l, d);
      q' := SetLowBit(q');
    }
  }

  method Mod(l0: U128, r: U128) returns (l: U128)
    requires r.Value() > 0
    ensures l.Value() == l0.Value() % r.Value()
  {
    LessIff(l0, r);
    if Less(l0, r) {
      DivModUnique(l0.Value(), r.Value(), 0, l0.Value());
      return l0;
    }
    if r == l0 {
      DivModUnique(l0.Value(), r.Value(), 1, 0);
      return U128(0, 0);
    }
    l := ModLoop(l0, r);
  }

  /** The shift-subtract loop of `%`, which serves divisors of every size. */
  method ModLoop(l0: U128, r: U128) returns (l: U128)
    requires 0 < r.Value() < l0.Value()
    ensures l.Value() == l0.Value() % r.Value()
  {
    var denominator, shift := Align(l0, r);
    l := l0;
    ghost var quotient: nat := 0;
    for i := 0 to shift + 1
      invariant i <= shift ==> denominator.Value() == r.Value() * Pow2(shift - i)
      invariant Dividing(l0.Value(), r.Value(), shift + 1 - i, quotient, l.Value())
    {
      ghost var q, rest := quotient, l.Value();
      LessIff(l, denominator);
      quotient := 2 * q;
      if !Less(l, denominator) {
        l := Subtract(l, denominator);
        quotient := 2 * q + 1;
      }
      DividingStep(l0.Value(), r.Value(), shift + 1 - i, q, rest, denominator.Value(), quotient, l.Value());
      HalvedDivisor(r.Value(), shift - i);
      denominator := Halve(denominator);
    }
    DivModUnique(l0.Value(), r.Value(), quotient, l.Value());
  }
}
