/** Division, remainders and powers of integers. */
module Arith {

  lemma DivModUnique(a: int, m: int, q: int, r: int)
    requires m > 0 && 0 <= r < m && a == q * m + r
    ensures a / m == q && a % m == r
  {
    var q', r' := a / m, a % m;
    assert a == m * q' + r' && 0 <= r' < m;
    assert m * (q - q') == r' - r;
    if q > q' {
      MulMonotone(m, 1, q - q');
    } else if q < q' {
      MulMonotone(m, q - q', -1);
    }
  }

  lemma MulMonotone(a: int, x: int, y: int)
    requires 0 <= a && x <= y
    ensures a * x <= a * y
  {
  }

  lemma MulAssociates(a: int, b: int, c: int)
    ensures a * (b * c) == a * b * c
  {
  }

  lemma MulDistributes(a: int, b: int, c: int)
    ensures (a + b) * c == a * c + b * c
  {
  }

  lemma DoubleFactor(a: int, b: int)
    ensures a * (2 * b) == 2 * (a * b)
  {
  }

  /** A product of two sums. */
  lemma MulPairs(a: int, b: int, c: int, d: int)
    ensures (a + b) * (c + d) == a * c + a * d + b * c + b * d
  {
    MulDistributes(a, b, c + d);
    MulDistributes(c, d, a);
    MulDistributes(c, d, b);
  }

  /** Room for one more step below a bound. */
  lemma MulStepBelow(p: int, k: int, c: int)
    requires p > 0 && 0 <= k < c
    ensures 0 <= k * p && k * p + p <= c * p
  {
    MulMonotone(p, 0, k);
    MulMonotone(p, k + 1, c);
    MulDistributes(k, 1, p);
  }

  /** Adding a multiple of the modulus changes nothing. */
  lemma ModAddMultiple(x: int, k: int, m: int)
    requires m > 0
    ensures (x + k * m) % m == x % m
  {
    var q, r := x / m, x % m;
    assert x + k * m == (q + k) * m + r;
    DivModUnique(x + k * m, m, q + k, r);
  }

  lemma ModMultiple(k: int, m: int)
    requires m > 0
    ensures (k * m) % m == 0
  {
    DivModUnique(k * m, m, k, 0);
  }

  lemma ModAdd(a: int, b: int, m: int)
    requires m > 0
    ensures (a % m + b) % m == (a + b) % m
  {
    assert a + b == (a % m + b) + (a / m) * m;
    ModAddMultiple(a % m + b, a / m, m);
  }

  lemma ModMul(a: int, b: int, m: int)
    requires m > 0
    ensures ((a % m) * b) % m == (a * b) % m
  {
    assert a * b == (a % m) * b + (a / m * b) * m by {
      assert a == a % m + (a / m) * m;
      assert a * b == (a % m) * b + (a / m) * m * b;
    }
    ModAddMultiple((a % m) * b, a / m * b, m);
  }

  /** Equal remainders stay equal under multiplication. */
  lemma ModMulCongruent(a: int, a': int, b: int, m: int)
    requires m > 0 && a % m == a' % m
    ensures (a * b) % m == (a' * b) % m
  {
    ModMul(a, b, m);
    ModMul(a', b, m);
  }

  /** Equal remainders mean a difference divisible by the modulus. */
  lemma ModEqualIff(a: int, b: int, m: int)
    requires m > 0
    ensures a % m == b % m <==> (a - b) % m == 0
  {
    if a % m == b % m {
      assert a - b == (a / m - b / m) * m;
      ModMultiple(a / m - b / m, m);
    }
    if (a - b) % m == 0 {
      assert a == b + ((a - b) / m) * m;
      ModAddMultiple(b, (a - b) / m, m);
    }
  }

  function Pow(b: int, e: nat): int {
    if e == 0 then 1 else b * Pow(b, e - 1)
  }

  lemma {:induction false} PowAdd(b: int, m: nat, n: nat)
    ensures Pow(b, m + n) == Pow(b, m) * Pow(b, n)
  {
    if m > 0 {
      PowAdd(b, m - 1, n);
      assert Pow(b, m + n) == b * Pow(b, m - 1 + n);
    }
  }

  lemma {:induction false} PowMul(b: int, m: nat, n: nat)
    ensures 0 <= m * n && Pow(b, m * n) == Pow(Pow(b, m), n)
    decreases n
  {
    if n > 0 {
      PowMul(b, m, n - 1);
      assert m * n == m + m * (n - 1);
      PowAdd(b, m, m * (n - 1));
    }
  }

  lemma {:induction false} PowModBase(b: int, e: nat, m: int)
    requires m > 0
    ensures Pow(b % m, e) % m == Pow(b, e) % m
  {
    if e > 0 {
      PowModBase(b, e - 1, m);
      var x, y := Pow(b % m, e - 1), Pow(b, e - 1);
      ModMul(b, x, m);
      ModMulCongruent(x, y, b, m);
      assert b * x == x * b && b * y == y * b;
    }
  }

  function Pow2(e: nat): (p: nat)
    ensures p > 0
  {
    if e == 0 then 1 else 2 * Pow2(e - 1)
  }

  lemma {:induction false} Pow2Add(m: nat, n: nat)
    ensures Pow2(m + n) == Pow2(m) * Pow2(n)
  {
    if m > 0 {
      Pow2Add(m - 1, n);
      assert Pow2(m + n) == 2 * Pow2(m - 1 + n);
      MulAssociates(2, Pow2(m - 1), Pow2(n));
    }
  }

  lemma {:induction false} Pow2Monotone(m: nat, n: nat)
    requires m <= n
    ensures Pow2(m) <= Pow2(n)
  {
    if m < n { Pow2Monotone(m, n - 1); }
  }

  lemma Pow2Small()
    ensures Pow2(1) == 2 && Pow2(2) == 4 && Pow2(4) == 16 && Pow2(7) == 128 && Pow2(8) == 256
  {
    Pow2Add(4, 3);
    Pow2Add(4, 4);
  }

  lemma Pow2Word32()
    ensures Pow2(32) == 0x1_0000_0000
  {
    assert Pow2(16) == 0x1_0000 by { Pow2Small(); Pow2Add(8, 8); }
    Pow2Add(16, 16);
  }

  lemma Pow2Word64()
    ensures Pow2(64) == 0x1_0000_0000_0000_0000
  {
    Pow2Word32();
    Pow2Add(32, 32);
  }
}
