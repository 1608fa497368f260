/** Unsigned machine words. A word operation is written with integer arithmetic, and its
    wrap-around is written out. */
module Words {
  import opened Arith

  const TWO32: int := 0x1_0000_0000
  const TWO64: int := 0x1_0000_0000_0000_0000
  const TWO128: int := 0x1_0000_0000_0000_0000_0000_0000_0000_0000

  type U8 = x: int | 0 <= x < 256
  type U32 = x: int | 0 <= x < 0x1_0000_0000
  type U64 = x: int | 0 <= x < 0x1_0000_0000_0000_0000

  function Wrap(x: int): U64 {
    x % TWO64
  }

  function Shl(x: U64, s: nat): U64 {
    Wrap(x * Pow2(s))
  }

  function Shr(x: U64, s: nat): U64 {
    ShrBound(x, s);
    x / Pow2(s)
  }

  lemma ShrBound(x: nat, s: nat)
    ensures 0 <= x / Pow2(s) <= x
  {
    var p, q := Pow2(s), x / Pow2(s);
    if q < 0 { MulMonotone(p, q, -1); }
    if q >= 0 { MulMonotone(q, 1, p); }
    assert x == q * p + x % p;
  }

  /** Bitwise or. */
  function Or(a: nat, b: nat): nat {
    if a == 0 && b == 0 then 0
    else 2 * Or(a / 2, b / 2) + (if a % 2 == 1 || b % 2 == 1 then 1 else 0)
  }

  /** Or of words without a common bit: one is a multiple of 2^k and the other is below it. */
  lemma {:induction false} OrDisjoint(a: nat, b: nat, k: nat)
    requires b < Pow2(k)
    ensures Or(a * Pow2(k), b) == a * Pow2(k) + b
  {
    if k == 0 {
      OrZero(a);
      assert a * 1 == a;
    } else {
      var h := a * Pow2(k - 1);
      assert a * Pow2(k) == 2 * h;
      OrDisjoint(a, b / 2, k - 1);
      OrEven(h, b);
    }
  }

  lemma OrEven(h: nat, b: nat)
    ensures Or(2 * h, b) == 2 * Or(h, b / 2) + b % 2
  {
    assert 2 * h / 2 == h && 2 * h % 2 == 0;
  }

  lemma OrOne(x: nat)
    requires x % 2 == 0
    ensures Or(x, 1) == x + 1
  {
    OrEven(x / 2, 1);
    OrZero(x / 2);
  }

  lemma {:induction false} OrZero(a: nat)
    ensures Or(a, 0) == a
  {
    if a > 0 { OrZero(a / 2); }
  }

  lemma {:induction false} OrCommutes(a: nat, b: nat)
    ensures Or(a, b) == Or(b, a)
  {
    if a != 0 || b != 0 { OrCommutes(a / 2, b / 2); }
  }

  /** The number of leading zeros of a nonzero word of `bits` bits, by its mathematical meaning:
      shifting by it brings the highest set bit to the top. */
  function Clz(x: nat, bits: nat): (s: nat)
    requires 0 < x < Pow2(bits)
    ensures s < bits && Pow2(bits - 1) <= x * Pow2(s) < Pow2(bits)
  {
    if x >= Pow2(bits - 1) then 0
    else
      var s := Clz(x, bits - 1);
      DoubleFactor(x, Pow2(s));
      s + 1
  }

  lemma WrapSmall(x: int)
    requires 0 <= x < TWO64
    ensures Wrap(x) == x
  {
    DivModUnique(x, TWO64, 0, x);
  }

  /** Inner wrap-around does not show in a wrapped sum or difference. */
  lemma WrapInner(x: int, y: int, z: int)
    ensures Wrap(Wrap(x) + y - Wrap(z)) == Wrap(x + y - z)
  {
    ModEqualIff(x % TWO64, x, TWO64);
    ModEqualIff(z % TWO64, z, TWO64);
    assert x % TWO64 + y - z % TWO64 - (x + y - z) == (z / TWO64 - x / TWO64) * TWO64;
    ModMultiple(z / TWO64 - x / TWO64, TWO64);
    ModEqualIff(Wrap(x) + y - Wrap(z), x + y - z, TWO64);
  }
}
