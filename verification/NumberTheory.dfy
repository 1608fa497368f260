/** Euclid's lemma, the binomial theorem, Fermat's little theorem, and the square roots of one
    modulo a prime. */
module NumberTheory {
  import opened Arith

  predicate Divides(d: int, n: int)
    requires d > 0
  {
    n % d == 0
  }

  ghost predicate Prime(n: int) {
    2 <= n && forall d | 2 <= d < n :: !Divides(d, n)
  }

  /** Euclid's lemma, by descent on the first factor. */
  lemma {:induction false} Euclid(p: int, a: int, b: int)
    requires Prime(p) && 0 < a < p && Divides(p, a * b)
    ensures Divides(p, b)
    decreases a
  {
    if a > 1 {
      var q, r := p / a, p % a;
      assert !Divides(a, p);
      assert r * b == p * b - q * (a * b) by {
        assert p == q * a + r;
      }
      var k := (a * b) / p;
      assert r * b == (b - q * k) * p by {
        assert a * b == k * p;
        assert q * (a * b) == (q * k) * p;
      }
      ModMultiple(b - q * k, p);
      Euclid(p, r, b);
    }
  }

  /** Euclid's lemma for a factor of any size. */
  lemma EuclidAny(p: int, a: int, b: int)
    requires Prime(p) && Divides(p, a * b)
    ensures Divides(p, a) || Divides(p, b)
  {
    if !Divides(p, a) {
      ModMul(a, b, p);
      Euclid(p, a % p, b);
    }
  }

  // ----- binomial coefficients -----

  function Choose(n: nat, k: nat): nat {
    if k == 0 then 1
    else if n == 0 then 0
    else Choose(n - 1, k) + Choose(n - 1, k - 1)
  }

  lemma {:induction false} ChooseBeyond(n: nat, k: nat)
    requires n < k
    ensures Choose(n, k) == 0
  {
    if n > 0 {
      ChooseBeyond(n - 1, k);
      ChooseBeyond(n - 1, k - 1);
    }
  }

  lemma {:induction false} ChooseAll(n: nat)
    ensures Choose(n, n) == 1
  {
    if n > 0 {
      ChooseAll(n - 1);
      ChooseBeyond(n - 1, n);
    }
  }

  /** k C(n, k) = n C(n-1, k-1). */
  lemma {:induction false} ChooseAbsorb(n: nat, k: nat)
    requires 0 < k && 0 < n
    ensures k * Choose(n, k) == n * Choose(n - 1, k - 1)
    decreases n
  {
    if n == 1 {
      if k > 1 { ChooseBeyond(1, k); ChooseBeyond(0, k - 1); }
    } else if k == 1 {
      ChooseAbsorb(n - 1, 1);
    } else {
      ChooseAbsorb(n - 1, k);
      ChooseAbsorb(n - 1, k - 1);
      var a, b, c := Choose(n - 2, k - 1), Choose(n - 2, k - 2), Choose(n - 1, k - 1);
      assert c == a + b && Choose(n, k) == Choose(n - 1, k) + c;
      AbsorbTerm(n, k, a, b, Choose(n - 1, k));
    }
  }

  lemma AbsorbTerm(n: int, k: int, a: int, b: int, d: int)
    requires k * d == (n - 1) * a && (k - 1) * (a + b) == (n - 1) * b
    ensures k * (d + (a + b)) == n * (a + b)
  {
    assert k * (d + (a + b)) == k * d + (k - 1) * (a + b) + (a + b);
    assert n * (a + b) == (n - 1) * a + (n - 1) * b + (a + b);
  }

  /** A prime divides its inner binomial coefficients. */
  lemma PrimeDividesChoose(p: int, k: int)
    requires Prime(p) && 0 < k < p
    ensures Divides(p, Choose(p, k))
  {
    ChooseAbsorb(p, k);
    DividesEqual(p, k * Choose(p, k), Choose(p - 1, k - 1));
    Euclid(p, k, Choose(p, k));
  }

  lemma DividesEqual(p: int, a: int, d: int)
    requires p > 0 && a == p * d
    ensures Divides(p, a)
  {
    ModMultiple(d, p);
  }

  /** The sum of C(n, i) x^i over i < m. */
  function BinomialSum(n: nat, x: int, m: nat): int {
    if m == 0 then 0 else BinomialSum(n, x, m - 1) + Choose(n, m - 1) * Pow(x, m - 1)
  }

  lemma {:induction false} BinomialSumStep(n: nat, x: int, m: nat)
    ensures BinomialSum(n + 1, x, m + 1) == BinomialSum(n, x, m + 1) + x * BinomialSum(n, x, m)
  {
    if m > 0 {
      BinomialSumStep(n, x, m - 1);
      PascalTerm(BinomialSum(n, x, m), BinomialSum(n, x, m - 1), Choose(n, m), Choose(n, m - 1), x, Pow(x, m - 1));
    }
  }

  lemma PascalTerm(s: int, t: int, c: int, d: int, x: int, y: int)
    ensures s + x * t + (c + d) * (x * y) == s + c * (x * y) + x * (t + d * y)
  {
    assert (c + d) * (x * y) == c * (x * y) + d * (x * y);
    assert d * (x * y) == x * (d * y);
    assert x * (t + d * y) == x * t + x * (d * y);
  }

  lemma {:induction false} BinomialTheorem(n: nat, x: int, m: nat)
    requires n < m
    ensures BinomialSum(n, x, m) == Pow(x + 1, n)
  {
    if n == 0 {
      BinomialOfZero(x, m);
    } else {
      BinomialSumStep(n - 1, x, m - 1);
      BinomialTheorem(n - 1, x, m);
      BinomialTheorem(n - 1, x, m - 1);
      MulDistributes(x, 1, Pow(x + 1, n - 1));
    }
  }

  lemma {:induction false} BinomialOfZero(x: int, m: nat)
    requires 0 < m
    ensures BinomialSum(0, x, m) == 1
  {
    if m > 1 {
      BinomialOfZero(x, m - 1);
      ChooseBeyond(0, m - 1);
    }
  }

  lemma TermVanishes(p: int, s: int, c: int, y: int)
    requires p > 0 && Divides(p, c)
    ensures (s + c * y) % p == s % p
  {
    var q := c / p;
    assert c == q * p;
    MulAssociates(y, q, p);
    assert c * y == y * q * p;
    ModAddMultiple(s, y * q, p);
  }

  lemma {:induction false} InnerTermsVanish(p: int, x: int, m: nat)
    requires Prime(p) && 0 < m <= p
    ensures BinomialSum(p, x, m) % p == 1 % p
  {
    if m > 1 {
      InnerTermsVanish(p, x, m - 1);
      PrimeDividesChoose(p, m - 1);
      TermVanishes(p, BinomialSum(p, x, m - 1), Choose(p, m - 1), Pow(x, m - 1));
    } else {
      assert BinomialSum(p, x, 1) == Choose(p, 0) * Pow(x, 0);
    }
  }

  // ----- Fermat's little theorem -----

  /** (x + 1)^p = x^p + 1 modulo p. */
  lemma FreshmansDream(p: int, x: int)
    requires Prime(p)
    ensures Pow(x + 1, p) % p == (Pow(x, p) + 1) % p
  {
    BinomialTheorem(p, x, p + 1);
    ChooseAll(p);
    InnerTermsVanish(p, x, p);
    ModAdd(BinomialSum(p, x, p), Pow(x, p), p);
    ModAdd(1, Pow(x, p), p);
  }

  lemma {:induction false} FermatPower(p: int, a: nat)
    requires Prime(p)
    ensures Pow(a, p) % p == a % p
  {
    if a == 0 {
      assert Pow(0, p) == 0 * Pow(0, p - 1);
    } else {
      FermatPower(p, a - 1);
      FreshmansDream(p, a - 1);
      ModAdd(Pow(a - 1, p), 1, p);
      ModAdd(a - 1, 1, p);
    }
  }

  lemma Fermat(p: int, a: nat)
    requires Prime(p) && 0 < a < p
    ensures Pow(a, p - 1) % p == 1
  {
    FermatPower(p, a);
    var y := Pow(a, p - 1);
    assert Pow(a, p) == a * y;
    ModEqualIff(a * y, a, p);
    assert a * y - a == a * (y - 1);
    Euclid(p, a, y - 1);
    ModEqualIff(y, 1, p);
    DivModUnique(1, p, 0, 1);
  }

  /** Modulo a prime, one has no square roots but one and minus one. */
  lemma SquareRootsOfOne(p: int, b: int)
    requires Prime(p) && 0 <= b < p && (b * b) % p == 1
    ensures b == 1 || b == p - 1
  {
    DivModUnique(1, p, 0, 1);
    ModEqualIff(b * b, 1, p);
    assert b * b - 1 == (b - 1) * (b + 1);
    EuclidAny(p, b - 1, b + 1);
    if Divides(p, b - 1) {
      if b == 0 {
        DivModUnique(-1, p, -1, p - 1);
      } else {
        DivModUnique(b - 1, p, 0, b - 1);
      }
    } else if b + 1 < p {
      DivModUnique(b + 1, p, 0, b + 1);
    }
  }
}
