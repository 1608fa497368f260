/** The grammar of the numbers in closed form: which bytes are an encoding, of which value, and how
    each malformed sequence is reported. */
module Leb128Forms {
  import opened Arith
  import opened Words
  import opened Leb128

  /** The groups of seven bits of which an encoding of n bits has at most as many. */
  function Groups(n: nat): nat {
    (n + 6) / 7
  }

  /** Every byte has its continuation bit set. */
  predicate Continue(bs: seq<U8>) {
    forall i | 0 <= i < |bs| :: bs[i] >= 128
  }

  /** The last byte, and no other, has its continuation bit clear. */
  predicate Terminated(bs: seq<U8>) {
    bs != [] && bs[|bs| - 1] < 128 && Continue(bs[..|bs| - 1])
  }

  /** The number whose groups of seven bits, the lowest first, are those of the bytes. */
  function Positional(bs: seq<U8>): nat {
    if bs == [] then 0
    else
      var k := |bs| - 1;
      Weighted(Payload(bs[k]), k) + Positional(bs[..k])
  }

  function Weighted(x: nat, k: nat): nat {
    x * Pow2(7 * k)
  }

  /** The same number read as a two's-complement number of as many groups. */
  function SignedPositional(bs: seq<U8>): int {
    if bs != [] && Payload(bs[|bs| - 1]) >= 64 then Positional(bs) - Pow2(7 * |bs|) else Positional(bs)
  }

  lemma WeightedNext(x: nat, k: nat)
    ensures Weighted(x, k + 1) == 128 * Weighted(x, k)
  {
    Split7(7 * k + 7);
    MulAssociates(x, 128, Pow2(7 * k));
    MulAssociates(128, x, Pow2(7 * k));
  }

  lemma {:induction false} PositionalFirst(bs: seq<U8>)
    requires bs != []
    ensures Positional(bs) == Payload(bs[0]) + 128 * Positional(bs[1..])
    decreases |bs|
  {
    var k := |bs| - 1;
    if k == 0 {
      assert bs[1..] == [] && bs[..0] == [];
      assert Pow2(7 * 0) == 1;
    } else {
      PositionalFirst(bs[..k]);
      assert bs[..k][1..] == bs[1..][..k - 1];
      WeightedNext(Payload(bs[k]), k - 1);
    }
  }

  lemma SignedFirst(bs: seq<U8>)
    requires |bs| > 1
    ensures SignedPositional(bs) == Payload(bs[0]) + 128 * SignedPositional(bs[1..])
  {
    PositionalFirst(bs);
    Split7(7 * |bs|);
    assert 7 * |bs[1..]| == 7 * |bs| - 7;
  }

  lemma TerminatedRest(bs: seq<U8>)
    requires bs != [] && bs[0] >= 128
    ensures Terminated(bs) <==> Terminated(bs[1..])
  {
    if |bs| > 1 {
      var front, rest := bs[..|bs| - 1], bs[1..][..|bs| - 2];
      assert front == [bs[0]] + rest;
    }
  }

  lemma {:induction false} SmallPowers()
    ensures Pow2(0) == 1 && Pow2(6) == 64 && Pow2(7) == 128
  {
    Pow2Small();
    HalfRange();
  }

  /** The bytes are an encoding of v as an unsigned integer of n bits exactly when they are a terminated
      sequence of at most ceil(n / 7) groups with the value v, and v has at most n bits. */
  lemma {:induction false} IsUForm(n: nat, bs: seq<U8>, v: int)
    requires n > 0
    ensures IsU(n, bs, v) <==> Terminated(bs) && |bs| <= Groups(n) && v == Positional(bs) && v < Pow2(n)
    decreases |bs|
  {
    if bs != [] {
      PositionalFirst(bs);
      if bs[0] < 128 {
        assert Terminated(bs) <==> |bs| == 1;
        assert |bs| == 1 ==> bs[1..] == [];
      } else {
        TerminatedRest(bs);
        if n > 7 {
          IsUForm(n - 7, bs[1..], v / 128);
          Split7(n);
        }
      }
    }
  }

  /** The same for signed integers: the value is the two's-complement one and is in range. */
  lemma {:induction false} IsSForm(n: nat, bs: seq<U8>, v: int)
    requires n > 0
    ensures IsS(n, bs, v) <==> Terminated(bs) && |bs| <= Groups(n) && v == SignedPositional(bs) && FitsS(n, v)
    decreases |bs|
  {
    if bs != [] {
      if bs[0] < 128 {
        assert Terminated(bs) <==> |bs| == 1;
        if |bs| == 1 { OneByte(bs); }
      } else {
        TerminatedRest(bs);
        if |bs| > 1 { SignedFirst(bs); }
        if n > 7 {
          IsSForm(n - 7, bs[1..], v / 128);
          Split7(n - 1);
        }
      }
    }
  }

  lemma OneByte(bs: seq<U8>)
    requires |bs| == 1 && bs[0] < 128
    ensures SignedPositional(bs) == if bs[0] < 64 then bs[0] else bs[0] as int - 128
  {
    PositionalFirst(bs);
    assert bs[1..] == [];
    SmallPowers();
  }

  lemma ContinueRest(bs: seq<U8>, m: nat)
    requires 0 < m <= |bs|
    ensures Continue(bs[..m]) <==> bs[0] >= 128 && Continue(bs[1..][..m - 1])
  {
    assert bs[..m] == [bs[0]] + bs[1..][..m - 1];
  }

  /** The end of the input is reported exactly when it comes before a byte without continuation bit and
      before the last group that there may be. */
  lemma {:induction false} EndIsReportedIff(n: nat, bs: seq<U8>)
    requires n > 0
    ensures ParseU(n, bs) == Failed(UnexpectedEnd, |bs|) <==> |bs| < Groups(n) && Continue(bs)
    ensures ParseS(n, bs) == Failed(UnexpectedEnd, |bs|) <==> |bs| < Groups(n) && Continue(bs)
    decreases |bs|
  {
    if bs != [] && n > 7 && bs[0] >= 128 {
      EndIsReportedIff(n - 7, bs[1..]);
      assert bs == [bs[0]] + bs[1..];
    }
  }

  /** How malformed unsigned numbers are reported: the last group that there may be has bits that do not
      fit, or it has its continuation bit set. */
  lemma {:induction false} UnsignedErrors(n: nat, bs: seq<U8>)
    requires n > 0 && |bs| >= Groups(n) && Continue(bs[..Groups(n) - 1])
    ensures var m := Groups(n);
            var fits := Payload(bs[m - 1]) < Pow2(n - 7 * (m - 1));
            ParseU(n, bs).Read? || ParseU(n, bs) == Failed(if fits then IntegerTooLong else IntegerTooLarge, m)
    ensures var m := Groups(n);
            ParseU(n, bs).Read? <==> bs[m - 1] < 128 && Payload(bs[m - 1]) < Pow2(n - 7 * (m - 1))
    decreases |bs|
  {
    if n > 7 {
      ContinueRest(bs, Groups(n) - 1);
      UnsignedErrors(n - 7, bs[1..]);
    } else {
      SmallPowers();
    }
  }

  /** The last group of a signed number has its continuation bit set, or its bits above the sign bit are
      not copies of it. */
  lemma {:induction false} SignedErrors(n: nat, bs: seq<U8>)
    requires n > 0 && |bs| >= Groups(n) && Continue(bs[..Groups(n) - 1])
    ensures var m := Groups(n);
            ParseS(n, bs).Read? ||
            ParseS(n, bs) == Failed(if bs[m - 1] >= 128 then IntegerTooLong else IntegerTooLarge, m)
    ensures var m := Groups(n);
            var half := Pow2(n - 7 * (m - 1) - 1);
            ParseS(n, bs).Read? <==> bs[m - 1] < half || 128 - half <= bs[m - 1] < 128
    decreases |bs|
  {
    if n > 7 {
      ContinueRest(bs, Groups(n) - 1);
      SignedErrors(n - 7, bs[1..]);
    } else {
      SmallPowers();
    }
  }
}
