/** The variable-length integers of the binary format, section 5.2.2 of the WebAssembly Core
    Specification: the grammar, the bytes that the serializer chooses, and the reading of a
    number off the front of a byte sequence. */
module Leb128 {
  import opened Arith
  import opened Words

  datatype Error = UnexpectedEnd | IntegerTooLong | IntegerTooLarge | LengthOutOfBounds | SectionSizeMismatch
                 | OtherError(code: nat)

  /** The outcome of reading from the front of a byte sequence, with the number of bytes taken. */
  datatype Parsed<+T> = Read(value: T, used: nat) | Failed(error: Error, used: nat)

  // ------------------------------------------------------------------ the grammar

  /** `bs` is an encoding of `v` as an unsigned integer of n bits. */
  predicate IsU(n: nat, bs: seq<U8>, v: int) {
    && bs != []
    && if bs[0] < 128 then
         |bs| == 1 && v == bs[0] && v < Pow2(n)
       else
         n > 7 && v == 128 * (v / 128) + (bs[0] - 128) && IsU(n - 7, bs[1..], v / 128)
  }

  /** `bs` is an encoding of `v` as a signed integer of n bits. */
  predicate IsS(n: nat, bs: seq<U8>, v: int)
    requires n > 0
  {
    && bs != []
    && if bs[0] < 64 then
         |bs| == 1 && v == bs[0] && v < Pow2(n - 1)
       else if bs[0] < 128 then
         |bs| == 1 && v + 128 == bs[0] && v + Pow2(n - 1) >= 0
       else
         n > 7 && v == 128 * (v / 128) + (bs[0] - 128) && IsS(n - 7, bs[1..], v / 128)
  }

  /** The range of the signed integers of n bits. */
  predicate FitsS(n: nat, v: int)
    requires n > 0
  {
    v + Pow2(n - 1) >= 0 && v < Pow2(n - 1)
  }

  // ------------------------------------------------------------------ the reader

  /** The seven bits of a byte below its continuation bit. */
  function Payload(b: U8): nat {
    if b < 128 then b else b - 128
  }

  /** A number whose lowest seven bits are `low` and whose other bits follow. */
  function Prepend(low: int, p: Parsed<int>): Parsed<int> {
    match p
    case Read(m, k) => Read(128 * m + low, k + 1)
    case Failed(e, k) => Failed(e, k + 1)
  }

  function ParseU(n: int, bs: seq<U8>): Parsed<int>
    decreases |bs|
  {
    if n <= 0 then Failed(IntegerTooLong, 0)
    else if bs == [] then Failed(UnexpectedEnd, 0)
    else if n < 7 && Payload(bs[0]) >= Pow2(n) then Failed(IntegerTooLarge, 1)
    else if bs[0] < 128 then Read(bs[0], 1)
    else Prepend(Payload(bs[0]), ParseU(n - 7, bs[1..]))
  }

  function ParseS(n: int, bs: seq<U8>): Parsed<int>
    decreases |bs|
  {
    if n <= 0 then Failed(IntegerTooLong, 0)
    else if bs == [] then Failed(UnexpectedEnd, 0)
    else if bs[0] >= 128 then
      if n < 7 then Failed(IntegerTooLong, 1) else Prepend(bs[0] - 128, ParseS(n - 7, bs[1..]))
    else
      var half, b: int := Pow2((if n < 7 then n else 7) - 1), bs[0];
      if b >= 64 then
        if b >= 128 - half then Read(b - 128, 1) else Failed(IntegerTooLarge, 1)
      else
        if b >= half then Failed(IntegerTooLarge, 1) else Read(b, 1)
  }

  lemma {:induction false} EncodingParsesU(n: nat, bs: seq<U8>, v: int, rest: seq<U8>)
    requires n > 0 && IsU(n, bs, v)
    ensures ParseU(n, bs + rest) == Read(v, |bs|)
    decreases |bs|
  {
    assert (bs + rest)[0] == bs[0];
    if bs[0] >= 128 {
      assert (bs + rest)[1..] == bs[1..] + rest;
      EncodingParsesU(n - 7, bs[1..], v / 128, rest);
    }
  }

  lemma {:induction false} ParsedIsU(n: nat, bs: seq<U8>)
    requires n > 0 && ParseU(n, bs).Read?
    ensures var p := ParseU(n, bs); p.used <= |bs| && IsU(n, bs[..p.used], p.value)
    decreases |bs|
  {
    Pow2Small();
    if bs[0] >= 128 {
      ParsedIsU(n - 7, bs[1..]);
      var p := ParseU(n, bs);
      assert bs[..p.used][1..] == bs[1..][..p.used - 1];
    } else if n >= 7 {
      Pow2Monotone(7, n);
    }
  }

  /** Reading yields a number exactly when a prefix of the bytes is an encoding of it. */
  lemma ParseUIff(n: nat, bs: seq<U8>, v: int, k: nat)
    requires n > 0
    ensures ParseU(n, bs) == Read(v, k) <==> k <= |bs| && IsU(n, bs[..k], v)
  {
    if ParseU(n, bs) == Read(v, k) { ParsedIsU(n, bs); }
    if k <= |bs| && IsU(n, bs[..k], v) {
      EncodingParsesU(n, bs[..k], v, bs[k..]);
      assert bs[..k] + bs[k..] == bs;
    }
  }

  lemma {:induction false} EncodingParsesS(n: nat, bs: seq<U8>, v: int, rest: seq<U8>)
    requires n > 0 && IsS(n, bs, v)
    ensures ParseS(n, bs + rest) == Read(v, |bs|)
    decreases |bs|
  {
    assert (bs + rest)[0] == bs[0];
    if bs[0] >= 128 {
      assert (bs + rest)[1..] == bs[1..] + rest;
      EncodingParsesS(n - 7, bs[1..], v / 128, rest);
    } else {
      HalfRange();
    }
  }

  lemma {:induction false} ParsedIsS(n: nat, bs: seq<U8>)
    requires n > 0 && ParseS(n, bs).Read?
    ensures var p := ParseS(n, bs); p.used <= |bs| && IsS(n, bs[..p.used], p.value)
    decreases |bs|
  {
    if bs[0] >= 128 {
      ParsedIsS(n - 7, bs[1..]);
      var p := ParseS(n, bs);
      assert bs[..p.used][1..] == bs[1..][..p.used - 1];
    } else {
      HalfRange();
      if n >= 7 { Pow2Monotone(6, n - 1); }
    }
  }

  lemma ParseSIff(n: nat, bs: seq<U8>, v: int, k: nat)
    requires n > 0
    ensures ParseS(n, bs) == Read(v, k) <==> k <= |bs| && IsS(n, bs[..k], v)
  {
    if ParseS(n, bs) == Read(v, k) { ParsedIsS(n, bs); }
    if k <= |bs| && IsS(n, bs[..k], v) {
      EncodingParsesS(n, bs[..k], v, bs[k..]);
      assert bs[..k] + bs[k..] == bs;
    }
  }

  lemma HalfRange()
    ensures Pow2(6) == 64
  {
    Pow2Small();
    Pow2Add(4, 2);
  }

  /** What was read, or was found malformed, does not depend on what follows it. */
  lemma {:induction false} ParseUExtends(n: int, bs: seq<U8>, rest: seq<U8>)
    requires ParseU(n, bs) != Failed(UnexpectedEnd, |bs|)
    ensures ParseU(n, bs + rest) == ParseU(n, bs) && ParseU(n, bs).used <= |bs|
    decreases |bs|
  {
    if n > 0 && bs != [] && bs[0] >= 128 {
      assert (bs + rest)[1..] == bs[1..] + rest;
      if ParseU(n - 7, bs[1..]) != Failed(UnexpectedEnd, |bs| - 1) { ParseUExtends(n - 7, bs[1..], rest); }
    }
  }

  lemma {:induction false} ParseSExtends(n: int, bs: seq<U8>, rest: seq<U8>)
    requires ParseS(n, bs) != Failed(UnexpectedEnd, |bs|)
    ensures ParseS(n, bs + rest) == ParseS(n, bs) && ParseS(n, bs).used <= |bs|
    decreases |bs|
  {
    if n > 0 && bs != [] && bs[0] >= 128 {
      assert (bs + rest)[1..] == bs[1..] + rest;
      if ParseS(n - 7, bs[1..]) != Failed(UnexpectedEnd, |bs| - 1) { ParseSExtends(n - 7, bs[1..], rest); }
    }
  }

  /** The end of the input is reported only where more input could still complete a number. */
  lemma {:induction false} ParseUEnds(n: int, bs: seq<U8>)
    requires ParseU(n, bs).Failed? && ParseU(n, bs).error == UnexpectedEnd
    ensures ParseU(n, bs).used == |bs| && ParseU(n, bs + [0]).Read?
    decreases |bs|
  {
    if bs != [] {
      assert (bs + [0])[1..] == bs[1..] + [0];
      ParseUEnds(n - 7, bs[1..]);
    }
  }

  lemma {:induction false} ParseSEnds(n: int, bs: seq<U8>)
    requires ParseS(n, bs).Failed? && ParseS(n, bs).error == UnexpectedEnd
    ensures ParseS(n, bs).used == |bs| && ParseS(n, bs + [0]).Read?
    decreases |bs|
  {
    if bs != [] {
      assert (bs + [0])[1..] == bs[1..] + [0];
      ParseSEnds(n - 7, bs[1..]);
    }
  }

  /** Every number read is in the range of its type. */
  lemma {:induction false} RangeU(n: nat, bs: seq<U8>, v: int)
    requires IsU(n, bs, v)
    ensures 0 <= v < Pow2(n)
    decreases |bs|
  {
    if bs[0] >= 128 {
      RangeU(n - 7, bs[1..], v / 128);
      Split7(n);
    }
  }

  lemma {:induction false} RangeS(n: nat, bs: seq<U8>, v: int)
    requires n > 0 && IsS(n, bs, v)
    ensures FitsS(n, v)
    decreases |bs|
  {
    if bs[0] >= 128 {
      RangeS(n - 7, bs[1..], v / 128);
      Split7(n - 1);
    }
  }

  lemma Split7(n: nat)
    requires n >= 7
    ensures Pow2(n) == 128 * Pow2(n - 7)
  {
    Pow2Small();
    Pow2Add(7, n - 7);
  }

  // ------------------------------------------------------------------ the bytes written

  function EncodeU(v: nat): (bs: seq<U8>)
    ensures bs != []
  {
    if v < 128 then [v] else [128 + v % 128] + EncodeU(v / 128)
  }

  function EncodeS(v: int): (bs: seq<U8>)
    ensures bs != []
    decreases if v < 0 then -v else v
  {
    if -64 <= v < 64 then [v % 128] else [128 + v % 128] + EncodeS(v / 128)
  }

  lemma {:induction false} EncodedIsU(n: nat, v: nat)
    requires v < Pow2(n)
    ensures IsU(n, EncodeU(v), v)
    decreases n
  {
    if v >= 128 {
      Pow2Small();
      if n <= 7 { Pow2Monotone(n, 7); }
      Split7(n);
      EncodedIsU(n - 7, v / 128);
      assert EncodeU(v)[1..] == EncodeU(v / 128);
    }
  }

  lemma {:induction false} EncodedIsS(n: nat, v: int)
    requires n > 0 && FitsS(n, v)
    ensures IsS(n, EncodeS(v), v)
    decreases n
  {
    if !(-64 <= v < 64) {
      HalfRange();
      if n <= 7 { Pow2Monotone(n - 1, 6); }
      Split7(n - 1);
      EncodedIsS(n - 7, v / 128);
      assert EncodeS(v)[1..] == EncodeS(v / 128);
    }
  }

  /** Reading undoes writing, whatever follows. */
  lemma RoundTripU(n: nat, v: nat, rest: seq<U8>)
    requires n > 0 && v < Pow2(n)
    ensures ParseU(n, EncodeU(v) + rest) == Read(v, |EncodeU(v)|)
  {
    EncodedIsU(n, v);
    EncodingParsesU(n, EncodeU(v), v, rest);
  }

  lemma RoundTripS(n: nat, v: int, rest: seq<U8>)
    requires n > 0 && FitsS(n, v)
    ensures ParseS(n, EncodeS(v) + rest) == Read(v, |EncodeS(v)|)
  {
    EncodedIsS(n, v);
    EncodingParsesS(n, EncodeS(v), v, rest);
  }

  /** No encoding is shorter, and no other encoding is as short. */
  lemma {:induction false} ShortestU(n: nat, bs: seq<U8>, v: nat)
    requires IsU(n, bs, v)
    ensures |EncodeU(v)| <= |bs|
    ensures |EncodeU(v)| == |bs| ==> EncodeU(v) == bs
    decreases |bs|
  {
    if bs[0] >= 128 {
      ShortestU(n - 7, bs[1..], v / 128);
      assert bs == [bs[0]] + bs[1..];
    }
  }

  lemma {:induction false} ShortestS(n: nat, bs: seq<U8>, v: int)
    requires n > 0 && IsS(n, bs, v)
    ensures |EncodeS(v)| <= |bs|
    ensures |EncodeS(v)| == |bs| ==> EncodeS(v) == bs
    decreases |bs|
  {
    if bs[0] >= 128 {
      ShortestS(n - 7, bs[1..], v / 128);
      assert bs == [bs[0]] + bs[1..];
    }
  }

  /** The bytes of a number of n bits fit the buffer of n / 7 + 1 bytes. */
  lemma {:induction false} LengthU(n: nat, v: nat)
    requires v < Pow2(n)
    ensures |EncodeU(v)| <= n / 7 + 1
    decreases n
  {
    if v >= 128 {
      Pow2Small();
      if n <= 7 { Pow2Monotone(n, 7); }
      Split7(n);
      LengthU(n - 7, v / 128);
    }
  }

  lemma {:induction false} LengthS(n: nat, v: int)
    requires n > 0 && FitsS(n, v)
    ensures |EncodeS(v)| <= n / 7 + 1
    decreases n
  {
    if !(-64 <= v < 64) {
      HalfRange();
      if n <= 7 { Pow2Monotone(n - 1, 6); }
      Split7(n - 1);
      LengthS(n - 7, v / 128);
    }
  }
}
