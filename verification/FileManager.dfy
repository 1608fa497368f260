/** The cursor over the bytes of a module. A failed read is remembered in the status, and every
    later read fails with it. */
module FileManager {
  import opened Arith
  import opened Words
  import opened Leb128

  datatype Status = Success | Failure(error: Error)
  datatype Expect<+T> = Value(value: T) | Unexpected(error: Error)

  /** A number moved up by j groups of seven bits. */
  ghost function MovedUp(m: int, j: nat): int {
    if j == 0 then m else 128 * MovedUp(m, j - 1)
  }

  lemma {:induction false} MovedUpIs(m: int, j: nat)
    ensures MovedUp(m, j) == m * Pow2(7 * j)
  {
    if j > 0 {
      MovedUpIs(m, j - 1);
      Split7(7 * j);
      assert 128 * (m * Pow2(7 * j - 7)) == m * (128 * Pow2(7 * j - 7));
    }
  }

  /** A number of which the first j groups of seven bits are `acc` and the others follow. */
  ghost function After(acc: int, j: nat, p: Parsed<int>): Parsed<int> {
    match p
    case Read(m, k) => Read(acc + MovedUp(m, j), j + k)
    case Failed(e, k) => Failed(e, j + k)
  }

  lemma {:induction false} AfterPrepend(acc: int, j: nat, low: int, p: Parsed<int>)
    ensures After(acc, j, Prepend(low, p)) == After(acc + low * Pow2(7 * j), j + 1, p)
  {
    if p.Read? {
      var m, q := p.value, Pow2(7 * j);
      MovedUpIs(128 * m + low, j);
      MovedUpIs(m, j);
      assert (128 * m + low) * q == 128 * (m * q) + low * q;
    }
  }

  lemma ScaleBelow(q: int, r: int, h: int)
    requires q > 0 && 0 <= r < h
    ensures 0 <= r * q < q * h && r * q + q <= q * h
  {
    MulMonotone(q, 0, r);
    MulMonotone(q, r + 1, h);
  }

  lemma ScaleSplit(x: int, a: int, h: int, r: int, q: int)
    requires x == a * h + r
    ensures x * q == a * (q * h) + r * q
  {
  }

  /** A group below the last one lies inside the word, and the last one does if it is small. */
  lemma GroupFits(n: nat, offset: nat, payload: nat)
    requires offset < n && payload < 128 && (n - offset < 7 ==> payload < Pow2(n - offset))
    ensures payload * Pow2(offset) < Pow2(n)
  {
    Pow2Small();
    var q, top := Pow2(offset), Pow2(n - offset);
    Pow2Add(offset, n - offset);
    if n - offset >= 7 { Pow2Monotone(7, n - offset); }
    ScaleBelow(q, payload, top);
  }

  lemma {:induction false} OrGroup(acc: nat, offset: nat, high: nat)
    requires acc < Pow2(offset)
    ensures Or(acc, high * Pow2(offset)) == acc + high * Pow2(offset)
  {
    OrDisjoint(high, acc, offset);
    OrCommutes(acc, high * Pow2(offset));
  }

  lemma GroupBound(acc: nat, offset: nat, payload: nat)
    requires acc < Pow2(offset) && payload < 128
    ensures acc + payload * Pow2(offset) < Pow2(offset + 7)
  {
    Split7(offset + 7);
    var q := Pow2(offset);
    assert payload * q <= 127 * q;
  }

  /** Only the last group of a number can be cut by the end of the word. */
  lemma LastGroup(n: nat, j: nat)
    requires 7 * j < n
    ensures n - 7 * j < 7 <==> 7 * j == n - n % 7
    ensures n - 7 * j < 7 ==> n - 7 * j == n % 7
  {
  }

  /** Reading a word of `bits` bits as a two's-complement number. */
  function ToSigned(x: nat, bits: nat): int
    requires bits > 0
  {
    if x < Pow2(bits - 1) then x else x - Pow2(bits)
  }

  lemma ToSignedIs(v: int, bits: nat)
    requires bits > 0 && FitsS(bits, v)
    ensures ToSigned(v % Pow2(bits), bits) == v
  {
    assert Pow2(bits) == 2 * Pow2(bits - 1);
    if v >= 0 {
      DivModUnique(v, Pow2(bits), 0, v);
    } else {
      DivModUnique(v, Pow2(bits), -1, v + Pow2(bits));
    }
  }

  /** A shift that drops the high bits: the remaining bits are still above the offset. */
  lemma ModScaled(x: int, q: int, h: int)
    requires q > 0 && h > 0 && q * h > 0
    ensures (x % (q * h) * q) % (q * h) == x % h * q
  {
    var a, r := x / h, x % h;
    ModMul(x, q, q * h);
    ScaleSplit(x, a, h, r, q);
    ScaleBelow(q, r, h);
    DivModUnique(x * q, q * h, a, r * q);
  }

  lemma ModOfSum(acc: int, x: int, q: int, h: int)
    requires h > 0 && q * h > 0 && 0 <= acc < q
    ensures (acc + x * q) % (q * h) == acc + x % h * q
  {
    var a, r := x / h, x % h;
    ScaleSplit(x, a, h, r, q);
    ScaleBelow(q, r, h);
    DivModUnique(acc + x * q, q * h, a, acc + r * q);
  }

  /** Or-ing a sign-extended last group into the word, with all wrap-around, adds it. */
  lemma {:induction false} FinalGroup(acc: nat, x: int, offset: nat, bits: nat)
    requires offset <= bits && acc < Pow2(offset)
    ensures Or(acc, ((x % Pow2(bits)) * Pow2(offset)) % Pow2(bits)) == (acc + x * Pow2(offset)) % Pow2(bits)
  {
    var q, h := Pow2(offset), Pow2(bits - offset);
    Pow2Add(offset, bits - offset);
    ModScaled(x, q, h);
    ModOfSum(acc, x, q, h);
    OrGroup(acc, offset, x % h);
  }

  /** A word with the group at `offset` or-ed in, cut to n bits. */
  function OrAt(n: nat, acc: nat, payload: nat, offset: nat): nat {
    Or(acc, payload * Pow2(offset) % Pow2(n))
  }

  lemma GroupIn(n: nat, acc: nat, offset: nat, payload: nat)
    requires offset < n && payload < 128 && (n - offset < 7 ==> payload < Pow2(n - offset))
    requires acc < Pow2(offset)
    ensures OrAt(n, acc, payload, offset) == acc + payload * Pow2(offset) < Pow2(offset + 7)
  {
    GroupFits(n, offset, payload);
    DivModUnique(payload * Pow2(offset), Pow2(n), 0, payload * Pow2(offset));
    OrGroup(acc, offset, payload);
    GroupBound(acc, offset, payload);
  }

  /** One round of the unsigned loop: the group of seven bits in the first byte of `bs`. */
  method AddUnsigned(n: nat, acc: nat, offset: nat, b: U8, ghost j: nat, ghost bs: seq<U8>)
    returns (sum: nat, tooLarge: bool)
    requires bs != [] && bs[0] == b && offset == 7 * j < n && acc < Pow2(offset)
    ensures tooLarge ==> ParseU(n - offset, bs) == Failed(IntegerTooLarge, 1)
    ensures !tooLarge ==> sum < Pow2(offset + 7)
    ensures !tooLarge && b >= 128 ==>
              After(acc, j, ParseU(n - offset, bs)) == After(sum, j + 1, ParseU(n - offset - 7, bs[1..]))
    ensures !tooLarge && b < 128 ==> After(acc, j, ParseU(n - offset, bs)) == Read(sum, j + 1)
  {
    var payload := Payload(b);
    sum := OrAt(n, acc, payload, offset);
    tooLarge := offset == n - n % 7 && payload >= Pow2(n % 7);
    LastGroup(n, j);
    if !tooLarge { UnsignedStep(n, acc, j, bs); }
  }

  lemma {:induction false} UnsignedStep(n: nat, acc: nat, j: nat, bs: seq<U8>)
    requires bs != [] && 7 * j < n && acc < Pow2(7 * j)
    requires n - 7 * j < 7 ==> Payload(bs[0]) < Pow2(n - 7 * j)
    ensures var sum, p := OrAt(n, acc, Payload(bs[0]), 7 * j), After(acc, j, ParseU(n - 7 * j, bs));
            && sum < Pow2(7 * j + 7)
            && p == if bs[0] < 128 then Read(sum, j + 1) else After(sum, j + 1, ParseU(n - 7 * j - 7, bs[1..]))
  {
    GroupIn(n, acc, 7 * j, Payload(bs[0]));
    if bs[0] < 128 {
      ParseULast(n - 7 * j, bs);
      AfterLast(acc, j, bs[0]);
    } else {
      ParseUMore(n - 7 * j, bs);
      AfterPrepend(acc, j, Payload(bs[0]), ParseU(n - 7 * j - 7, bs[1..]));
    }
  }

  lemma {:induction false} ParseULast(n: int, bs: seq<U8>)
    requires bs != [] && n > 0 && bs[0] < 128 && (n < 7 ==> Payload(bs[0]) < Pow2(n))
    ensures ParseU(n, bs) == Read(bs[0], 1)
  {
  }

  lemma {:induction false} ParseUMore(n: int, bs: seq<U8>)
    requires bs != [] && n > 0 && bs[0] >= 128 && (n < 7 ==> Payload(bs[0]) < Pow2(n))
    ensures ParseU(n, bs) == Prepend(Payload(bs[0]), ParseU(n - 7, bs[1..]))
  {
  }

  lemma {:induction false} AfterLast(acc: nat, j: nat, b: nat)
    ensures After(acc, j, Read(b, 1)) == Read(acc + b * Pow2(7 * j), j + 1)
  {
    MovedUpIs(b, j);
  }

  /** One round of the signed loop that is not the last. */
  method AddSigned(n: nat, bits: nat, acc: nat, offset: nat, b: U8, ghost j: nat, ghost bs: seq<U8>) returns (sum: nat)
    requires bs != [] && bs[0] == b >= 128 && offset == 7 * j && offset + 7 <= n <= bits && acc < Pow2(offset)
    ensures sum < Pow2(offset + 7)
    ensures After(acc, j, ParseS(n - offset, bs)) == After(sum, j + 1, ParseS(n - offset - 7, bs[1..]))
  {
    sum := OrAt(bits, acc, b - 128, offset);
    GroupIn(bits, acc, offset, b - 128);
    AfterPrepend(acc, j, b - 128, ParseS(n - offset - 7, bs[1..]));
  }

  /** The last round of the signed loop completes the two's-complement word. */
  method FinishSigned(remaining: nat, bits: nat, acc: nat, offset: nat, b: U8,
                      ghost j: nat, ghost bs: seq<U8>, ghost all: seq<U8>)
    returns (r: Expect<int>)
    requires bs != [] && bs[0] == b < 128 && offset == 7 * j && acc < Pow2(offset)
    requires 0 < remaining && offset + remaining <= bits
    requires After(acc, j, ParseS(remaining, bs)) == ParseS(offset + remaining, all)
    ensures match ParseS(offset + remaining, all)
            case Read(v, k) => r == Value(v) && k == j + 1
            case Failed(e, k) => r == Unexpected(e) && e == IntegerTooLarge && k == j + 1
  {
    var effective := if remaining < 7 then remaining else 7;
    var byte: int, payload: int := b, b;
    if byte >= 64 {
      if byte >= 128 - Pow2(effective - 1) {
        payload := (payload - 128) % Pow2(bits);
      } else {
        return Unexpected(IntegerTooLarge);
      }
    } else if byte >= Pow2(effective - 1) {
      return Unexpected(IntegerTooLarge);
    }
    ghost var x: int := if byte >= 64 then byte - 128 else byte;
    MovedUpIs(x, j);
    SignedValueIs(offset + remaining, bits, acc, offset, x, payload, all);
    r := Value(ToSigned(OrAt(bits, acc, payload, offset), bits));
  }

  /** One round of the signed loop: the last one with its answer, or a group to add. */
  method SignedRound(n: nat, bits: nat, remaining: nat, acc: nat, offset: nat, b: U8,
                     ghost j: nat, ghost bs: seq<U8>, ghost all: seq<U8>)
    returns (last: bool, r: Expect<int>, sum: nat)
    requires bs != [] && bs[0] == b && offset == 7 * j && acc < Pow2(offset)
    requires 0 < remaining && offset + remaining == n <= bits
    requires After(acc, j, ParseS(remaining, bs)) == ParseS(n, all)
    ensures last ==>
              match ParseS(n, all)
              case Read(v, k) => r == Value(v) && k == j + 1
              case Failed(e, k) => r == Unexpected(e) && e != UnexpectedEnd && k == j + 1
    ensures !last ==>
              && remaining >= 7 && sum < Pow2(offset + 7)
              && After(sum, j + 1, ParseS(remaining - 7, bs[1..])) == ParseS(n, all)
  {
    if b < 128 {
      r := FinishSigned(remaining, bits, acc, offset, b, j, bs, all);
      return true, r, 0;
    }
    if remaining < 7 { return true, Unexpected(IntegerTooLong), 0; }
    sum := AddSigned(n, bits, acc, offset, b, j, bs);
    return false, Unexpected(IntegerTooLong), sum;
  }

  lemma SignedValueIs(n: nat, bits: nat, acc: nat, offset: nat, x: int, payload: nat, bs: seq<U8>)
    requires 0 < n <= bits && offset <= n && acc < Pow2(offset)
    requires payload == x || payload == x % Pow2(bits)
    requires ParseS(n, bs).Read? && ParseS(n, bs).value == acc + x * Pow2(offset)
    ensures ToSigned(OrAt(bits, acc, payload, offset), bits) == ParseS(n, bs).value
  {
    ParsedFits(n, bits, bs);
    SignedWordIs(bits, acc, offset, x, payload);
  }

  lemma ParsedFits(n: nat, bits: nat, bs: seq<U8>)
    requires 0 < n <= bits && ParseS(n, bs).Read?
    ensures FitsS(bits, ParseS(n, bs).value)
  {
    var p := ParseS(n, bs);
    ParsedIsS(n, bs);
    RangeS(n, bs[..p.used], p.value);
    Pow2Monotone(n - 1, bits - 1);
  }

  lemma {:induction false} SignedWordIs(bits: nat, acc: nat, offset: nat, x: int, payload: nat)
    requires 0 < bits && offset <= bits && acc < Pow2(offset)
    requires payload == x || payload == x % Pow2(bits)
    requires FitsS(bits, acc + x * Pow2(offset))
    ensures ToSigned(OrAt(bits, acc, payload, offset), bits) == acc + x * Pow2(offset)
  {
    var q, w := Pow2(offset), Pow2(bits);
    ModMul(x, q, w);
    FinalGroup(acc, x, offset, bits);
    ToSignedIs(acc + x * q, bits);
  }

  class FileManager {
    const data: seq<U8>
    var pos: nat
    var lastPos: nat
    var status: Status

    ghost predicate Valid()
      reads this
    {
      pos <= |data|
    }

    constructor (code: seq<U8>)
      ensures Valid() && data == code && pos == 0 && lastPos == 0 && status == Success
    {
      data, pos, lastPos, status := code, 0, 0, Success;
    }

    function RemainSize(): nat
      requires Valid()
      reads this
    {
      |data| - pos
    }

    method TestRead(size: nat) returns (ok: bool)
      requires Valid()
      modifies this
      ensures Valid() && ok == (old(pos) + size <= |data|)
      ensures if ok then unchanged(this)
              else pos == lastPos == |data| && status == Failure(UnexpectedEnd)
    {
      ok := RemainSize() >= size;
      if !ok {
        pos := |data|;
        lastPos := pos;
        status := Failure(UnexpectedEnd);
      }
    }

    /** An unsigned number of n bits; the source has this for 32 and for 64 bits. */
    method ReadUN(n: nat) returns (r: Expect<int>)
      requires Valid() && n > 0
      modifies this
      ensures Valid()
      ensures old(status).Failure? ==> unchanged(this) && r == Unexpected(status.error)
      ensures old(status).Success? ==>
                var p := ParseU(n, data[old(pos)..]);
                && pos == old(pos) + p.used
                && (p.Read? ==> r == Value(p.value) && status == Success && lastPos == old(pos))
                && (p.Failed? ==>
                      && r == Unexpected(p.error) && status == Failure(p.error)
                      && lastPos == if p.error == UnexpectedEnd then |data| else old(pos))
    {
      if status.Failure? { return Unexpected(status.error); }
      lastPos := pos;
      var result: nat, offset: nat, more := 0, 0, true;
      ghost var j, all, rest := 0, data[pos..], data[pos..];
      while more
        invariant Valid() && status == Success && lastPos == old(pos) && pos == old(pos) + j
        invariant offset == 7 * j && result < Pow2(offset) && rest == data[pos..]
        invariant (if more then After(result, j, ParseU(n - offset, rest)) else Read(result, j)) == ParseU(n, all)
        decreases |data| - pos, more
      {
        if offset >= n {
          status := Failure(IntegerTooLong);
          return Unexpected(IntegerTooLong);
        }
        var ok := TestRead(1);
        if !ok { return Unexpected(UnexpectedEnd); }
        var b, tooLarge := data[pos], false;
        pos := pos + 1;
        result, tooLarge := AddUnsigned(n, result, offset, b, j, rest);
        if tooLarge {
          status := Failure(IntegerTooLarge);
          return Unexpected(IntegerTooLarge);
        }
        offset, more := offset + 7, b >= 128;
        j, rest := j + 1, rest[1..];
      }
      return Value(result);
    }

    /** A signed number of n bits, returned in a type of `bits` bits; the source has this for
        32 in 32, 33 in 64 and 64 in 64 bits. */
    method ReadSN(n: nat, bits: nat) returns (r: Expect<int>)
      requires Valid() && 8 <= n <= bits
      modifies this
      ensures Valid()
      ensures old(status).Failure? ==> unchanged(this) && r == Unexpected(status.error)
      ensures old(status).Success? ==>
                var p := ParseS(n, data[old(pos)..]);
                && pos == old(pos) + p.used
                && (p.Read? ==> r == Value(p.value) && status == Success && lastPos == old(pos))
                && (p.Failed? ==>
                      && r == Unexpected(p.error) && status == Failure(p.error)
                      && lastPos == if p.error == UnexpectedEnd then |data| else old(pos))
    {
      if status.Failure? { return Unexpected(status.error); }
      lastPos := pos;
      var result: nat, offset: nat, remaining: nat := 0, 0, n;
      ghost var j, all, rest := 0, data[pos..], data[pos..];
      while true
        invariant Valid() && status == Success && lastPos == old(pos) && pos == old(pos) + j
        invariant offset == 7 * j && offset + remaining == n && result < Pow2(offset) && rest == data[pos..]
        invariant After(result, j, ParseS(remaining, rest)) == ParseS(n, all)
        decreases |data| - pos
      {
        if remaining <= 0 {
          status := Failure(IntegerTooLong);
          return Unexpected(IntegerTooLong);
        }
        var ok := TestRead(1);
        if !ok { return Unexpected(UnexpectedEnd); }
        var b := data[pos];
        pos := pos + 1;
        var last: bool;
        last, r, result := SignedRound(n, bits, remaining, result, offset, b, j, rest, all);
        if last {
          if r.Unexpected? { status := Failure(r.error); }
          return;
        }
        offset, remaining := offset + 7, remaining - 7;
        j, rest := j + 1, rest[1..];
      }
    }
  }
}
