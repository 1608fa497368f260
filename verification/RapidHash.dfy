/** Which bytes of its input the hash reads. The mixing of what was read is not part of this
    module: it has no influence on where the reads are. */
module RapidHash {
  import opened Arith

  /** A read of `len` bytes at an offset into the original input. */
  datatype Span = Span(at: int, len: nat) {
    predicate Has(b: int) { at <= b < at + len }
  }

  ghost predicate Within(trace: seq<Span>, size: nat) {
    forall s :: s in trace ==> 0 <= s.at && s.at + s.len <= size
  }

  ghost predicate Touched(trace: seq<Span>, b: int) {
    exists s :: s in trace && s.Has(b)
  }

  ghost predicate Covered(trace: seq<Span>, lo: int, hi: int) {
    forall b :: lo <= b < hi ==> Touched(trace, b)
  }

  /** n reads of eight bytes, one after the other. */
  function Block(at: int, n: nat): seq<Span> {
    if n == 0 then [] else Block(at, n - 1) + [Span(at + 8 * (n - 1), 8)]
  }

  lemma {:induction false} BlockCovers(at: int, n: nat)
    ensures Covered(Block(at, n), at, at + 8 * n)
    ensures forall s :: s in Block(at, n) ==> at <= s.at && s.at + s.len <= at + 8 * n
  {
    if n > 0 {
      BlockCovers(at, n - 1);
      var last := Span(at + 8 * (n - 1), 8);
      assert last in Block(at, n);
      forall b | at <= b < at + 8 * n ensures Touched(Block(at, n), b) {
        if b < at + 8 * (n - 1) {
          assert Touched(Block(at, n - 1), b);
        } else {
          assert last.Has(b);
        }
      }
    }
  }

  /** Reads that continue a covered range extend it. */
  lemma CoveredJoin(a: seq<Span>, b: seq<Span>, lo: int, mid: int, from: int, hi: int)
    requires Covered(a, lo, mid) && Covered(b, from, hi) && from <= mid
    ensures Covered(a + b, lo, hi)
  {
    forall x | lo <= x < hi ensures Touched(a + b, x) {
      if x < mid { assert Touched(a, x); } else { assert Touched(b, x); }
    }
  }

  /** Adding a block of n reads at the end of what was covered. */
  method ReadBlock(trace: seq<Span>, at: nat, n: nat, size: nat) returns (trace': seq<Span>)
    requires Within(trace, size) && Covered(trace, 0, at) && at + 8 * n <= size
    ensures trace' == trace + Block(at, n)
    ensures Within(trace', size) && Covered(trace', 0, at + 8 * n)
  {
    BlockCovers(at, n);
    CoveredJoin(trace, Block(at, n), 0, at, at, at + 8 * n);
    trace' := trace + Block(at, n);
  }

  /** An input of at most 16 bytes. */
  method ReadShort(size: nat) returns (trace: seq<Span>)
    requires size <= 16
    ensures Within(trace, size) && Covered(trace, 0, size)
  {
    trace := [];
    if size >= 4 {
      Pow2Small();
      var delta := (size / 8 % 4 * 8) / Pow2(size / 8);
      assert delta == if size < 8 then 0 else 4;
      var s0, s1, s2, s3 := Span(0, 4), Span(size - 4, 4), Span(delta, 4), Span(size - (4 + delta), 4);
      trace := [s0, s1, s2, s3];
      forall b | 0 <= b < size ensures Touched(trace, b) {
        assert s0 in trace && s1 in trace && s2 in trace && s3 in trace;
        assert s0.Has(b) || s1.Has(b) || s2.Has(b) || s3.Has(b);
      }
    } else if size > 0 {
      var s0, s1, s2 := Span(0, 1), Span(size / 2, 1), Span(size - 1, 1);
      trace := [s0, s1, s2];
      forall b | 0 <= b < size ensures Touched(trace, b) {
        assert s0 in trace && s1 in trace && s2 in trace;
        assert s0.Has(b) || s1.Has(b) || s2.Has(b);
      }
    }
  }

  /** The blocks of an input of more than 48 bytes; `at` and `left` are the start and the length
      of what remains. */
  method ReadBlocks(size: nat) returns (trace: seq<Span>, at: nat, left: nat)
    requires size > 48
    ensures at + left == size && left == size % 48
    ensures Within(trace, size) && Covered(trace, 0, at)
  {
    trace, at, left := [], 0, size;
    ghost var blocks := 0;
    while left >= 96
      invariant at + left == size && at == 48 * blocks
      invariant Within(trace, size) && Covered(trace, 0, at)
    {
      trace := ReadBlock(trace, at, 12, size);
      at, left, blocks := at + 96, left - 96, blocks + 2;
    }
    if left >= 48 {
      trace := ReadBlock(trace, at, 6, size);
      at, left, blocks := at + 48, left - 48, blocks + 1;
    }
    DivModUnique(size, 48, blocks, left);
  }

  /** Every read lies inside the input and every byte of the input is read. The last two reads are
      taken from the end of the remaining span; `back` tells that they begin before that span, in
      bytes that the blocks have read already. */
  method ReadSchedule(size: nat) returns (trace: seq<Span>, back: bool)
    ensures Within(trace, size) && Covered(trace, 0, size)
    ensures back <==> size > 48 && size % 48 < 16
  {
    if size <= 16 {
      trace := ReadShort(size);
      return trace, false;
    }
    var at: nat, left: nat := 0, size;
    trace := [];
    if left > 48 { trace, at, left := ReadBlocks(size); }
    ghost var done := at;
    if left > 16 {
      trace := ReadBlock(trace, at, 2, size);
      done := at + 16;
      if left > 32 {
        trace := ReadBlock(trace, at + 16, 2, size);
        done := at + 32;
      }
    }
    ReadBlockTwo(size - 16);
    back := at + left - 16 < at;
    BlockCovers(size - 16, 2);
    CoveredJoin(trace, Block(size - 16, 2), 0, done, size - 16, size);
    trace := trace + [Span(at + left - 16, 8), Span(at + left - 8, 8)];
  }

  lemma ReadBlockTwo(at: int)
    ensures Block(at, 2) == [Span(at, 8), Span(at + 8, 8)]
  {
    assert Block(at, 1) == [Span(at, 8)];
  }
}
