/** Loading vectors and sections, and what becomes of a section that was written. */
module Sections {
  import opened Arith
  import opened Words
  import opened Leb128
  import opened FileManager
  import opened Serializer

  /** An element loader, as a function of the bytes at the cursor, does not read past their end. */
  ghost predicate Reads<T(!new)>(dec: seq<U8> -> Parsed<T>) {
    forall bs :: ReadsWithin(dec, bs)
  }

  ghost predicate ReadsWithin<T>(dec: seq<U8> -> Parsed<T>, bs: seq<U8>) {
    dec(bs).used <= |bs|
  }

  function Skip<T>(k: nat, p: Parsed<T>): Parsed<T> {
    p.(used := k + p.used)
  }

  ghost function ParseElements<T(!new)>(bs: seq<U8>, n: nat, dec: seq<U8> -> Parsed<T>): (p: Parsed<seq<T>>)
    requires Reads(dec)
    ensures p.used <= |bs| && (p.Read? ==> |p.value| == n)
    decreases n
  {
    if n == 0 then Read([], 0)
    else
      assert ReadsWithin(dec, bs);
      match dec(bs)
      case Failed(e, k) => Failed(e, k)
      case Read(x, k) =>
        match ParseElements(bs[k..], n - 1, dec)
        case Failed(e, k') => Failed(e, k + k')
        case Read(xs, k') => Read([x] + xs, k + k')
  }

  ghost function ParseVec<T(!new)>(bs: seq<U8>, dec: seq<U8> -> Parsed<T>): (p: Parsed<seq<T>>)
    requires Reads(dec)
    ensures p.used <= |bs|
  {
    UsedWithin(32, bs);
    match ParseU(32, bs)
    case Failed(e, k) => Failed(e, k)
    case Read(count, k) =>
      if count / 2 > |bs| - k then Failed(IntegerTooLong, k) else Skip(k, ParseElements(bs[k..], count, dec))
  }

  ghost function ParseSection<T(!new)>(bs: seq<U8>, dec: seq<U8> -> Parsed<T>): (p: Parsed<seq<T>>)
    requires Reads(dec)
    ensures p.used <= |bs|
  {
    UsedWithin(32, bs);
    match ParseU(32, bs)
    case Failed(e, k) => Failed(e, k)
    case Read(size, k) =>
      if |bs| - k < size then Failed(LengthOutOfBounds, k)
      else Skip(k, ParseSized(bs[k..], size, dec))
  }

  lemma UsedWithin(n: nat, bs: seq<U8>)
    requires n > 0
    ensures ParseU(n, bs).used <= |bs|
    ensures ParseU(n, bs).Read? ==> 0 <= ParseU(n, bs).value < Pow2(n)
  {
    var p := ParseU(n, bs);
    if p != Failed(UnexpectedEnd, |bs|) { ParseUExtends(n, bs, []); }
    if p.Read? {
      ParsedIsU(n, bs);
      RangeU(n, bs[..p.used], p.value);
    }
  }

  /** An element loader run at the cursor; its failure is a failed read. */
  method LoadElement<T(!new)>(fm: FileManager, dec: seq<U8> -> Parsed<T>) returns (r: Expect<T>)
    requires fm.Valid() && fm.status == Success && Reads(dec)
    modifies fm
    ensures fm.Valid() && fm.pos == old(fm.pos) + dec(fm.data[old(fm.pos)..]).used
    ensures match dec(fm.data[old(fm.pos)..])
            case Read(x, _) => r == Value(x) && fm.status == Success
            case Failed(e, _) => r == Unexpected(e) && fm.status == Failure(e)
  {
    assert ReadsWithin(dec, fm.data[fm.pos..]);
    var p := dec(fm.data[fm.pos..]);
    fm.pos := fm.pos + p.used;
    if p.Failed? {
      fm.status := Failure(p.error);
      return Unexpected(p.error);
    }
    r := Value(p.value);
  }

  /** The answer of a loader that started at `start` and came out as `p`. */
  ghost predicate Loaded<T>(fm: FileManager, start: nat, p: Parsed<T>, r: Expect<T>)
    reads fm
  {
    && fm.Valid() && fm.pos == start + p.used
    && match p
       case Read(v, _) => r == Value(v) && fm.status == Success
       case Failed(e, _) => r == Unexpected(e)
  }

  method LoadVecCnt(fm: FileManager) returns (r: Expect<int>)
    requires fm.Valid()
    modifies fm
    ensures old(fm.status).Failure? ==> unchanged(fm) && r == Unexpected(fm.status.error)
    ensures old(fm.status).Success? ==>
              var rest := fm.data[old(fm.pos)..];
              var p := ParseU(32, rest);
              var tooLong := p.Read? && p.value / 2 > |rest| - p.used;
              Loaded(fm, old(fm.pos), if tooLong then Failed(IntegerTooLong, p.used) else p, r)
  {
    UsedWithin(32, fm.data[fm.pos..]);
    r := fm.ReadUN(32);
    if r.Value? && r.value / 2 > fm.RemainSize() { return Unexpected(IntegerTooLong); }
  }

  method LoadElements<T(!new)>(fm: FileManager, count: nat, dec: seq<U8> -> Parsed<T>) returns (r: Expect<seq<T>>)
    requires fm.Valid() && fm.status == Success && Reads(dec)
    modifies fm
    ensures Loaded(fm, old(fm.pos), ParseElements(fm.data[old(fm.pos)..], count, dec), r)
  {
    var content: seq<T> := [];
    ghost var rest, used: nat := fm.data[fm.pos..], 0;
    ghost var all := ParseElements(rest, count, dec);
    FollowingNone(all);
    for i := 0 to count
      invariant fm.Valid() && fm.status == Success && fm.pos == old(fm.pos) + used && rest == fm.data[fm.pos..]
      invariant all == Following(content, used, ParseElements(rest, count - i, dec))
    {
      var x := LoadElement(fm, dec);
      if x.Unexpected? { return Unexpected(x.error); }
      FollowingStep(content, used, rest, count - i, dec);
      used, rest := used + dec(rest).used, rest[dec(rest).used..];
      content := content + [x.value];
    }
    assert content + [] == content;
    r := Value(content);
  }

  /** The elements already loaded from k bytes, and the ones that follow. */
  ghost function Following<T>(done: seq<T>, k: nat, p: Parsed<seq<T>>): Parsed<seq<T>> {
    match p
    case Read(xs, k') => Read(done + xs, k + k')
    case Failed(e, k') => Failed(e, k + k')
  }

  lemma FollowingNone<T>(p: Parsed<seq<T>>)
    ensures Following([], 0, p) == p
  {
    if p.Read? { assert [] + p.value == p.value; }
  }

  lemma {:induction false} FollowingStep<T(!new)>(done: seq<T>, k: nat, bs: seq<U8>, n: nat, dec: seq<U8> -> Parsed<T>)
    requires Reads(dec) && ReadsWithin(dec, bs) && n > 0 && dec(bs).Read?
    ensures var p := dec(bs);
            Following(done, k, ParseElements(bs, n, dec))
            == Following(done + [p.value], k + p.used, ParseElements(bs[p.used..], n - 1, dec))
  {
    var p := dec(bs);
    var q := ParseElements(bs[p.used..], n - 1, dec);
    if q.Read? { assert done + ([p.value] + q.value) == done + [p.value] + q.value; }
  }

  method LoadVec<T(!new)>(fm: FileManager, dec: seq<U8> -> Parsed<T>) returns (r: Expect<seq<T>>)
    requires fm.Valid() && Reads(dec)
    modifies fm
    ensures old(fm.status).Failure? ==> unchanged(fm) && r == Unexpected(fm.status.error)
    ensures old(fm.status).Success? ==> Loaded(fm, old(fm.pos), ParseVec(fm.data[old(fm.pos)..], dec), r)
  {
    UsedWithin(32, fm.data[fm.pos..]);
    var count := LoadVecCnt(fm);
    if count.Unexpected? { return Unexpected(count.error); }
    assert fm.data[old(fm.pos)..][fm.pos - old(fm.pos)..] == fm.data[fm.pos..];
    r := LoadElements(fm, count.value, dec);
  }

  /** The content of a section of a given size. */
  ghost function ParseSized<T(!new)>(bs: seq<U8>, size: int, dec: seq<U8> -> Parsed<T>): (p: Parsed<seq<T>>)
    requires Reads(dec)
    ensures p.used <= |bs|
  {
    var p := ParseVec(bs, dec);
    if p.Read? && p.used != size then Failed(SectionSizeMismatch, p.used) else p
  }

  method LoadSized<T(!new)>(fm: FileManager, size: int, dec: seq<U8> -> Parsed<T>) returns (r: Expect<seq<T>>)
    requires fm.Valid() && fm.status == Success && Reads(dec)
    modifies fm
    ensures Loaded(fm, old(fm.pos), ParseSized(fm.data[old(fm.pos)..], size, dec), r)
  {
    var startOffset := fm.pos;
    r := LoadVec(fm, dec);
    if r.Value? && fm.pos - startOffset != size { r := Unexpected(SectionSizeMismatch); }
  }

  /** The size of a section and its content. */
  lemma SectionParts<T(!new)>(bs: seq<U8>, dec: seq<U8> -> Parsed<T>)
    requires Reads(dec)
    ensures ParseU(32, bs).used <= |bs|
    ensures var p := ParseU(32, bs);
            var q := if p.Read? then ParseVec(bs[p.used..], dec) else Failed(p.error, 0);
            ParseSection(bs, dec)
            == if p.Failed? then Failed(p.error, p.used)
               else if |bs| - p.used < p.value then Failed(LengthOutOfBounds, p.used)
               else if q.Failed? then Failed(q.error, p.used + q.used)
               else if q.used != p.value then Failed(SectionSizeMismatch, p.used + q.used)
               else Read(q.value, p.used + p.value)
  {
    UsedWithin(32, bs);
  }

  method LoadSectionParts<T(!new)>(fm: FileManager, dec: seq<U8> -> Parsed<T>)
    returns (size: Expect<int>, r: Expect<seq<T>>)
    requires fm.Valid() && fm.status == Success && Reads(dec)
    modifies fm
    ensures Loaded(fm, old(fm.pos), ParseSection(fm.data[old(fm.pos)..], dec), r)
    ensures var p := ParseU(32, fm.data[old(fm.pos)..]); p.Read? ==> size == Value(p.value)
  {
    var start := fm.pos;
    ghost var all := fm.data[start..];
    UsedWithin(32, all);
    size := fm.ReadUN(32);
    if size.Unexpected? { return size, Unexpected(size.error); }
    assert all[fm.pos - start..] == fm.data[fm.pos..];
    if fm.RemainSize() < size.value { return size, Unexpected(LengthOutOfBounds); }
    r := LoadSized(fm, size.value, dec);
  }

  /** A section after its id: its start offset, its recorded size and its elements. What is loaded takes
      the size field and exactly the recorded size. */
  method LoadSectionContent<T(!new)>(fm: FileManager, dec: seq<U8> -> Parsed<T>)
    returns (start: nat, size: Expect<int>, r: Expect<seq<T>>)
    requires fm.Valid() && Reads(dec)
    modifies fm
    ensures start == old(fm.pos)
    ensures old(fm.status).Failure? ==> unchanged(fm) && size.Unexpected? && r == Unexpected(fm.status.error)
    ensures old(fm.status).Success? ==>
              var p := ParseSection(fm.data[start..], dec);
              && fm.Valid() && fm.pos == start + p.used
              && (p.Read? ==> r == Value(p.value) && fm.status == Success)
              && (p.Failed? ==> r == Unexpected(p.error))
    ensures old(fm.status).Success? && ParseU(32, fm.data[start..]).Read? ==>
              size == Value(ParseU(32, fm.data[start..]).value)
    ensures old(fm.status).Success? && r.Value? ==>
              size.Value? && fm.pos == start + ParseU(32, fm.data[start..]).used + size.value
  {
    start := fm.pos;
    if fm.status.Failure? { return start, Unexpected(fm.status.error), Unexpected(fm.status.error); }
    SectionParts(fm.data[start..], dec);
    size, r := LoadSectionParts(fm, dec);
  }

  // ------------------------------------------------------------------ written and loaded

  /** Loading an element undoes writing it, whatever follows. */
  ghost predicate Undoes<T>(enc: T -> Written, dec: seq<U8> -> Parsed<T>, x: T) {
    enc(x).status == Success && forall rest :: UndoesBefore(enc, dec, x, rest)
  }

  ghost predicate UndoesBefore<T>(enc: T -> Written, dec: seq<U8> -> Parsed<T>, x: T, rest: seq<U8>) {
    dec(enc(x).bytes + rest) == Read(x, |enc(x).bytes|)
  }

  ghost predicate AllUndone<T>(content: seq<T>, enc: T -> Written, dec: seq<U8> -> Parsed<T>) {
    forall i :: 0 <= i < |content| ==> Undoes(enc, dec, content[i])
  }

  lemma {:induction false} ElementFirst<T(!new)>(
      content: seq<T>, head: seq<U8>, k: nat, tail: seq<U8>, dec: seq<U8> -> Parsed<T>)
    requires Reads(dec) && content != []
    requires dec(head + tail) == Read(content[0], |head|)
    requires ParseElements(tail, |content| - 1, dec) == Read(content[1..], k)
    ensures ParseElements(head + tail, |content|, dec) == Read(content, |head| + k)
  {
    assert (head + tail)[|head|..] == tail;
    assert ReadsWithin(dec, head + tail);
    ElementThen(head + tail, |content|, dec);
    assert content == [content[0]] + content[1..];
  }

  /** The first element and the ones after it. */
  lemma {:induction false} ElementThen<T(!new)>(bs: seq<U8>, n: nat, dec: seq<U8> -> Parsed<T>)
    requires Reads(dec) && ReadsWithin(dec, bs) && n > 0 && dec(bs).Read?
    ensures var p := dec(bs);
            var q := ParseElements(bs[p.used..], n - 1, dec);
            ParseElements(bs, n, dec) == if q.Read? then Read([p.value] + q.value, p.used + q.used)
                                         else Failed(q.error, p.used + q.used)
  {
  }

  lemma {:induction false} ElementsRoundTrip<T(!new)>(
      content: seq<T>, enc: T -> Written, dec: seq<U8> -> Parsed<T>, rest: seq<U8>)
    requires Reads(dec) && AllUndone(content, enc, dec)
    ensures var bytes := Elements(content, enc).bytes;
            ParseElements(bytes + rest, |content|, dec) == Read(content, |bytes|)
    decreases |content|
  {
    if content != [] {
      assert Undoes(enc, dec, content[0]);
      ElementsRoundTrip(content[1..], enc, dec, rest);
      var head, tail := enc(content[0]).bytes, Elements(content[1..], enc).bytes;
      assert UndoesBefore(enc, dec, content[0], tail + rest);
      ElementFirst(content, head, |tail|, tail + rest, dec);
      assert head + tail + rest == head + (tail + rest);
    }
  }

  /** Exactly when a written section loads back: its content is shorter than 2^32 bytes, so that
      the recorded size is the true one, the number of elements is recorded truly as well, and the
      loader's plausibility test on that number passes. */
  ghost predicate Recoverable<T>(content: seq<T>, enc: T -> Written, rest: seq<U8>) {
    && |Body(content, enc)| < TWO32
    && |content| < TWO32
    && |content| / 2 <= |Elements(content, enc).bytes| + |rest|
  }

  lemma CountThenElements<T(!new)>(c: nat, tail: seq<U8>, dec: seq<U8> -> Parsed<T>)
    requires c < TWO32 && Reads(dec)
    ensures ParseVec(EncodeU(c) + tail, dec)
         == if c / 2 > |tail| then Failed(IntegerTooLong, |EncodeU(c)|)
            else Skip(|EncodeU(c)|, ParseElements(tail, c, dec))
  {
    Pow2Word32();
    RoundTripU(32, c, tail);
    assert (EncodeU(c) + tail)[|EncodeU(c)|..] == tail;
  }

  lemma SizeThenContent<T(!new)>(size: nat, tail: seq<U8>, dec: seq<U8> -> Parsed<T>)
    requires size < TWO32 && size <= |tail| && Reads(dec)
    ensures ParseSection(EncodeU(size) + tail, dec) == Skip(|EncodeU(size)|, ParseSized(tail, size, dec))
  {
    Pow2Word32();
    RoundTripU(32, size, tail);
    assert (EncodeU(size) + tail)[|EncodeU(size)|..] == tail;
  }

  lemma VecRoundTripIff<T(!new)>(content: seq<T>, enc: T -> Written, dec: seq<U8> -> Parsed<T>, rest: seq<U8>)
    requires Reads(dec) && AllUndone(content, enc, dec)
    ensures var p := ParseVec(Body(content, enc) + rest, dec);
            if |content| < TWO32 && |content| / 2 <= |Elements(content, enc).bytes| + |rest|
            then p == Read(content, |Body(content, enc)|)
            else p.Failed? || p.value != content
  {
    var c, bytes := |content| % TWO32, Elements(content, enc).bytes;
    Regroup(EncodeU(c), bytes, rest);
    CountThenElements(c, bytes + rest, dec);
    if |content| < TWO32 {
      assert c == |content|;
      ElementsRoundTrip(content, enc, dec, rest);
    }
  }

  lemma {:induction false} SizedRoundTripIff<T(!new)>(
      content: seq<T>, enc: T -> Written, dec: seq<U8> -> Parsed<T>, rest: seq<U8>)
    requires Reads(dec) && AllUndone(content, enc, dec)
    ensures var body := Body(content, enc);
            ParseSized(body + rest, |body| % TWO32, dec) == Read(content, |body|) <==> Recoverable(content, enc, rest)
  {
    var body := Body(content, enc);
    VecRoundTripIff(content, enc, dec, rest);
    TrueSizeIff(|body|);
  }

  lemma TrueSizeIff(size: nat)
    ensures size % TWO32 == size <==> size < TWO32
  {
  }

  lemma SectionRoundTripIff<T(!new)>(content: seq<T>, enc: T -> Written, dec: seq<U8> -> Parsed<T>, rest: seq<U8>)
    requires Reads(dec) && AllUndone(content, enc, dec)
    ensures ParseSection(Framed(content, enc) + rest, dec) == Read(content, |Framed(content, enc)|)
            <==> Recoverable(content, enc, rest)
  {
    var body := Body(content, enc);
    var size := |body| % TWO32;
    Regroup(EncodeU(size), body, rest);
    SizeThenContent(size, body + rest, dec);
    SizedRoundTripIff(content, enc, dec, rest);
  }

  /** Elements of at least one byte each: only the size of the content matters. */
  lemma SectionRoundTrip<T(!new)>(content: seq<T>, enc: T -> Written, dec: seq<U8> -> Parsed<T>, rest: seq<U8>)
    requires Reads(dec) && AllUndone(content, enc, dec)
    requires forall i :: 0 <= i < |content| ==> enc(content[i]).bytes != []
    ensures ParseSection(Framed(content, enc) + rest, dec) == Read(content, |Framed(content, enc)|)
            <==> |Body(content, enc)| < TWO32
  {
    ElementsLength(content, enc, dec);
    SectionRoundTripIff(content, enc, dec, rest);
  }

  lemma {:induction false} ElementsLength<T(!new)>(content: seq<T>, enc: T -> Written, dec: seq<U8> -> Parsed<T>)
    requires AllUndone(content, enc, dec)
    requires forall i :: 0 <= i < |content| ==> enc(content[i]).bytes != []
    ensures |Elements(content, enc).bytes| >= |content|
    decreases |content|
  {
    if content != [] {
      assert Undoes(enc, dec, content[0]);
      ElementsLength(content[1..], enc, dec);
    }
  }
}
