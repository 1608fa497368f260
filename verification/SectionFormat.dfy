/** Which bytes are a vector or a section, for every byte sequence: sections 5.1.3 and 5.5.2 of the
    WebAssembly Core Specification, over the grammar of the numbers and a loader of elements. */
module SectionFormat {
  import opened Arith
  import opened Words
  import opened Leb128
  import opened FileManager
  import opened Serializer
  import opened Sections

  /** The elements, loaded one after the other from the front of the bytes, take `used` of them. */
  ghost predicate Consumes<T>(bs: seq<U8>, xs: seq<T>, used: nat, dec: seq<U8> -> Parsed<T>)
    decreases |xs|
  {
    if xs == [] then used == 0
    else
      var p := dec(bs);
      && p.Read? && p.value == xs[0] && p.used <= used <= |bs|
      && Consumes(bs[p.used..], xs[1..], used - p.used, dec)
  }

  /** The first k bytes are the number of the elements, the number is plausible, and the elements
      follow. */
  ghost predicate IsVec<T>(bs: seq<U8>, xs: seq<T>, used: nat, k: nat, dec: seq<U8> -> Parsed<T>) {
    && k <= used && k <= |bs| && IsU(32, bs[..k], |xs|)
    && |xs| / 2 <= |bs| - k && Consumes(bs[k..], xs, used - k, dec)
  }

  ghost predicate StartsWithVec<T>(bs: seq<U8>, xs: seq<T>, used: nat, dec: seq<U8> -> Parsed<T>) {
    exists k: nat :: IsVec(bs, xs, used, k, dec)
  }

  /** The first k bytes are the size of the content, the content is there, and it is a vector of that
      size. */
  ghost predicate IsSection<T>(bs: seq<U8>, xs: seq<T>, used: nat, k: nat, dec: seq<U8> -> Parsed<T>) {
    && k <= used <= |bs| && IsU(32, bs[..k], used - k)
    && StartsWithVec(bs[k..], xs, used - k, dec)
  }

  ghost predicate StartsWithSection<T>(bs: seq<U8>, xs: seq<T>, used: nat, dec: seq<U8> -> Parsed<T>) {
    exists k: nat :: IsSection(bs, xs, used, k, dec)
  }

  lemma {:induction false} LoadedIsConsumed<T(!new)>(bs: seq<U8>, n: nat, dec: seq<U8> -> Parsed<T>)
    requires Reads(dec) && ParseElements(bs, n, dec).Read?
    ensures var p := ParseElements(bs, n, dec); Consumes(bs, p.value, p.used, dec)
    decreases n
  {
    if n > 0 {
      assert ReadsWithin(dec, bs);
      ElementThen(bs, n, dec);
      var p := dec(bs);
      var q := ParseElements(bs[p.used..], n - 1, dec);
      LoadedIsConsumed(bs[p.used..], n - 1, dec);
      assert ([p.value] + q.value)[1..] == q.value;
    }
  }

  lemma {:induction false} ConsumedIsLoaded<T(!new)>(bs: seq<U8>, xs: seq<T>, used: nat, dec: seq<U8> -> Parsed<T>)
    requires Reads(dec) && Consumes(bs, xs, used, dec)
    ensures ParseElements(bs, |xs|, dec) == Read(xs, used)
    decreases |xs|
  {
    if xs != [] {
      assert ReadsWithin(dec, bs);
      ElementThen(bs, |xs|, dec);
      var p := dec(bs);
      ConsumedIsLoaded(bs[p.used..], xs[1..], used - p.used, dec);
      assert xs == [xs[0]] + xs[1..];
    }
  }

  lemma ElementsLoadIff<T(!new)>(bs: seq<U8>, n: nat, xs: seq<T>, used: nat, dec: seq<U8> -> Parsed<T>)
    requires Reads(dec)
    ensures ParseElements(bs, n, dec) == Read(xs, used) <==> |xs| == n && Consumes(bs, xs, used, dec)
  {
    if ParseElements(bs, n, dec).Read? { LoadedIsConsumed(bs, n, dec); }
    if Consumes(bs, xs, used, dec) { ConsumedIsLoaded(bs, xs, used, dec); }
  }

  /** The first element that does not load is the error of the vector, at its place. */
  lemma {:induction false} ElementFails<T(!new)>(
      bs: seq<U8>, n: nat, xs: seq<T>, used: nat, dec: seq<U8> -> Parsed<T>)
    requires Reads(dec) && Consumes(bs, xs, used, dec) && |xs| < n && used <= |bs| && dec(bs[used..]).Failed?
    ensures var p := dec(bs[used..]); ParseElements(bs, n, dec) == Failed(p.error, used + p.used)
    decreases n
  {
    assert ReadsWithin(dec, bs);
    if xs == [] {
      assert bs[0..] == bs;
      FirstFails(bs, n, dec);
    } else {
      var k := dec(bs).used;
      assert bs[k..][used - k..] == bs[used..];
      ElementFails(bs[k..], n - 1, xs[1..], used - k, dec);
      ElementThen(bs, n, dec);
    }
  }

  lemma {:induction false} FirstFails<T(!new)>(bs: seq<U8>, n: nat, dec: seq<U8> -> Parsed<T>)
    requires Reads(dec) && n > 0 && dec(bs).Failed?
    ensures ParseElements(bs, n, dec) == Failed(dec(bs).error, dec(bs).used)
  {
  }

  /** A vector loads exactly when it is one. */
  lemma VecLoadsIff<T(!new)>(bs: seq<U8>, xs: seq<T>, used: nat, dec: seq<U8> -> Parsed<T>)
    requires Reads(dec)
    ensures ParseVec(bs, dec) == Read(xs, used) <==> StartsWithVec(bs, xs, used, dec)
  {
    if ParseVec(bs, dec) == Read(xs, used) {
      var k := ParseU(32, bs).used;
      ParsedIsU(32, bs);
      ElementsLoadIff(bs[k..], |xs|, xs, used - k, dec);
      assert IsVec(bs, xs, used, k, dec);
    }
    if k: nat :| IsVec(bs, xs, used, k, dec) {
      ParseUIff(32, bs, |xs|, k);
      ElementsLoadIff(bs[k..], |xs|, xs, used - k, dec);
    }
  }

  /** A section loads exactly when it is one: for every byte sequence, with all that it takes. */
  lemma SectionLoadsIff<T(!new)>(bs: seq<U8>, xs: seq<T>, used: nat, dec: seq<U8> -> Parsed<T>)
    requires Reads(dec)
    ensures ParseSection(bs, dec) == Read(xs, used) <==> StartsWithSection(bs, xs, used, dec)
  {
    if ParseSection(bs, dec) == Read(xs, used) { LoadedIsSection(bs, xs, used, dec); }
    if k: nat :| IsSection(bs, xs, used, k, dec) { SectionIsLoaded(bs, xs, used, k, dec); }
  }

  lemma LoadedIsSection<T(!new)>(bs: seq<U8>, xs: seq<T>, used: nat, dec: seq<U8> -> Parsed<T>)
    requires Reads(dec) && ParseSection(bs, dec) == Read(xs, used)
    ensures StartsWithSection(bs, xs, used, dec)
  {
    SectionParts(bs, dec);
    var p := ParseU(32, bs);
    ParsedIsU(32, bs);
    VecLoadsIff(bs[p.used..], xs, p.value, dec);
    assert IsSection(bs, xs, used, p.used, dec);
  }

  lemma SectionIsLoaded<T(!new)>(bs: seq<U8>, xs: seq<T>, used: nat, k: nat, dec: seq<U8> -> Parsed<T>)
    requires Reads(dec) && IsSection(bs, xs, used, k, dec)
    ensures ParseSection(bs, dec) == Read(xs, used)
  {
    ParseUIff(32, bs, used - k, k);
    VecLoadsIff(bs[k..], xs, used - k, dec);
    SectionParts(bs, dec);
  }

  /** The two errors of the frame: the content is not all there, or it is a vector of another size. */
  lemma SectionErrors<T(!new)>(bs: seq<U8>, size: nat, k: nat, xs: seq<T>, used: nat, dec: seq<U8> -> Parsed<T>)
    requires Reads(dec) && k <= |bs| && IsU(32, bs[..k], size)
    ensures |bs| - k < size ==> ParseSection(bs, dec) == Failed(LengthOutOfBounds, k)
    ensures size <= |bs| - k && size != used && StartsWithVec(bs[k..], xs, used, dec) ==>
              ParseSection(bs, dec) == Failed(SectionSizeMismatch, k + used)
  {
    ParseUIff(32, bs, size, k);
    VecLoadsIff(bs[k..], xs, used, dec);
  }

  // ------------------------------------------------------------------ what is written

  /** The bytes of all elements. */
  function Concat<T>(content: seq<T>, enc: T -> Written): seq<U8> {
    if content == [] then []
    else Concat(content[..|content| - 1], enc) + enc(content[|content| - 1]).bytes
  }

  lemma {:induction false} ConcatFirst<T>(content: seq<T>, enc: T -> Written)
    requires content != []
    ensures Concat(content, enc) == enc(content[0]).bytes + Concat(content[1..], enc)
    decreases |content|
  {
    if |content| > 1 {
      var front, last := content[..|content| - 1], content[|content| - 1];
      ConcatFirst(front, enc);
      assert front[1..] == content[1..][..|content| - 2];
      Regroup(enc(content[0]).bytes, Concat(front[1..], enc), enc(last).bytes);
    } else {
      assert content[..0] == [] && content[1..] == [];
    }
  }

  /** The elements up to the first that fails, with what that one wrote, or all of them. */
  lemma {:induction false} ElementsAre<T>(content: seq<T>, enc: T -> Written, k: nat)
    requires k <= |content| && forall i | 0 <= i < k :: enc(content[i]).status == Success
    ensures k == |content| ==> Elements(content, enc) == Written(Concat(content, enc), Success)
    ensures k < |content| && enc(content[k]).status.Failure? ==>
              Elements(content, enc) == Written(Concat(content[..k + 1], enc), enc(content[k]).status)
    decreases |content|
  {
    if content != [] {
      ConcatFirst(content, enc);
      if k > 0 {
        ElementsAre(content[1..], enc, k - 1);
        if k < |content| {
          assert content[..k + 1][1..] == content[1..][..k];
          ConcatFirst(content[..k + 1], enc);
        }
      } else {
        ConcatFirst(content[..1], enc);
        assert content[..1][1..] == [];
      }
    }
  }
}
