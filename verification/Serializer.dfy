/** Writing numbers and sections, section 5.5.2 of the WebAssembly Core Specification. */
module Serializer {
  import opened Arith
  import opened Words
  import opened Leb128
  import opened FileManager

  /** The output vector that the writers append to and insert into. */
  class ByteVector {
    var bytes: seq<U8>

    constructor ()
      ensures bytes == []
    {
      bytes := [];
    }
  }

  /** What an element writer appended, and how it ended. */
  datatype Written = Written(bytes: seq<U8>, status: Status)

  lemma Regroup(a: seq<U8>, b: seq<U8>, c: seq<U8>)
    ensures a + (b + c) == a + b + c
  {
  }

  /** One round of writing an unsigned number: a byte, and what is still to be written if there is more. */
  method NextU(v: nat) returns (x: U8, rest: nat, more: bool)
    ensures EncodeU(v) == [x] + if more then EncodeU(rest) else []
    ensures rest < v || (rest == v && !more)
  {
    var low := v % 128;
    rest := v / 128;
    more := rest != 0;
    x := if more then low + 128 else low;
  }

  method NextS(v: int) returns (x: U8, rest: int, more: bool)
    ensures EncodeS(v) == [x] + if more then EncodeS(rest) else []
    ensures more ==> (if rest < 0 then -rest else rest) < (if v < 0 then -v else v)
  {
    var low := v % 128;
    rest := v / 128;
    more := !((rest == 0 && low < 64) || (rest == -1 && low >= 64));
    x := if more then low + 128 else low;
  }

  /** The buffer of n / 7 + 1 bytes filled with an unsigned number of n bits. */
  method FillUN(n: nat, num: nat) returns (filled: seq<U8>)
    requires n > 0 && num < Pow2(n)
    ensures filled == EncodeU(num)
  {
    LengthU(n, num);
    var buf := new U8[n / 7 + 1];
    var len, rest, more, x := 0, num, true, 0;
    while more
      invariant len <= buf.Length
      invariant buf[..len] + (if more then EncodeU(rest) else []) == EncodeU(num)
      decreases rest, more
    {
      ghost var before := buf[..len];
      x, rest, more := NextU(rest);
      Regroup(before, [x], if more then EncodeU(rest) else []);
      buf[len] := x;
      len := len + 1;
      assert buf[..len] == before + [x];
    }
    filled := buf[..len];
  }

  /** An unsigned number inserted at a position; the source has this for 32 and 64 bits. */
  method SerializeUN(n: nat, num: nat, out: ByteVector, at: nat)
    requires n > 0 && num < Pow2(n) && at <= |out.bytes|
    modifies out
    ensures out.bytes == old(out.bytes)[..at] + EncodeU(num) + old(out.bytes)[at..]
  {
    var filled := FillUN(n, num);
    out.bytes := out.bytes[..at] + filled + out.bytes[at..];
  }

  method FillSN(n: nat, num: int) returns (filled: seq<U8>)
    requires n > 0 && FitsS(n, num)
    ensures filled == EncodeS(num)
  {
    LengthS(n, num);
    var buf := new U8[n / 7 + 1];
    var len, rest, more, x := 0, num, true, 0;
    while more
      invariant len <= buf.Length
      invariant buf[..len] + (if more then EncodeS(rest) else []) == EncodeS(num)
      decreases more, if rest < 0 then -rest else rest
    {
      ghost var before := buf[..len];
      x, rest, more := NextS(rest);
      Regroup(before, [x], if more then EncodeS(rest) else []);
      buf[len] := x;
      len := len + 1;
      assert buf[..len] == before + [x];
    }
    filled := buf[..len];
  }

  /** A signed number appended; the source has this for 32, 33 and 64 bits. */
  method SerializeSN(n: nat, num: int, out: ByteVector)
    requires n > 0 && FitsS(n, num)
    modifies out
    ensures out.bytes == old(out.bytes) + EncodeS(num)
  {
    var filled := FillSN(n, num);
    out.bytes := out.bytes + filled;
  }

  /** The elements of a section written one after the other, up to the first failure. */
  function Elements<T>(content: seq<T>, enc: T -> Written): Written {
    if content == [] then Written([], Success)
    else
      var head := enc(content[0]);
      if head.status.Failure? then head
      else
        var tail := Elements(content[1..], enc);
        Written(head.bytes + tail.bytes, tail.status)
  }

  /** The content of a section: the number of elements and the elements. */
  function Body<T>(content: seq<T>, enc: T -> Written): seq<U8> {
    EncodeU(|content| % TWO32) + Elements(content, enc).bytes
  }

  /** A section after its id: the size of the content and the content. */
  function Framed<T>(content: seq<T>, enc: T -> Written): seq<U8> {
    EncodeU(|Body(content, enc)| % TWO32) + Body(content, enc)
  }

  lemma {:induction false} ElementsFrom<T>(content: seq<T>, i: nat, enc: T -> Written)
    requires i < |content|
    ensures var w, tail := enc(content[i]), Elements(content[i + 1..], enc);
            Elements(content[i..], enc) == if w.status.Failure? then w else Written(w.bytes + tail.bytes, tail.status)
  {
    assert content[i..][0] == content[i] && content[i..][1..] == content[i + 1..];
  }

  method SerializeElements<T>(content: seq<T>, out: ByteVector, enc: T -> Written) returns (status: Status)
    modifies out
    ensures out.bytes == old(out.bytes) + Elements(content, enc).bytes
    ensures status == Elements(content, enc).status
  {
    ghost var done: seq<U8> := [];
    for i := 0 to |content|
      invariant out.bytes == old(out.bytes) + done
      invariant Elements(content, enc).bytes == done + Elements(content[i..], enc).bytes
      invariant Elements(content, enc).status == Elements(content[i..], enc).status
    {
      var w := enc(content[i]);
      ElementsFrom(content, i, enc);
      Regroup(old(out.bytes), done, w.bytes);
      out.bytes := out.bytes + w.bytes;
      if w.status.Failure? { return w.status; }
      Regroup(done, w.bytes, Elements(content[i + 1..], enc).bytes);
      done := done + w.bytes;
    }
    status := Success;
  }

  lemma Inserted(before: seq<U8>, x: seq<U8>, body: seq<U8>)
    ensures var all := before + body; all[..|before|] + x + all[|before|..] == before + (x + body)
  {
    var all := before + body;
    assert all[..|before|] == before && all[|before|..] == body;
    Regroup(before, x, body);
  }

  /** A 32-bit number appended. */
  method AppendU32(num: nat, out: ByteVector)
    requires num < TWO32
    modifies out
    ensures out.bytes == old(out.bytes) + EncodeU(num)
  {
    Pow2Word32();
    SerializeUN(32, num, out, |out.bytes|);
  }

  method SerializeBody<T>(content: seq<T>, out: ByteVector, enc: T -> Written) returns (status: Status)
    modifies out
    ensures out.bytes == old(out.bytes) + Body(content, enc) && status == Elements(content, enc).status
  {
    AppendU32(|content| % TWO32, out);
    status := SerializeElements(content, out, enc);
    Regroup(old(out.bytes), EncodeU(|content| % TWO32), Elements(content, enc).bytes);
  }

  /** The size of what was written after `orgSize`, inserted before it. */
  method InsertSize(out: ByteVector, orgSize: nat, ghost before: seq<U8>, ghost body: seq<U8>)
    requires out.bytes == before + body && orgSize == |before|
    modifies out
    ensures out.bytes == before + (EncodeU(|body| % TWO32) + body)
  {
    Pow2Word32();
    Inserted(before, EncodeU(|body| % TWO32), body);
    SerializeUN(32, (|out.bytes| - orgSize) % TWO32, out, orgSize);
  }

  /** The size is inserted before the content once the content is there. An empty section is not
      written at all, and a failed element leaves what was written before it. */
  method SerializeSectionContent<T>(content: seq<T>, code: U8, out: ByteVector, enc: T -> Written)
    returns (status: Status)
    modifies out
    ensures content == [] ==> status == Success && out.bytes == old(out.bytes)
    ensures content != [] ==> status == Elements(content, enc).status
    ensures content != [] ==>
              out.bytes == old(out.bytes) + [code]
                         + if status.Success? then Framed(content, enc) else Body(content, enc)
  {
    if |content| == 0 { return Success; }
    out.bytes := out.bytes + [code];
    ghost var before := out.bytes;
    var orgSize := |out.bytes|;
    status := SerializeBody(content, out, enc);
    if status.Success? { InsertSize(out, orgSize, before, Body(content, enc)); }
  }
}
