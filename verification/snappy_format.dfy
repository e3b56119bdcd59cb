/**
 The Snappy block format, written from its format description: section 1
 (the preamble) and section 2 (2.1 literals, 2.2 copies).  This is the
 reference the compressor and the decompressor are proved against.  The
 decompressor keeps literal lengths in 32 bits; what that changes is stated
 at the end, for every stream.
 */
module SnappyFormat {
  import opened Basics

  /** kBlockSize: the largest fragment that is compressed at once. */
  const BLOCK_SIZE: nat := 0x8000

  datatype Element = Literal(bytes: seq<Byte>) | Copy(offset: nat, length: nat)

  datatype Parsed = Bad | Elem(e: Element, size: nat)

  /** The number written in little-endian order by bs. */
  function LE(bs: seq<Byte>): nat {
    if bs == [] then 0 else bs[0] + 256 * LE(bs[1..])
  }

  /** The element at the front of s and the number of bytes it takes. */
  function ParseElement(s: seq<Byte>): (r: Parsed)
    requires s != []
    ensures r.Elem? ==> 1 <= r.size <= |s|
  {
    var c := s[0];
    if c % 4 == 0 then
      var extra := if c / 4 < 60 then 0 else c / 4 - 59;
      if |s| < 1 + extra then Bad else
      var len := if c / 4 < 60 then c / 4 + 1 else LE(s[1..1 + extra]) + 1;
      if |s| < 1 + extra + len then Bad
      else Elem(Literal(s[1 + extra..1 + extra + len]), 1 + extra + len)
    else if c % 4 == 1 then
      if |s| < 2 then Bad else Elem(Copy(c / 32 * 256 + s[1], 4 + c / 4 % 8), 2)
    else
      var extra := if c % 4 == 2 then 2 else 4;
      if |s| < 1 + extra then Bad else Elem(Copy(LE(s[1..1 + extra]), 1 + c / 4), 1 + extra)
  }

  /** The output after a copy: each new byte repeats the one offset positions back,
      which may itself have been written by this copy. */
  function CopyFrom(out: seq<Byte>, offset: nat, length: nat): (r: seq<Byte>)
    requires 1 <= offset <= |out|
    ensures |r| == |out| + length && out <= r
    decreases length
  {
    if length == 0 then out
    else CopyFrom(out + [out[|out| - offset]], offset, length - 1)
  }

  predicate Applicable(out: seq<Byte>, e: Element) {
    e.Copy? ==> 1 <= e.offset <= |out|
  }

  function Apply(out: seq<Byte>, e: Element): (r: seq<Byte>)
    requires Applicable(out, e)
    ensures out <= r
  {
    match e
    case Literal(bytes) => out + bytes
    case Copy(offset, length) => CopyFrom(out, offset, length)
  }

  /** What the tag stream s turns out into; None when it is malformed. */
  function Decode(s: seq<Byte>, out: seq<Byte>): (r: Option<seq<Byte>>)
    ensures r.Some? ==> out <= r.value
    decreases |s|
  {
    if s == [] then Some(out)
    else
      match ParseElement(s)
      case Bad => None
      case Elem(e, size) =>
        if Applicable(out, e) then Decode(s[size..], Apply(out, e)) else None
  }

  function Pow128(k: nat): (r: nat)
    ensures r >= 1
  {
    if k == 0 then 1 else 128 * Pow128(k - 1)
  }

  /** The value of a length header and the number of bytes it takes. */
  datatype Header = Header(length: nat, size: nat)

  /** The preamble from byte k on: its value and where it ends.  At most five
      bytes, low seven bits first, and the value fits 32 bits. */
  function Preamble(s: seq<Byte>, k: nat): (r: Option<Header>)
    ensures r.Some? ==> k < r.value.size <= |s| && r.value.size <= 5
    decreases 5 - k
  {
    if k >= 5 || k >= |s| || (k == 4 && s[k] % 128 >= 16) then None
    else
      var digit: nat := s[k] % 128;
      if s[k] < 128 then Some(Header(digit * Pow128(k), k + 1))
      else
        match Preamble(s, k + 1)
        case None => None
        case Some(rest) => Some(Header(digit * Pow128(k) + rest.length, rest.size))
  }

  /** What a whole compressed buffer stands for. */
  function DecodeStream(s: seq<Byte>): Option<seq<Byte>> {
    match Preamble(s, 0)
    case None => None
    case Some(header) =>
      match Decode(s[header.size..], [])
      case None => None
      case Some(out) => if |out| == header.length then Some(out) else None
  }

  // ----- The format with 32-bit literal lengths ------------------------------------

  /** A literal tag whose length, one more than 32 ones, does not fit 32 bits. */
  predicate Overlong(s: seq<Byte>) {
    |s| >= 5 && s[0] == 252 && LE(s[1..5]) == 0xffff_ffff
  }

  /** The element as the decompressor reads it: the largest literal length wraps to zero. */
  function ParseElement32(s: seq<Byte>): (r: Parsed)
    requires s != []
    ensures r.Elem? ==> 1 <= r.size <= |s|
  {
    var c := s[0];
    if c % 4 == 0 then
      var extra := if c / 4 < 60 then 0 else c / 4 - 59;
      if |s| < 1 + extra then Bad else
      var len := if c / 4 < 60 then c / 4 + 1 else (LE(s[1..1 + extra]) + 1) % 0x1_0000_0000;
      if |s| < 1 + extra + len then Bad
      else Elem(Literal(s[1 + extra..1 + extra + len]), 1 + extra + len)
    else ParseElement(s)
  }

  function Decode32(s: seq<Byte>, out: seq<Byte>): (r: Option<seq<Byte>>)
    ensures r.Some? ==> out <= r.value
    decreases |s|
  {
    if s == [] then Some(out)
    else
      match ParseElement32(s)
      case Bad => None
      case Elem(e, size) =>
        if Applicable(out, e) then Decode32(s[size..], Apply(out, e)) else None
  }

  function DecodeStream32(s: seq<Byte>): Option<seq<Byte>> {
    match Preamble(s, 0)
    case None => None
    case Some(header) =>
      match Decode32(s[header.size..], [])
      case None => None
      case Some(out) => if |out| == header.length then Some(out) else None
  }

  /** Decoding s meets an overlong literal tag. */
  predicate MeetsOverlong(s: seq<Byte>, out: seq<Byte>)
    decreases |s|
  {
    s != [] && (Overlong(s) ||
      match ParseElement32(s)
      case Bad => false
      case Elem(e, size) => Applicable(out, e) && MeetsOverlong(s[size..], Apply(out, e)))
  }

  /** The two readings differ on overlong tags only. */
  lemma ParseDiffers(s: seq<Byte>)
    requires s != [] && |s| < 0x1_0000_0000
    ensures if Overlong(s) then ParseElement32(s) == Elem(Literal([]), 5) && ParseElement(s) == Bad
            else ParseElement32(s) == ParseElement(s)
  {
    var c := s[0];
    if c % 4 == 0 && c / 4 >= 60 && |s| >= c / 4 - 58 {
      var extra := c / 4 - 59;
      var bs := s[1..1 + extra];
      assert extra == 4 ==> s[5..5] == [];
      LEBound(bs);
      Pow256Values();
    }
  }

  /** On streams below 4 GB the 32-bit reading of lengths differs from the format only by
      going on after an overlong literal tag, which the format has to reject. */
  lemma {:induction false} DecodeDiffers(s: seq<Byte>, out: seq<Byte>)
    requires |s| < 0x1_0000_0000
    ensures Decode(s, out) == if MeetsOverlong(s, out) then None else Decode32(s, out)
    decreases |s|
  {
    if s != [] {
      ParseDiffers(s);
      hide ParseElement, ParseElement32, Overlong;
      var p := ParseElement32(s);
      if !Overlong(s) && p.Elem? && Applicable(out, p.e) {
        DecodeDiffers(s[p.size..], Apply(out, p.e));
      }
    }
  }

  /** The stream is malformed because of an overlong tag, and accepted all the same. */
  predicate WronglyAccepted(s: seq<Byte>) {
    && DecodeStream32(s).Some?
    && Preamble(s, 0).Some? && MeetsOverlong(s[Preamble(s, 0).value.size..], [])
  }

  /** Exactly what the 32-bit reading accepts, and what it gives. */
  lemma StreamDiffers(s: seq<Byte>)
    requires |s| < 0x1_0000_0000
    ensures DecodeStream32(s).Some? <==> DecodeStream(s).Some? || WronglyAccepted(s)
    ensures DecodeStream(s).Some? ==> !WronglyAccepted(s) && DecodeStream32(s) == DecodeStream(s)
  {
    if Preamble(s, 0).Some? {
      DecodeDiffers(s[Preamble(s, 0).value.size..], []);
    }
  }

  /** The verdict on a stream: that of the format, or wrongly accepted; and the bytes delivered
      for an accepted one, which are those of the format if there are any. */
  predicate Verdict(s: seq<Byte>, ok: bool) {
    ok <==> DecodeStream(s).Some? || WronglyAccepted(s)
  }

  predicate Delivered(s: seq<Byte>, out: seq<Byte>) {
    Some(out) == DecodeStream32(s) && (DecodeStream(s).Some? ==> Some(out) == DecodeStream(s))
  }

  /** Such a stream: it announces a literal of 4 GB, ends right there, and is accepted as an
      empty output. */
  lemma OverlongAccepted()
    ensures var s := [0, 252, 255, 255, 255, 255];
            DecodeStream32(s) == Some([]) && DecodeStream(s) == None && WronglyAccepted(s)
  {
    var s: seq<Byte> := [0, 252, 255, 255, 255, 255];
    var t: seq<Byte> := [252, 255, 255, 255, 255];
    assert s[1..] == t && t[1..5] == [255, 255, 255, 255] && t[5..5] == [] && t[5..] == [];
    LE4(255, 255, 255, 255);
    assert ParseElement32(t) == Elem(Literal([]), 5);
    assert Decode32(t[5..], []) == Some([]);
    assert Preamble(s, 0) == Some(Header(0, 1));
    StreamDiffers(s);
  }

  // ----- Laws of the format ---------------------------------------------------

  /** Two copies at the same distance are one longer copy. */
  lemma {:induction false} CopyFromConcat(out: seq<Byte>, offset: nat, m: nat, n: nat)
    requires 1 <= offset <= |out|
    ensures CopyFrom(CopyFrom(out, offset, m), offset, n) == CopyFrom(out, offset, m + n)
    decreases m
  {
    if m > 0 {
      CopyFromConcat(out + [out[|out| - offset]], offset, m - 1, n);
    }
  }

  /** r repeats at i what it has offset positions earlier. */
  predicate Echo(r: seq<Byte>, offset: nat, i: nat) {
    offset <= i < |r| && r[i] == r[i - offset]
  }

  /** A sequence that extends out and repeats itself at distance offset is the copy. */
  lemma {:induction false} CopyFromUnique(out: seq<Byte>, offset: nat, r: seq<Byte>)
    requires 1 <= offset <= |out| && out <= r
    requires forall i :: |out| <= i < |r| ==> Echo(r, offset, i)
    ensures r == CopyFrom(out, offset, |r| - |out|)
    decreases |r| - |out|
  {
    if |r| > |out| {
      var next := out + [out[|out| - offset]];
      assert Echo(r, offset, |out|);
      assert next == r[..|out| + 1];
      CopyFromUnique(next, offset, r);
    }
  }

  function Pow256(k: nat): (r: nat)
    ensures r >= 1
  {
    if k == 0 then 1 else 256 * Pow256(k - 1)
  }

  lemma Pow256Values()
    ensures Pow256(1) == 0x100 && Pow256(2) == 0x1_0000
    ensures Pow256(3) == 0x100_0000 && Pow256(4) == 0x1_0000_0000 && Pow256(8) == 0x1_0000_0000_0000_0000
  {
    assert Pow256(1) == 256 * Pow256(0);
    assert Pow256(2) == 256 * Pow256(1);
    assert Pow256(3) == 256 * Pow256(2);
    assert Pow256(4) == 256 * Pow256(3);
    assert Pow256(5) == 256 * Pow256(4);
    assert Pow256(6) == 256 * Pow256(5);
    assert Pow256(7) == 256 * Pow256(6);
  }

  /** A little-endian number fits its bytes. */
  lemma {:induction false} LEBound(bs: seq<Byte>)
    ensures LE(bs) < Pow256(|bs|)
  {
    if bs != [] {
      LEBound(bs[1..]);
    }
  }

  lemma LE1(a: Byte)
    ensures LE([a]) == a
  {
    assert LE([a][1..]) == 0;
  }

  lemma LE2(a: Byte, b: Byte)
    ensures LE([a, b]) == a + 256 * b
  {
    assert [a, b][1..] == [b];
    LE1(b);
  }

  lemma LE4(a: Byte, b: Byte, c: Byte, d: Byte)
    ensures LE([a, b, c, d]) == a + 256 * b + 0x1_0000 * c + 0x100_0000 * d
  {
    assert [a, b, c, d][1..] == [b, c, d];
    assert [b, c, d][1..] == [c, d];
    LE2(c, d);
  }
}
