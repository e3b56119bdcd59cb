/**
 Writing tags: EmitLiteral, EmitCopyAtMost64 and EmitCopy (snappy.cc), over the
 flat output buffer, with the over-wide stores the code makes.  Every emitter is
 tied to the element list it writes; that the written bytes decode back to those
 elements is proved once, for all lists.
 */
module SnappyEmit {
  import opened Basics
  import opened SnappyFormat
  import opened SnappyBits

  // ----- Elements as bytes ------------------------------------------------------

  /** The elements the compressor can write. */
  predicate Writable(e: Element) {
    match e
    case Literal(bytes) => 0 < |bytes| <= 0x1_0000
    case Copy(offset, length) => 4 <= length <= 64 && 0 < offset < 0x1_0000
  }

  predicate ShortCopy(offset: nat, length: nat) {
    length < 12 && offset < 2048
  }

  /** The bytes written for e. */
  function EncodeElement(e: Element): (r: seq<Byte>)
    requires Writable(e)
    ensures |r| > 0
  {
    match e
    case Literal(bytes) => LiteralTag(|bytes|) + bytes
    case Copy(offset, length) =>
      if ShortCopy(offset, length) then [1 + (length - 4) * 4 + offset / 256 * 32, offset % 256]
      else [2 + (length - 1) * 4, offset % 256, offset / 256]
  }

  function LiteralTag(len: nat): (r: seq<Byte>)
    requires 0 < len <= 0x1_0000
    ensures 1 <= |r| <= (if len <= 60 then 1 else if len <= 0x100 then 2 else 3)
  {
    if len <= 60 then [4 * (len - 1)]
    else if len <= 0x100 then [240, len - 1]
    else [244, (len - 1) % 0x100, (len - 1) / 0x100]
  }

  /** Tag encoding and decoding are inverse, whatever follows. */
  lemma EncodeParses(e: Element, rest: seq<Byte>)
    requires Writable(e)
    ensures ParseElement(EncodeElement(e) + rest) == Elem(e, |EncodeElement(e)|)
  {
    match e
    case Literal(bytes) => LiteralParses(bytes, rest);
    case Copy(offset, length) => CopyParses(offset, length, rest);
  }

  lemma LiteralParses(bytes: seq<Byte>, rest: seq<Byte>)
    requires 0 < |bytes| <= 0x1_0000
    ensures ParseElement(LiteralTag(|bytes|) + bytes + rest) == Elem(Literal(bytes), |LiteralTag(|bytes|)| + |bytes|)
  {
    var tag := LiteralTag(|bytes|);
    var s := tag + bytes + rest;
    assert s[|tag|..|tag| + |bytes|] == bytes;
    if |tag| == 2 {
      assert s[1..2] == [|bytes| - 1];
      LE1(|bytes| - 1);
    } else if |tag| == 3 {
      assert s[1..3] == [(|bytes| - 1) % 0x100, (|bytes| - 1) / 0x100];
      LE2((|bytes| - 1) % 0x100, (|bytes| - 1) / 0x100);
    }
  }

  lemma CopyParses(offset: nat, length: nat, rest: seq<Byte>)
    requires Writable(Copy(offset, length))
    ensures var b := EncodeElement(Copy(offset, length)); ParseElement(b + rest) == Elem(Copy(offset, length), |b|)
  {
    var s := EncodeElement(Copy(offset, length)) + rest;
    if ShortCopy(offset, length) {
      ShortTag(offset, length);
    } else {
      assert s[1..3] == [offset % 256, offset / 256];
      LE2(offset % 256, offset / 256);
    }
  }

  lemma ShortTag(offset: nat, length: nat)
    requires ShortCopy(offset, length) && 4 <= length
    ensures var c := 1 + (length - 4) * 4 + offset / 256 * 32;
            c % 4 == 1 && c / 32 == offset / 256 && c / 4 % 8 == length - 4
  {
    var hi := offset / 256;
    var c := 1 + (length - 4) * 4 + hi * 32;
    assert c / 4 == length - 4 + 8 * hi;
  }

  ghost predicate AllWritable(es: seq<Element>) {
    forall i :: 0 <= i < |es| ==> Writable(es[i])
  }

  function EncodeAll(es: seq<Element>): seq<Byte>
    requires AllWritable(es)
  {
    if es == [] then [] else EncodeElement(es[0]) + EncodeAll(es[1..])
  }

  /** What the elements turn out into; None if one of them refers too far back. */
  function Run(es: seq<Element>, out: seq<Byte>): Option<seq<Byte>> {
    if es == [] then Some(out)
    else if Applicable(out, es[0]) then Run(es[1..], Apply(out, es[0])) else None
  }

  /** Decoding the bytes of any list of writable elements runs exactly that list. */
  lemma {:induction false} DecodeOfEncode(es: seq<Element>, tail: seq<Byte>, out: seq<Byte>)
    requires AllWritable(es)
    ensures Decode(EncodeAll(es) + tail, out) ==
            match Run(es, out) case None => None case Some(x) => Decode(tail, x)
  {
    if es == [] {
      assert EncodeAll(es) + tail == tail;
    } else {
      var b, rest := EncodeElement(es[0]), EncodeAll(es[1..]) + tail;
      assert EncodeAll(es) + tail == b + rest;
      EncodeParses(es[0], rest);
      assert (b + rest)[|b|..] == rest;
      if Applicable(out, es[0]) {
        DecodeOfEncode(es[1..], tail, Apply(out, es[0]));
      }
    }
  }

  lemma {:induction false} EncodeAllConcat(a: seq<Element>, b: seq<Element>)
    requires AllWritable(a) && AllWritable(b)
    ensures EncodeAll(a + b) == EncodeAll(a) + EncodeAll(b)
  {
    if a == [] {
      assert a + b == b;
    } else {
      assert (a + b)[1..] == a[1..] + b;
      EncodeAllConcat(a[1..], b);
    }
  }

  lemma {:induction false} RunConcat(a: seq<Element>, b: seq<Element>, out: seq<Byte>)
    requires Run(a, out).Some?
    ensures Run(a + b, out) == Run(b, Run(a, out).value)
  {
    if a == [] {
      assert a + b == b;
    } else {
      assert (a + b)[1..] == a[1..] + b;
      RunConcat(a[1..], b, Apply(out, a[0]));
    }
  }

  lemma EncodeOne(e: Element)
    requires Writable(e)
    ensures EncodeAll([e]) == EncodeElement(e)
  {
    assert [e][1..] == [];
    assert EncodeAll([e]) == EncodeElement(e) + EncodeAll([e][1..]);
  }

  lemma RunOne(e: Element, out: seq<Byte>)
    requires Applicable(out, e)
    ensures Run([e], out) == Some(Apply(out, e))
  {
    assert [e][1..] == [];
    assert Run([e][1..], Apply(out, e)) == Some(Apply(out, e));
  }

  /** The pieces a copy of length bytes is cut into: 64 at a time, then 60 if that
      leaves at least four, then the rest. */
  function Pieces(offset: nat, length: nat): (r: seq<Element>)
    requires 4 <= length && 0 < offset < 0x1_0000
    ensures AllWritable(r)
    decreases length
  {
    if length >= 68 then [Copy(offset, 64)] + Pieces(offset, length - 64)
    else if length > 64 then [Copy(offset, 60), Copy(offset, length - 60)]
    else [Copy(offset, length)]
  }

  /** The pieces together are the copy, and cost at most 3 bytes for each 4 copied. */
  lemma {:induction false} RunPieces(offset: nat, length: nat, out: seq<Byte>)
    requires 4 <= length && 0 < offset < 0x1_0000 && offset <= |out|
    ensures Run(Pieces(offset, length), out) == Some(CopyFrom(out, offset, length))
    decreases length
  {
    hide CopyFrom;
    if length >= 68 {
      RunPieces(offset, length - 64, CopyFrom(out, offset, 64));
      RunCopyThen(offset, 64, length - 64, Pieces(offset, length - 64), out);
    } else if length > 64 {
      RunOne(Copy(offset, length - 60), CopyFrom(out, offset, 60));
      RunCopyThen(offset, 60, length - 60, [Copy(offset, length - 60)], out);
    } else {
      RunOne(Copy(offset, length), out);
    }
  }

  /** A copy in front of elements that continue it. */
  lemma RunCopyThen(offset: nat, m: nat, n: nat, rest: seq<Element>, out: seq<Byte>)
    requires 0 < offset <= |out|
    requires Run(rest, CopyFrom(out, offset, m)) == Some(CopyFrom(CopyFrom(out, offset, m), offset, n))
    ensures Run([Copy(offset, m)] + rest, out) == Some(CopyFrom(out, offset, m + n))
  {
    CopyFromConcat(out, offset, m, n);
    var es := [Copy(offset, m)] + rest;
    assert es[1..] == rest;
  }

  // ----- Stores -----------------------------------------------------------------

  /** Nothing from op on has changed. */
  twostate predicate KeptFrom(dst: array<Byte>, op: nat)
    reads dst
  {
    forall i :: op <= i < dst.Length ==> dst[i] == old(dst[i])
  }

  /** Nothing in front of op has changed. */
  twostate predicate Kept(dst: array<Byte>, op: nat)
    reads dst
  {
    op <= dst.Length && forall i :: 0 <= i < op ==> dst[i] == old(dst[i])
  }

  /** LittleEndian::Store32. */
  method Store32(dst: array<Byte>, op: nat, v: Uint32)
    requires op + 4 <= dst.Length
    modifies dst
    ensures dst[op] == v % 0x100 && dst[op + 1] == v / 0x100 % 0x100
    ensures dst[op + 2] == v / 0x1_0000 % 0x100 && dst[op + 3] == v / 0x100_0000
    ensures Kept(dst, op) && KeptFrom(dst, op + 4)
  {
    dst[op], dst[op + 1], dst[op + 2], dst[op + 3] :=
      v % 0x100, v / 0x100 % 0x100, v / 0x1_0000 % 0x100, v / 0x100_0000;
  }

  /** memcpy of bytes to dst[op..]. */
  method Write(dst: array<Byte>, op: nat, bytes: seq<Byte>)
    requires op + |bytes| <= dst.Length
    modifies dst
    ensures Kept(dst, op) && KeptFrom(dst, op + |bytes|)
    ensures dst[op..op + |bytes|] == bytes
    ensures forall i :: op <= i < op + |bytes| ==> dst[i] == bytes[i - op]
  {
    forall i | 0 <= i < |bytes| {
      dst[op + i] := bytes[i];
    }
  }

  /** EmitLiteral.  The fast path stores sixteen bytes whatever the length. */
  method EmitLiteral(dst: array<Byte>, op0: nat, input: seq<Byte>, start: nat, len: nat, allowFastPath: bool)
    returns (op: nat)
    requires 0 < len <= 0x1_0000 && start + len <= |input|
    requires op0 + |LiteralTag(len)| + len <= dst.Length
    requires allowFastPath && len <= 16 ==> start + 16 <= |input| && op0 + 17 <= dst.Length
    modifies dst
    ensures op == op0 + |LiteralTag(len)| + len && Kept(dst, op0)
    ensures dst[op0..op] == EncodeElement(Literal(input[start..start + len]))
    ensures KeptFrom(dst, if allowFastPath && len <= 16 then op0 + 17 else op)
  {
    if len <= 60 {
      op := EmitShortLiteral(dst, op0, input, start, len, allowFastPath);
    } else {
      op := EmitLongLiteral(dst, op0, input, start, len);
    }
  }

  method EmitShortLiteral(dst: array<Byte>, op0: nat, input: seq<Byte>, start: nat, len: nat, allowFastPath: bool)
    returns (op: nat)
    requires 0 < len <= 60 && start + len <= |input|
    requires op0 + 1 + len <= dst.Length
    requires allowFastPath && len <= 16 ==> start + 16 <= |input| && op0 + 17 <= dst.Length
    modifies dst
    ensures op == op0 + 1 + len && Kept(dst, op0)
    ensures dst[op0..op] == [4 * (len - 1)] + input[start..start + len]
    ensures KeptFrom(dst, if allowFastPath && len <= 16 then op0 + 17 else op)
  {
    var n := len - 1;
    dst[op0] := n * 4;
    op := op0 + 1 + len;
    ghost var lit := input[start..start + len];
    if allowFastPath && len <= 16 {
      Write(dst, op0 + 1, input[start..start + 16]);
    } else {
      Write(dst, op0 + 1, input[start..start + len]);
    }
    forall i | op0 + 1 <= i < op ensures dst[i] == lit[i - op0 - 1] {}
    assert dst[op0 + 1..op] == lit;
    assert dst[op0..op] == [dst[op0]] + dst[op0 + 1..op];
  }

  /** (Log2Floor(n) >> 3) + 1 is the number of length bytes. */
  lemma ByteCount(n: Uint32, log: nat)
    requires 60 <= n < 0x1_0000 && log == Log2(n)
    ensures log / 8 + 1 == if n < 0x100 then 1 else 2
  {
    Log2Bounds(n);
    Pow2Values();
    if n < 0x100 {
      if log >= 8 { Pow2Mono(8, log); }
    } else {
      if log < 8 { Pow2Mono(log + 1, 8); }
      if log >= 16 { Pow2Mono(16, log); }
    }
  }

  /** The branch for literals of more than sixty bytes: Store32 writes four length
      bytes, of which count are kept. */
  method EmitLongLiteral(dst: array<Byte>, op0: nat, input: seq<Byte>, start: nat, len: nat) returns (op: nat)
    requires 60 < len <= 0x1_0000 && start + len <= |input|
    requires op0 + |LiteralTag(len)| + len <= dst.Length
    modifies dst
    ensures op == op0 + |LiteralTag(len)| + len && Kept(dst, op0)
    ensures dst[op0..op] == LiteralTag(len) + input[start..start + len]
    ensures KeptFrom(dst, op)
  {
    op := PutLongTag(dst, op0, len - 1);
    ghost var tag := dst[op0..op];
    Write(dst, op, input[start..start + len]);
    assert dst[op0..op] == tag;
    assert dst[op0..op + len] == dst[op0..op] + dst[op..op + len];
    op := op + len;
  }

  method PutLongTag(dst: array<Byte>, op0: nat, n: Uint32) returns (op: nat)
    requires 60 <= n < 0x1_0000 && op0 + 5 <= dst.Length
    modifies dst
    ensures op == op0 + |LiteralTag(n + 1)| && Kept(dst, op0)
    ensures dst[op0..op] == LiteralTag(n + 1) && KeptFrom(dst, op0 + 5)
  {
    var log := Log2FloorNonZero(n);
    var count := log / 8 + 1;
    ByteCount(n, log);
    dst[op0] := 4 * (59 + count);
    Store32(dst, op0 + 1, n);
    op := op0 + 1 + count;
    LongTagBytes(dst[op0..op], n);
  }

  lemma LongTagBytes(s: seq<Byte>, n: Uint32)
    requires 60 <= n < 0x1_0000 && |s| == (if n < 0x100 then 2 else 3)
    requires s[0] == 4 * (58 + |s|) && s[1] == n % 0x100 && (n >= 0x100 ==> s[2] == n / 0x100 % 0x100)
    ensures s == LiteralTag(n + 1)
  {}

  /** EmitCopyAtMost64: two bytes, or four of which three are kept. */
  method EmitCopyAtMost64(dst: array<Byte>, op0: nat, offset: nat, len: nat, lenLessThan12: bool) returns (op: nat)
    requires 4 <= len <= 64 && 0 < offset < 0x1_0000 && lenLessThan12 == (len < 12)
    requires op0 + 4 <= dst.Length
    modifies dst
    ensures op == op0 + (if len < 12 && offset < 2048 then 2 else 3) && Kept(dst, op0)
    ensures dst[op0..op] == EncodeElement(Copy(offset, len))
  {
    if lenLessThan12 && offset < 2048 {
      dst[op0] := 1 + (len - 4) * 4 + offset / 256 * 32;
      dst[op0 + 1] := offset % 256;
      op := op0 + 2;
      ShortCopyBytes(dst[op0..op], offset, len);
    } else {
      var u: Uint32 := 2 + (len - 1) * 4 + offset * 256;
      Store32(dst, op0, u);
      LongCopyDigits(u, offset, len);
      op := op0 + 3;
      LongCopyBytes(dst[op0..op], offset, len);
    }
  }

  lemma ShortCopyBytes(s: seq<Byte>, offset: nat, len: nat)
    requires 4 <= len < 12 && 0 < offset < 2048 && |s| == 2
    requires s[0] == 1 + (len - 4) * 4 + offset / 256 * 32 && s[1] == offset % 256
    ensures s == EncodeElement(Copy(offset, len))
  {}

  lemma LongCopyDigits(u: Uint32, offset: nat, len: nat)
    requires 4 <= len <= 64 && 0 < offset < 0x1_0000 && u == 2 + (len - 1) * 4 + offset * 256
    ensures u % 0x100 == 2 + (len - 1) * 4 && u / 0x100 % 0x100 == offset % 256 && u / 0x1_0000 % 0x100 == offset / 256
  {
    assert u / 0x100 == offset;
    assert u / 0x1_0000 == offset / 256;
  }

  lemma LongCopyBytes(s: seq<Byte>, offset: nat, len: nat)
    requires 4 <= len <= 64 && 0 < offset < 0x1_0000 && !(len < 12 && offset < 2048) && |s| == 3
    requires s[0] == 2 + (len - 1) * 4 && s[1] == offset % 256 && s[2] == offset / 256
    ensures s == EncodeElement(Copy(offset, len))
  {}

  lemma PiecesStep(before: seq<Byte>, offset: nat, len: nat)
    requires 68 <= len && 0 < offset < 0x1_0000
    ensures before + EncodeElement(Copy(offset, 64)) + EncodeAll(Pieces(offset, len - 64)) ==
            before + EncodeAll(Pieces(offset, len))
  {
    EncodeOne(Copy(offset, 64));
    EncodeAllConcat([Copy(offset, 64)], Pieces(offset, len - 64));
  }

  /** EmitCopy: pieces of 64, then 60 if needed so that at least four bytes remain,
      then the rest.  Three tag bytes buy at least four copied ones. */
  method EmitCopy(dst: array<Byte>, op0: nat, offset: nat, len0: nat, lenLessThan12: bool) returns (op: nat)
    requires 4 <= len0 && 0 < offset < 0x1_0000 && lenLessThan12 == (len0 < 12)
    requires op0 + len0 <= dst.Length
    modifies dst
    ensures op0 <= op <= dst.Length && 6 * (op - op0) + 10 <= 7 * len0 && Kept(dst, op0)
    ensures dst[op0..op] == EncodeAll(Pieces(offset, len0))
  {
    if lenLessThan12 {
      op := EmitCopyAtMost64(dst, op0, offset, len0, true);
      EncodeOne(Copy(offset, len0));
      return;
    }
    op := op0;
    var len := len0;
    while len >= 68
      invariant 12 <= len0 && 4 <= len <= len0
      invariant op0 <= op && 6 * (op - op0) <= 7 * (len0 - len) && op - op0 <= len0 - len
      invariant dst[op0..op] + EncodeAll(Pieces(offset, len)) == EncodeAll(Pieces(offset, len0))
      invariant Kept(dst, op0)
    {
      PiecesStep(dst[op0..op], offset, len);
      op := EmitPiece64(dst, op0, op, offset);
      len := len - 64;
    }
    ghost var before := dst[op0..op];
    var op' := EmitCopyTail(dst, op, offset, len);
    Extend(before, dst, op0, op, op');
    op := op';
  }

  /** What a kept part and a new part behind it make together. */
  lemma Extend(before: seq<Byte>, dst: array<Byte>, op0: nat, op1: nat, op: nat)
    requires op0 <= op1 <= op <= dst.Length && |before| == op1 - op0
    requires forall i :: op0 <= i < op1 ==> dst[i] == before[i - op0]
    ensures dst[op0..op] == before + dst[op1..op]
  {}

  method EmitPiece64(dst: array<Byte>, op0: nat, op1: nat, offset: nat) returns (op: nat)
    requires 0 < offset < 0x1_0000 && op0 <= op1 && op1 + 4 <= dst.Length
    modifies dst
    ensures op1 + 2 <= op <= op1 + 3 && Kept(dst, op0)
    ensures dst[op0..op] == old(dst[op0..op1]) + EncodeElement(Copy(offset, 64))
  {
    ghost var before := dst[op0..op1];
    op := EmitCopyAtMost64(dst, op1, offset, 64, false);
    Extend(before, dst, op0, op1, op);
  }

  /** One or two copies finish the job. */
  method EmitCopyTail(dst: array<Byte>, op0: nat, offset: nat, len: nat) returns (op: nat)
    requires 0 < offset < 0x1_0000 && 4 <= len < 68
    requires op0 + len <= dst.Length
    modifies dst
    ensures op0 <= op <= dst.Length && 6 * (op - op0) + 10 <= 7 * len && Kept(dst, op0)
    ensures dst[op0..op] == EncodeAll(Pieces(offset, len))
  {
    if len > 64 {
      var mid := EmitCopyAtMost64(dst, op0, offset, 60, false);
      ghost var first := dst[op0..mid];
      op := EmitCopyAtMost64(dst, mid, offset, len - 60, len - 60 < 12);
      assert dst[op0..op] == first + dst[mid..op];
      EncodeOne(Copy(offset, 60));
      EncodeOne(Copy(offset, len - 60));
      EncodeAllConcat([Copy(offset, 60)], [Copy(offset, len - 60)]);
    } else {
      op := EmitCopyAtMost64(dst, op0, offset, len, len < 12);
      EncodeOne(Copy(offset, len));
    }
  }
}
