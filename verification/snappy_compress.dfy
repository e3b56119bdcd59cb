/**
 Byte sources that hand out their data in arbitrary pieces (snappy-sinksource.h),
 and Compress over such a source into a flat buffer (snappy.cc).
 */
module SnappySource {
  import opened Basics
  import opened SnappyFormat

  /** A Source.  How much a Peek shows is up to the implementation (a flat array shows
      everything, a far-memory array one 32 KB block), so it is left open here and may
      differ from call to call; it is nonempty unless the source is exhausted. */
  class Source {
    const data: seq<Byte>
    var pos: nat

    ghost predicate Valid()
      reads this
    {
      pos <= |data|
    }

    constructor (data: seq<Byte>)
      ensures Valid() && this.data == data && pos == 0
    {
      this.data, pos := data, 0;
    }

    function Available(): nat
      requires Valid()
      reads this
    {
      |data| - pos
    }

    /** The bytes not yet skipped. */
    ghost function Rest(): seq<Byte>
      requires Valid()
      reads this
    {
      data[pos..]
    }

    method Peek() returns (region: seq<Byte>)
      requires Valid()
      ensures |region| <= Available() && region == Rest()[..|region|] && (region == [] <==> Available() == 0)
    {
      if Available() == 0 {
        return [];
      }
      var n :| 0 < n <= Available();
      region := data[pos..pos + n];
    }

    method Skip(n: nat)
      requires Valid() && n <= Available()
      modifies this
      ensures Valid() && pos == old(pos) + n && Rest() == old(Rest())[n..]
    {
      pos := pos + n;
    }

    method Reset()
      modifies this
      ensures Valid() && pos == 0
    {
      pos := 0;
    }
  }
}

module SnappyCompress {
  import opened Basics
  import opened SnappyFormat
  import opened SnappyBits
  import opened SnappyEmit
  import opened SnappyChoice
  import opened SnappyFragment
  import opened SnappySource

  function MaxCompressedLength(n: nat): nat {
    32 + n + n / 6
  }

  /** CalculateTableSize: the power of two at or above the fragment size, within
      the two limits. */
  function CalculateTableSize(inputSize: nat): (size: nat)
    ensures exists log :: log <= 32 && size == Pow2(log)
    ensures MIN_TABLE_SIZE <= size <= MAX_TABLE_SIZE
    ensures inputSize <= MAX_TABLE_SIZE ==> inputSize <= size
  {
    TableLimits();
    if inputSize > MAX_TABLE_SIZE then MAX_TABLE_SIZE
    else if inputSize < MIN_TABLE_SIZE then MIN_TABLE_SIZE
    else
      var log := 1 + Log2(inputSize - 1);
      assert log <= 32 && inputSize <= Pow2(log) && MIN_TABLE_SIZE <= Pow2(log) <= MAX_TABLE_SIZE by {
        Log2Bounds(inputSize - 1);
        if log >= 15 { Pow2Mono(14, log - 1); }
        if log <= 14 { Pow2Mono(log, 14); }
        if log <= 7 { Pow2Mono(log, 7); }
        Pow2Mono(8, if log <= 7 then 8 else log);
      }
      Pow2(log)
  }

  lemma TableLimits()
    ensures Pow2(7) == 0x80 && Pow2(8) == MIN_TABLE_SIZE && Pow2(14) == MAX_TABLE_SIZE
  {
    Pow2Values();
    Pow2Sum(4, 2);
    Pow2Sum(6, 1);
    Pow2Sum(8, 4);
    Pow2Sum(12, 2);
  }

  /** The next block of the input: in place when one Peek shows all of it, otherwise
      gathered piece by piece into the scratch buffer. */
  method NextBlock(reader: Source, numToRead: nat) returns (fragment: seq<Byte>, pendingAdvance: nat)
    requires reader.Valid() && 0 < numToRead <= reader.Available()
    modifies reader
    ensures reader.Valid() && reader.pos + pendingAdvance == old(reader.pos) + numToRead <= |reader.data|
    ensures reader.Rest()[pendingAdvance..] == old(reader.Rest())[numToRead..]
    ensures fragment == old(reader.Rest())[..numToRead]
  {
    var region := reader.Peek();
    if |region| >= numToRead {
      fragment := region[..numToRead];
      pendingAdvance := numToRead;
    } else {
      var scratch := region;
      reader.Skip(|region|);
      while |scratch| < numToRead
        invariant reader.Valid() && |scratch| <= numToRead
        invariant reader.pos == old(reader.pos) + |scratch|
        invariant scratch == reader.data[old(reader.pos)..reader.pos]
      {
        region := reader.Peek();
        var n := if |region| < numToRead - |scratch| then |region| else numToRead - |scratch|;
        Gather(reader.data, old(reader.pos), reader.pos, region, n);
        scratch := scratch + region[..n];
        reader.Skip(n);
      }
      fragment := scratch;
      pendingAdvance := 0;
    }
  }

  lemma Gather(data: seq<Byte>, from: nat, pos: nat, region: seq<Byte>, n: nat)
    requires from <= pos <= |data| && n <= |region| && region <= data[pos..]
    ensures data[from..pos] + region[..n] == data[from..pos + n]
  {
    assert region[..n] == data[pos..][..n] == data[pos..pos + n];
  }

  /** The output buffer: header, encoded elements, and one fragment's elements more. */
  lemma NextFragmentInBuffer(was: seq<Byte>, now: seq<Byte>, h: nat, op0: nat, op: nat,
                             es: seq<Element>, more: seq<Element>)
    requires h <= op0 <= op <= |now| == |was| && was[..op0] == now[..op0]
    requires AllWritable(es) && AllWritable(more)
    requires was[h..op0] == EncodeAll(es) && now[op0..op] == EncodeAll(more)
    ensures now[..h] == was[..h] && AllWritable(es + more) && now[h..op] == EncodeAll(es + more)
  {
    hide EncodeAll;
    EncodeAllConcat(es, more);
    assert was[h..op0] == was[..op0][h..] && now[h..op0] == now[..op0][h..];
    assert was[..h] == was[..op0][..h] && now[..h] == now[..op0][..h];
  }

  /** The elements for the input from byte k on, block by block. */
  ghost function BlocksFrom(input: seq<Byte>, k: nat): seq<Element>
    decreases |input| - k
  {
    if k >= |input| then []
    else
      var n := if |input| - k < BLOCK_SIZE then |input| - k else BLOCK_SIZE;
      FragmentElements(input[k..k + n], CalculateTableSize(n)) + BlocksFrom(input, k + n)
  }

  /** es consists of the greedy choices for the blocks of the input from byte k on. */
  ghost predicate GreedyBlocks(es: seq<Element>, input: seq<Byte>, k: nat)
    decreases |input| - k
  {
    if k >= |input| then es == []
    else
      var n := if |input| - k < BLOCK_SIZE then |input| - k else BLOCK_SIZE;
      exists m: nat :: m <= |es| && GreedyBlock(es[..m], input[k..k + n]) && GreedyBlocks(es[m..], input, k + n)
  }

  ghost predicate GreedyBlock(es: seq<Element>, block: seq<Byte>) {
    exists log: nat :: log <= 32 && Pow2(log) == CalculateTableSize(|block|) && Greedy(es, block, 32 - log, [], 0)
  }

  lemma BlockIsGreedy(block: seq<Byte>)
    requires |block| <= BLOCK_SIZE
    ensures GreedyBlock(FragmentElements(block, CalculateTableSize(|block|)), block)
  {
    hide Greedy, FragmentElements, Pow2;
    var size := CalculateTableSize(|block|);
    var log: nat :| log <= 32 && size == Pow2(log);
    hide CalculateTableSize;
    FragmentIsGreedy(block, log);
  }

  lemma {:induction false} BlocksAreGreedy(input: seq<Byte>, k: nat)
    ensures GreedyBlocks(BlocksFrom(input, k), input, k)
    decreases |input| - k
  {
    hide GreedyBlock, FragmentElements, CalculateTableSize;
    if k < |input| {
      var n := if |input| - k < BLOCK_SIZE then |input| - k else BLOCK_SIZE;
      var block := input[k..k + n];
      var first := FragmentElements(block, CalculateTableSize(n));
      BlockIsGreedy(block);
      BlocksAreGreedy(input, k + n);
      var es := BlocksFrom(input, k);
      assert es[..|first|] == first && es[|first|..] == BlocksFrom(input, k + n);
    }
  }

  // Equal bytes

  /** What a block of equal bytes takes. */
  lemma EqualBlock(es: seq<Element>, block: seq<Byte>)
    requires GreedyBlock(es, block) && 0 < |block| <= BLOCK_SIZE && AllEqual(block)
    ensures AllWritable(es) && |EncodeAll(es)| <= 17 + 3 * (|block| / 64)
  {
    hide Greedy, Pow2, EncodeAll, CalculateTableSize;
    var log: nat :| log <= 32 && Pow2(log) == CalculateTableSize(|block|) && Greedy(es, block, 32 - log, [], 0);
    if |block| >= 17 {
      EqualBytes(es, block, 32 - log);
      hide Pieces;
      EqualBytesSize(es, block, 32 - log);
    } else {
      ShortBlock(es, block, 32 - log);
      EncodeOne(Literal(block));
    }
  }

  /** Blocks below seventeen bytes are left as they are. */
  lemma ShortBlock(es: seq<Element>, block: seq<Byte>, shift: nat)
    requires Greedy(es, block, shift, [], 0) && 0 < |block| < 17
    ensures es == [Literal(block)]
  {
    hide Copying, Misses;
    forall j: nat ensures !Examined(block, 0, j) {
      if j > 0 {
        ProbeRises(0, 1, j + 1);
      }
      assert Probe(0, 1) == 2;
    }
    assert forall j: nat :: !GreedyAt(es, block, shift, [], 0, j);
    assert block[0..] == block;
  }

  function NumBlocks(n: nat): nat {
    (n + BLOCK_SIZE - 1) / BLOCK_SIZE
  }

  /** Equal bytes take three bytes for each sixty-four, and little more. */
  lemma {:induction false} EqualBlocks(es: seq<Element>, input: seq<Byte>, k: nat)
    requires k <= |input| && AllEqual(input) && GreedyBlocks(es, input, k)
    ensures AllWritable(es) && |EncodeAll(es)| <= 17 * NumBlocks(|input| - k) + 3 * ((|input| - k) / 64)
    decreases |input| - k
  {
    hide GreedyBlock, EncodeAll;
    if k < |input| {
      var left := |input| - k;
      var n := if left < BLOCK_SIZE then left else BLOCK_SIZE;
      var m: nat :| m <= |es| && GreedyBlock(es[..m], input[k..k + n]) && GreedyBlocks(es[m..], input, k + n);
      assert AllEqual(input[k..k + n]);
      EqualBlock(es[..m], input[k..k + n]);
      EqualBlocks(es[m..], input, k + n);
      EncodeAllConcat(es[..m], es[m..]);
      assert es == es[..m] + es[m..];
      OneBlockMore(left, n);
    } else {
      NoBytes();
    }
  }

  lemma VarintShort(v: Uint32)
    ensures |Varint(v)| <= 5
  {
    VarintDigits(v);
  }

  lemma NoBytes()
    ensures AllWritable([]) && EncodeAll([]) == []
  {}

  lemma OneBlockMore(left: nat, n: nat)
    requires left > 0 && n == if left < BLOCK_SIZE then left else BLOCK_SIZE
    ensures NumBlocks(left) == 1 + NumBlocks(left - n) && left / 64 >= n / 64 + (left - n) / 64
  {}

  lemma NextBlockOf(input: seq<Byte>, k: nat, n: nat, done: seq<Element>)
    requires k < |input| && n == if |input| - k < BLOCK_SIZE then |input| - k else BLOCK_SIZE
    ensures k + n <= |input|
    ensures Then(done, BlocksFrom(input, k)) ==
            Then(done + FragmentElements(input[k..k + n], CalculateTableSize(n)), BlocksFrom(input, k + n))
  {
    hide FragmentElements, CalculateTableSize;
  }

  /** The whole compressed form is a function of the input. */
  ghost predicate IsCompressed(bytes: seq<Byte>, input: seq<Byte>) {
    var es := BlocksFrom(input, 0);
    AllWritable(es) && bytes == Varint(|input| % 0x1_0000_0000) + EncodeAll(es)
  }

  /** Compress over any source.  The output buffer is the one Compress(string) grows
      to MaxCompressedLength: everything written, over-wide stores included, stays in
      it.  The output decodes to the input exactly when the length fits the 32-bit
      header. */
  method Compress(reader: Source) returns (dst: array<Byte>, written: nat)
    requires reader.Valid()
    modifies reader
    ensures reader.Valid() && reader.Available() == 0
    ensures fresh(dst) && dst.Length == MaxCompressedLength(|old(reader.Rest())|)
    ensures written <= dst.Length
    ensures DecodeStream(dst[..written]) ==
            if |old(reader.Rest())| < 0x1_0000_0000 then Some(old(reader.Rest())) else None
    ensures IsCompressed(dst[..written], old(reader.Rest()))
    ensures exists es :: AllWritable(es) && GreedyBlocks(es, old(reader.Rest()), 0) &&
                         dst[..written] == Varint(|old(reader.Rest())| % 0x1_0000_0000) + EncodeAll(es)
    ensures var n := |old(reader.Rest())|;
            AllEqual(old(reader.Rest())) ==> written <= 5 + 17 * NumBlocks(n) + 3 * (n / 64)
  {
    hide Run, EncodeAll, Varint, BlocksFrom, Decode, GreedyBlocks, AllEqual, NumBlocks;
    ghost var length, es;
    dst, written, length, es := CompressParts(reader);
    DecodeAllOf(es, old(reader.Rest()));
    StreamWithLength(dst[..written], length, EncodeAll(es), old(reader.Rest()));
    BlocksAreGreedy(old(reader.Rest()), 0);
    if AllEqual(old(reader.Rest())) {
      EqualBlocks(es, old(reader.Rest()), 0);
    }
    VarintShort(length);
    assert |dst[..written]| == |Varint(length)| + |EncodeAll(es)|;
  }

  /** The header, then the blocks. */
  method CompressParts(reader: Source)
    returns (dst: array<Byte>, written: nat, ghost length: Uint32, ghost es: seq<Element>)
    requires reader.Valid()
    modifies reader
    ensures reader.Valid() && reader.Available() == 0
    ensures fresh(dst) && dst.Length == MaxCompressedLength(|old(reader.Rest())|) && written <= dst.Length
    ensures length == |old(reader.Rest())| % 0x1_0000_0000 && es == BlocksFrom(old(reader.Rest()), 0)
    ensures length == |old(reader.Rest())| <==> |old(reader.Rest())| < 0x1_0000_0000
    ensures AllWritable(es) && Run(es, []) == Some(old(reader.Rest()))
    ensures dst[..written] == Varint(length) + EncodeAll(es)
  {
    hide Run, EncodeAll, Varint, BlocksFrom;
    var n := reader.Available();
    var h;
    dst, h, length := StartOutput(n);
    written, es := CompressBlocks(reader, dst, h);
    Join(dst, h, written, Varint(length), EncodeAll(es));
    assert old(reader.Rest())[..n] == old(reader.Rest());
  }

  lemma Join(dst: array<Byte>, h: nat, written: nat, header: seq<Byte>, body: seq<Byte>)
    requires h <= written <= dst.Length && dst[..h] == header && dst[h..written] == body
    ensures dst[..written] == header + body
  {}

  /** The output buffer with the length header in it.  The header holds 32 bits of n. */
  method StartOutput(n: nat) returns (dst: array<Byte>, h: nat, ghost length: Uint32)
    ensures fresh(dst) && dst.Length == MaxCompressedLength(n) && h <= 5
    ensures length == n % 0x1_0000_0000 && dst[..h] == Varint(length) && (length == n <==> n < 0x1_0000_0000)
  {
    dst := new Byte[MaxCompressedLength(n)](_ => 0);
    var truncated: Uint32 := n % 0x1_0000_0000;
    length := truncated;
    var ulength := Encode32(truncated);
    h := |ulength|;
    Write(dst, 0, ulength);
    assert dst[..h] == dst[0..h];
  }

  /** dst[h..op] holds the bytes of es. */
  ghost predicate Encoded(dst: array<Byte>, h: nat, op: nat, es: seq<Element>)
    reads dst
  {
    h <= op <= dst.Length && AllWritable(es) && dst[h..op] == EncodeAll(es)
  }

  /** The elements es produce the first done bytes of the input. */
  ghost predicate Produces(es: seq<Element>, input: seq<Byte>, done: nat) {
    done <= |input| && Run(es, []) == Some(input[..done])
  }

  /** The loop of Compress over blocks, behind a header of h bytes. */
  method CompressBlocks(reader: Source, dst: array<Byte>, h: nat) returns (op: nat, ghost es: seq<Element>)
    requires reader.Valid() && h <= 5 <= dst.Length == MaxCompressedLength(reader.Available())
    modifies reader, dst
    ensures reader.Valid() && reader.Available() == 0
    ensures Encoded(dst, h, op, es) && Produces(es, old(reader.Rest()), |old(reader.Rest())|)
    ensures dst[..h] == old(dst[..h]) && es == BlocksFrom(old(reader.Rest()), 0)
  {
    hide Encoded, Produces, MaxCompressedLength, BlocksFrom, Then, FragmentElements, CalculateTableSize;
    ghost var input := reader.Rest();
    var n := reader.Available();
    op, es := h, [];
    ghost var done: nat := 0;
    NothingYet(dst, h, input);
    NothingThen(BlocksFrom(input, 0));
    while n > 0
      invariant done <= |input| && Then(es, BlocksFrom(input, done)) == BlocksFrom(input, 0)
      invariant reader.Valid() && n == reader.Available() && done + n == |input| && reader.Rest() == input[done..]
      invariant Encoded(dst, h, op, es) && Produces(es, input, done)
      invariant dst[..h] == old(dst[..h])
      invariant h <= op && (n > 0 ==> 6 * (op - h) <= 7 * done)
    {
      var numToRead := if n < BLOCK_SIZE then n else BLOCK_SIZE;
      BlockFits(|input|, done, numToRead, op - h, dst.Length - h);
      NextBlockOf(input, done, numToRead, es);
      op, es := CompressNext(reader, numToRead, dst, op, h, input, done, es);
      n := n - numToRead;
      done := done + numToRead;
    }
    NoMoreBlocks(es, input);
  }

  lemma NoMoreBlocks(es: seq<Element>, input: seq<Byte>)
    ensures Then(es, BlocksFrom(input, |input|)) == es
  {
    assert es + [] == es;
  }

  lemma NothingYet(dst: array<Byte>, h: nat, input: seq<Byte>)
    requires h <= dst.Length
    ensures Encoded(dst, h, h, []) && Produces([], input, 0)
  {
    assert input[..0] == [];
  }

  lemma BlockFits(n: nat, done: nat, next: nat, used: nat, room: nat)
    requires done + next <= n && 6 * used <= 7 * done && room + 5 >= MaxCompressedLength(n)
    ensures 6 * (room - used) >= 7 * next + 5
  {}

  lemma DecodeAllOf(es: seq<Element>, input: seq<Byte>)
    requires AllWritable(es) && Run(es, []) == Some(input)
    ensures Decode(EncodeAll(es), []) == Some(input)
  {
    DecodeOfEncode(es, [], []);
    assert EncodeAll(es) + [] == EncodeAll(es);
  }

  lemma StreamWithLength(s: seq<Byte>, length: Uint32, body: seq<Byte>, input: seq<Byte>)
    requires s == Varint(length) + body && Decode(body, []) == Some(input)
    ensures DecodeStream(s) == if |input| == length then Some(input) else None
  {
    VarintThenRest(length, body);
    assert s[|Varint(length)|..] == body;
  }

  /** One round of that loop, seen from the front of the output. */
  method CompressNext(reader: Source, numToRead: nat, dst: array<Byte>, op0: nat, ghost h: nat,
                      ghost input: seq<Byte>, ghost done: nat, ghost es0: seq<Element>)
    returns (op: nat, ghost es: seq<Element>)
    requires reader.Valid() && 0 < numToRead <= BLOCK_SIZE && done + numToRead <= |input|
    requires reader.Rest() == input[done..]
    requires Encoded(dst, h, op0, es0) && Produces(es0, input, done)
    requires 6 * (dst.Length - op0) >= 7 * numToRead + 5
    modifies reader, dst
    ensures reader.Valid() && reader.Rest() == input[done + numToRead..]
    ensures op0 <= op && dst[..h] == old(dst[..h])
    ensures Encoded(dst, h, op, es) && Produces(es, input, done + numToRead)
    ensures es == es0 + FragmentElements(input[done..done + numToRead], CalculateTableSize(numToRead))
    ensures numToRead >= 18 ==> 6 * (op - op0) <= 7 * numToRead
  {
    hide Run, EncodeAll, FragmentElements, CalculateTableSize;
    ghost var was := dst[..];
    ghost var more;
    op, more := CompressBlock(reader, numToRead, dst, op0, input, done);
    ghost var now := dst[..];
    assert was[h..op0] == old(dst[h..op0]) && now[op0..op] == dst[op0..op];
    NextFragmentInBuffer(was, now, h, op0, op, es0, more);
    RunConcat(es0, more, []);
    es := es0 + more;
  }

  /** One fragment of the input, fetched and compressed. */
  method CompressBlock(reader: Source, numToRead: nat, dst: array<Byte>, op0: nat,
                       ghost input: seq<Byte>, ghost done: nat)
    returns (op: nat, ghost more: seq<Element>)
    requires reader.Valid() && 0 < numToRead <= BLOCK_SIZE && done + numToRead <= |input|
    requires reader.Rest() == input[done..]
    requires op0 <= dst.Length && 6 * (dst.Length - op0) >= 7 * numToRead + 5
    modifies reader, dst
    ensures reader.Valid() && reader.Rest() == input[done + numToRead..]
    ensures op0 <= op <= dst.Length && Kept(dst, op0) && AllWritable(more) && dst[op0..op] == EncodeAll(more)
    ensures Run(more, input[..done]) == Some(input[..done + numToRead])
    ensures more == FragmentElements(input[done..done + numToRead], CalculateTableSize(numToRead))
    ensures numToRead >= 18 ==> 6 * (op - op0) <= 7 * numToRead
  {
    hide Run, EncodeAll, FragmentElements;
    SliceSteps(input, done, numToRead);
    var fragment, pendingAdvance := NextBlock(reader, numToRead);
    var table := new Slot[CalculateTableSize(numToRead)](_ => 0);
    op, more := CompressFragment(fragment, dst, op0, table, input[..done]);
    reader.Skip(pendingAdvance);
  }

  lemma SliceSteps(s: seq<Byte>, k: nat, n: nat)
    requires k + n <= |s|
    ensures s[..k] + s[k..][..n] == s[..k + n] && s[k..][n..] == s[k + n..] && s[k..][..n] == s[k..k + n]
  {}
}
