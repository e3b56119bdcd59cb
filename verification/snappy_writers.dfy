/**
 The output sides of the decompressor (snappy.cc): a flat array, a list of blocks
 allocated on demand, and a validator that keeps only counts.  Each is proved
 against the same view: the bytes produced so far and the expected length.
 */
module SnappyWriters {
  import opened Basics
  import opened SnappyFormat
  import opened SnappyCopy

  const MAX_TAG: nat := 5

  /** Copies inside a suffix do not look at what is in front of it. */
  lemma {:induction false} CopyFromSuffix(p: seq<Byte>, q: seq<Byte>, offset: nat, length: nat)
    requires 1 <= offset <= |q|
    ensures CopyFrom(p + q, offset, length) == p + CopyFrom(q, offset, length)
    decreases length
  {
    if length > 0 {
      var q' := q + [q[|q| - offset]];
      assert (p + q) + [(p + q)[|p + q| - offset]] == p + q';
      CopyFromSuffix(p, q', offset, length - 1);
    }
  }

  lemma CopyOneMore(out: seq<Byte>, offset: nat, k: nat)
    requires 1 <= offset <= |out|
    ensures var x := CopyFrom(out, offset, k); CopyFrom(out, offset, k + 1) == x + [x[|out| + k - offset]]
  {
    var x := CopyFrom(out, offset, k);
    CopyFromConcat(out, offset, k, 1);
    var y := x + [x[|x| - offset]];
    assert CopyFrom(y, offset, 0) == y;
  }

  /** Overwrites a[op..op + |bytes|]. */
  method Fill(a: array<Byte>, op: nat, bytes: seq<Byte>)
    requires op + |bytes| <= a.Length
    modifies a
    ensures a[..op + |bytes|] == old(a[..op]) + bytes
  {
    forall i | 0 <= i < |bytes| {
      a[op + i] := bytes[i];
    }
  }

  /** The call IncrementalCopy(op - offset, op, op + len, limit). */
  method CopyBack(a: array<Byte>, op: nat, offset: nat, len: nat, limit: nat, ssse3: bool)
    requires 1 <= offset <= op && op + len <= limit <= a.Length && len <= 64
    modifies a
    ensures a[..op + len] == CopyFrom(old(a[..op]), offset, len)
  {
    IncrementalCopy(a, op - offset, op, op + len, limit, ssse3);
  }

  /** SnappyArrayWriter. */
  class ArrayWriter {
    const base: array<Byte>
    const ssse3: bool
    var op: nat
    var limit: nat

    ghost predicate Valid()
      reads this
    {
      op <= limit <= base.Length
    }

    ghost function Contents(): seq<Byte>
      requires Valid()
      reads this, base
    {
      base[..op]
    }

    constructor (dst: array<Byte>, ssse3: bool)
      ensures Valid() && base == dst && op == 0 && limit == 0
    {
      base, this.ssse3, op, limit := dst, ssse3, 0, 0;
    }

    method SetExpectedLength(len: nat)
      requires Valid() && op + len <= base.Length
      modifies this
      ensures Valid() && op == old(op) && limit == op + len
    {
      limit := op + len;
    }

    method Append(ip: seq<Byte>) returns (ok: bool)
      requires Valid()
      modifies this, base
      ensures Valid() && limit == old(limit) && ok == (old(op) + |ip| <= limit)
      ensures ok ==> Contents() == old(Contents()) + ip
    {
      var spaceLeft := limit - op;
      if spaceLeft < |ip| {
        return false;
      }
      Fill(base, op, ip);
      op := op + |ip|;
      return true;
    }

    /** Copies sixteen bytes when both sides have room for them. */
    method TryFastAppend(ip: seq<Byte>, len: nat) returns (ok: bool)
      requires Valid()
      modifies this, base
      ensures Valid() && limit == old(limit)
      ensures ok ==> len <= 16 && 16 + MAX_TAG <= |ip| && Contents() == old(Contents()) + ip[..len]
      ensures !ok ==> Contents() == old(Contents())
    {
      var spaceLeft := limit - op;
      if len <= 16 && |ip| >= 16 + MAX_TAG && spaceLeft >= 16 {
        Fill(base, op, ip[..16]);
        assert base[..op + len] == base[..op + 16][..op + len];
        op := op + len;
        return true;
      }
      return false;
    }

    method AppendFromSelf(offset: nat, len: nat) returns (ok: bool)
      requires Valid() && len <= 64
      modifies this, base
      ensures Valid() && limit == old(limit)
      ensures ok == (1 <= offset <= old(op) && old(op) + len <= limit)
      ensures ok ==> Contents() == CopyFrom(old(Contents()), offset, len)
    {
      var opEnd := op + len;
      if offset == 0 || op <= offset - 1 || opEnd > limit {
        return false;
      }
      CopyBack(base, op, offset, len, limit, ssse3);
      op := opEnd;
      return true;
    }
  }

  /** SnappyDecompressionValidator: counts only.  The bytes are a ghost. */
  class Validator {
    var expected: nat
    var produced: nat
    ghost var contents: seq<Byte>

    ghost predicate Valid()
      reads this
    {
      |contents| == produced <= expected
    }

    constructor ()
      ensures Valid() && contents == []
    {
      expected, produced, contents := 0, 0, [];
    }

    method SetExpectedLength(len: nat)
      requires Valid() && produced == 0
      modifies this
      ensures Valid() && contents == [] && expected == len
    {
      expected := len;
    }

    method Append(ip: seq<Byte>) returns (ok: bool)
      requires Valid()
      modifies this
      ensures expected == old(expected) && ok == (old(produced) + |ip| <= expected)
      ensures ok ==> Valid() && contents == old(contents) + ip
    {
      produced := produced + |ip|;
      contents := contents + ip;
      return produced <= expected;
    }

    method AppendFromSelf(offset: nat, len: nat) returns (ok: bool)
      requires Valid()
      modifies this
      ensures expected == old(expected)
      ensures ok == (1 <= offset <= old(produced) && old(produced) + len <= expected)
      ensures ok ==> Valid() && contents == CopyFrom(old(contents), offset, len)
    {
      if offset == 0 || produced <= offset - 1 {
        return false;
      }
      produced := produced + len;
      contents := CopyFrom(contents, offset, len);
      return produced <= expected;
    }
  }

  /** SnappyScatteredWriter: full blocks of BLOCK_SIZE and one being filled. */
  class ScatteredWriter {
    const ssse3: bool
    var blocks: seq<array<Byte>>
    var base: array<Byte>      // op_base_: the current block, or an empty one at the start
    var expected: nat
    var fullSize: nat
    var op: nat
    var limit: nat
    ghost var full: seq<Byte>  // the bytes of all blocks but the current one
    ghost var Repr: set<object>

    ghost predicate Valid()
      reads this, blocks
    {
      && this in Repr && base in Repr && (forall i :: 0 <= i < |blocks| ==> blocks[i] in Repr)
      && (forall i, j :: 0 <= i < j < |blocks| ==> blocks[i] != blocks[j])
      && (forall i :: 0 <= i < |blocks| - 1 ==> blocks[i].Length == BLOCK_SIZE)
      && (if blocks == [] then fullSize == limit == 0
          else base == blocks[|blocks| - 1] && fullSize == BLOCK_SIZE * (|blocks| - 1))
      && op <= limit == base.Length <= BLOCK_SIZE && fullSize + limit <= expected
      && (blocks != [] && limit < BLOCK_SIZE ==> fullSize + limit == expected)
      && |full| == fullSize
      && forall i, j :: 0 <= i < |blocks| - 1 && 0 <= j < BLOCK_SIZE ==> blocks[i][j] == full[BLOCK_SIZE * i + j]
    }

    ghost function Contents(): (r: seq<Byte>)
      requires Valid()
      reads this, base, blocks
      ensures |r| == fullSize + op
    {
      full + base[..op]
    }

    constructor (ssse3: bool)
      ensures Valid() && blocks == [] && Contents() == [] && fresh(Repr)
    {
      this.ssse3, blocks, expected, fullSize, op, limit := ssse3, [], 0, 0, 0, 0;
      var none := new Byte[0];
      base := none;
      full, Repr := [], {this, none};
    }

    method SetExpectedLength(len: nat)
      requires Valid() && blocks == []
      modifies `expected
      ensures Valid() && Contents() == [] && expected == len && Repr == old(Repr)
    {
      expected := len;
    }

    /** Bytes that fit the current block. */
    method FillBlock(ip: seq<Byte>)
      requires Valid() && op + |ip| <= limit
      modifies Repr
      ensures Valid() && Repr == old(Repr) && expected == old(expected) && limit == old(limit)
      ensures fullSize == old(fullSize) && op == old(op) + |ip|
      ensures Contents() == old(Contents()) + ip
    {
      Fill(base, op, ip);
      op := op + |ip|;
    }

    /** The current block is full and more is to come. */
    method NewBlock(bsize: nat)
      requires Valid() && op == limit && 0 < bsize <= BLOCK_SIZE && fullSize + limit + bsize <= expected
      requires bsize < BLOCK_SIZE ==> fullSize + limit + bsize == expected
      modifies this
      ensures Valid() && fresh(Repr - old(Repr)) && old(Repr) <= Repr && expected == old(expected)
      ensures Contents() == old(Contents()) && op == 0 && limit == bsize && fullSize == old(fullSize) + old(limit)
    {
      var block := new Byte[bsize](_ => 0);
      full := Contents();
      fullSize := fullSize + op;
      blocks, base := blocks + [block], block;
      Repr := Repr + {block};
      op, limit := 0, bsize;
    }

    /** Append: the current block if it suffices, otherwise SlowAppend. */
    method Append(ip0: seq<Byte>) returns (ok: bool)
      requires Valid()
      modifies Repr
      ensures expected == old(expected) && ok == (|old(Contents())| + |ip0| <= expected)
      ensures fresh(Repr - old(Repr)) && old(Repr) <= Repr
      ensures ok ==> Valid() && Contents() == old(Contents()) + ip0
    {
      if |ip0| <= limit - op {
        FillBlock(ip0);
        return true;
      }
      ok := SlowAppend(ip0);
    }

    method SlowAppend(ip0: seq<Byte>) returns (ok: bool)
      requires Valid()
      modifies Repr
      ensures expected == old(expected) && ok == (|old(Contents())| + |ip0| <= expected)
      ensures fresh(Repr - old(Repr)) && old(Repr) <= Repr
      ensures ok ==> Valid() && Contents() == old(Contents()) + ip0
    {
      var ip := ip0;
      ghost var all := Contents() + ip0;
      while |ip| > limit - op
        invariant Valid() && expected == old(expected)
        invariant fresh(Repr - old(Repr)) && old(Repr) <= Repr
        invariant Contents() + ip == all
        decreases |ip|, limit == op
      {
        var avail := limit - op;
        ghost var before := Contents();
        FillBlock(ip[..avail]);
        assert before + ip == before + ip[..avail] + ip[avail..];
        ip := ip[avail..];
        if fullSize + limit + |ip| > expected {
          assert |Contents() + ip| == |all|;
          return false;
        }
        var rest := expected - (fullSize + limit);
        NewBlock(if BLOCK_SIZE < rest then BLOCK_SIZE else rest);
      }
      FillBlock(ip);
      return true;
    }

    method TryFastAppend(ip: seq<Byte>, len: nat) returns (ok: bool)
      requires Valid()
      modifies Repr
      ensures Valid() && Repr == old(Repr) && expected == old(expected)
      ensures ok ==> len <= 16 && 16 + MAX_TAG <= |ip| && Contents() == old(Contents()) + ip[..len]
      ensures !ok ==> Contents() == old(Contents())
    {
      var spaceLeft := limit - op;
      if len <= 16 && |ip| >= 16 + MAX_TAG && spaceLeft >= 16 {
        Fill(base, op, ip[..16]);
        assert base[..op + len] == base[..op + 16][..op + len];
        op := op + len;
        return true;
      }
      return false;
    }

    method AppendFromSelf(offset: nat, len: nat) returns (ok: bool)
      requires Valid() && len <= 64
      modifies Repr
      ensures expected == old(expected) && fresh(Repr - old(Repr)) && old(Repr) <= Repr
      ensures ok == (1 <= offset <= |old(Contents())| && |old(Contents())| + len <= expected)
      ensures ok ==> Valid() && Contents() == CopyFrom(old(Contents()), offset, len)
    {
      var opEnd := op + len;
      if offset != 0 && offset - 1 < op && opEnd <= limit {
        CopyInBlock(offset, len);
        return true;
      }
      ok := SlowAppendFromSelf(offset, len);
    }

    method CopyInBlock(offset: nat, len: nat)
      requires Valid() && len <= 64 && 1 <= offset <= op && op + len <= limit
      modifies Repr
      ensures Valid() && Repr == old(Repr) && expected == old(expected)
      ensures Contents() == CopyFrom(old(Contents()), offset, len)
    {
      ghost var tail := base[..op];
      CopyBack(base, op, offset, len, limit, ssse3);
      op := op + len;
      CopyFromSuffix(full, tail, offset, len);
    }

    /** A byte at a time, from any block. */
    method SlowAppendFromSelf(offset: nat, len0: nat) returns (ok: bool)
      requires Valid()
      modifies Repr
      ensures expected == old(expected) && fresh(Repr - old(Repr)) && old(Repr) <= Repr
      ensures ok == (1 <= offset <= |old(Contents())| && |old(Contents())| + len0 <= expected)
      ensures ok ==> Valid() && Contents() == CopyFrom(old(Contents()), offset, len0)
    {
      var cur := fullSize + op;
      if offset == 0 || offset - 1 >= cur {
        return false;
      }
      if expected - cur < len0 {
        return false;
      }
      CopyBytewise(offset, len0);
      return true;
    }

    method CopyBytewise(offset: nat, len0: nat)
      requires Valid() && 1 <= offset <= fullSize + op && fullSize + op + len0 <= expected
      modifies Repr
      ensures expected == old(expected) && fresh(Repr - old(Repr)) && old(Repr) <= Repr
      ensures Valid() && Contents() == CopyFrom(old(Contents()), offset, len0)
    {
      var src, len := fullSize + op - offset, len0;
      ghost var start, done := Contents(), 0;
      ghost var x := start;
      hide CopyFrom;
      while len > 0
        invariant done + len == len0 && src == |start| - offset + done && |x| == |start| + done
        invariant Valid() && expected == old(expected) && |start| + len0 <= expected
        invariant fresh(Repr - old(Repr)) && old(Repr) <= Repr
        invariant Contents() == x
        invariant 1 <= offset <= |start| && x == CopyFrom(start, offset, done)
      {
        var c := ByteAt(src);
        var appended := Append([c]);
        CopyOneMore(start, offset, done);
        x := x + [c];
        len := len - 1;
        src := src + 1;
        done := done + 1;
      }
    }

    /** blocks_[src >> kBlockLog][src & (kBlockSize - 1)]. */
    method ByteAt(src: nat) returns (c: Byte)
      requires Valid() && src < fullSize + op
      ensures c == Contents()[src]
    {
      var i, j := src / BLOCK_SIZE, src % BLOCK_SIZE;
      assert src == BLOCK_SIZE * i + j;
      c := blocks[i][j];
    }
  }
}
