/**
 The writer over a list of caller-supplied buffers (snappy.cc, SnappyIOVecWriter).
 */
module SnappyIOVec {
  import opened Basics
  import opened SnappyFormat
  import opened SnappyWriters

  /** A copy that does not reach its own output is a plain append. */
  lemma {:induction false} CopyBlock(out: seq<Byte>, offset: nat, k: nat)
    requires 1 <= offset <= |out| && k <= offset
    ensures CopyFrom(out, offset, k) == out + out[|out| - offset..|out| - offset + k]
  {
    if k > 0 {
      var j := |out| - offset;
      CopyBlock(out, offset, k - 1);
      CopyOneMore(out, offset, k - 1);
      assert out[j..j + k] == out[j..j + k - 1] + [out[j + k - 1]];
    }
  }

  /** The first i buffers together. */
  function Start(iov: seq<array<Byte>>, i: nat): nat
    requires i <= |iov|
  {
    if i == 0 then 0 else Start(iov, i - 1) + iov[i - 1].Length
  }

  lemma {:induction false} StartMono(iov: seq<array<Byte>>, i: nat, j: nat)
    requires i < j <= |iov|
    ensures Start(iov, i) + iov[i].Length <= Start(iov, j)
    decreases j
  {
    if i < j - 1 {
      StartMono(iov, i, j - 1);
    }
  }

  lemma StartNext(iov: seq<array<Byte>>, i: nat)
    requires i < |iov|
    ensures Start(iov, i + 1) == Start(iov, i) + iov[i].Length
  {}

  lemma SliceOfConcat(a: seq<Byte>, b: seq<Byte>, i: nat, j: nat)
    requires i <= j <= |a|
    ensures (a + b)[i..j] == a[i..j]
  {}

  lemma TakeOfConcat(s: seq<Byte>, x: seq<Byte>, y: seq<Byte>, n: nat, front: seq<Byte>)
    requires s == x + y && n <= |y|
    ensures s[..|x| + n] == x + y[..n] && front + s[..|x| + n] == front + x + y[..n]
  {}

  lemma SplitAt(front: seq<Byte>, s: seq<Byte>, n: nat)
    requires n <= |s|
    ensures front + s == front + s[..n] + s[n..] && s[..n][..n] == s[..n]
  {}

  lemma CopyNothing(out: seq<Byte>, offset: nat)
    requires 1 <= offset <= |out|
    ensures CopyFrom(out, offset, 0) == out
  {}

  lemma PieceOf(out: seq<Byte>, full: seq<Byte>, buffer: seq<Byte>, start: nat, i: nat, n: nat)
    requires full <= out && i + n <= |buffer| && start + |buffer| <= |full| && full[start..start + |buffer|] == buffer
    ensures out[start + i..start + i + n] == buffer[i..i + n]
  {
    var p, q := out[start + i..start + i + n], buffer[i..i + n];
    forall k | 0 <= k < n ensures p[k] == q[k] {
      assert buffer[i + k] == full[start..start + |buffer|][i + k] == full[start + i + k];
    }
  }

  class IOVecWriter {
    const iov: seq<array<Byte>>
    const ssse3: bool
    var curr: nat        // curr_iov_
    var at: nat          // curr_iov_output_, as an offset into iov[curr]
    var remaining: nat
    var total: nat
    var limit: nat
    ghost var full: seq<Byte>  // the bytes in the buffers before the current one

    /** Buffer i holds its part of full. */
    ghost predicate Holds(i: nat)
      requires i < |iov|
      reads `full, iov[i]
    {
      Start(iov, i) + iov[i].Length <= |full| && full[Start(iov, i)..Start(iov, i) + iov[i].Length] == iov[i][..]
    }

    ghost predicate Valid()
      reads this, iov
    {
      && (forall i, j :: 0 <= i < j < |iov| ==> iov[i] != iov[j])
      && (if iov == [] then curr == at == remaining == 0 else curr < |iov| && at + remaining == iov[curr].Length)
      && |full| == Start(iov, curr) && total == |full| + at <= limit <= Start(iov, |iov|)
      && forall i :: 0 <= i < curr ==> Holds(i)
    }

    ghost function Contents(): (r: seq<Byte>)
      requires Valid()
      reads this, iov
      ensures |r| == total
    {
      if iov == [] then [] else full + iov[curr][..at]
    }

    constructor (iov: seq<array<Byte>>, ssse3: bool)
      requires forall i, j :: 0 <= i < j < |iov| ==> iov[i] != iov[j]
      ensures Valid() && this.iov == iov && total == 0
    {
      this.iov, this.ssse3, curr, at, total, limit, full := iov, ssse3, 0, 0, 0, 0, [];
      remaining := if iov == [] then 0 else iov[0].Length;
    }

    /** Callers have to supply buffers for at least the announced length (snappy.h). */
    method SetExpectedLength(len: nat)
      requires Valid() && total == 0 && len <= Start(iov, |iov|)
      modifies `limit
      ensures Valid() && Contents() == [] && limit == len
    {
      hide Start, IOVecWriter.Holds;
      limit := len;
      assert Contents() == old(Contents());
    }

    /** The current buffer is full: go to the next one. */
    method NextIov()
      requires Valid() && curr + 1 < |iov| && remaining == 0
      modifies this
      ensures Valid() && Contents() == old(Contents()) && curr == old(curr) + 1 && at == 0
      ensures limit == old(limit) && total == old(total)
    {
      ghost var before, bytes := full, iov[curr][..];
      full := full + bytes;
      curr := curr + 1;
      at, remaining := 0, iov[curr].Length;
      forall i | 0 <= i < curr ensures Holds(i) {
        if i < curr - 1 {
          assert old(Holds(i));
          SliceOfConcat(before, bytes, Start(iov, i), Start(iov, i) + iov[i].Length);
        }
      }
    }

    /** Writes bytes that fit the current buffer, of which count are kept. */
    method FillIov(bytes: seq<Byte>, count: nat)
      requires Valid() && count <= |bytes| <= remaining && total + count <= limit
      modifies this, iov
      ensures Valid() && Contents() == old(Contents()) + bytes[..count] && curr == old(curr)
      ensures limit == old(limit) && total == old(total) + count
    {
      if |bytes| == 0 {
        return;
      }
      var a := iov[curr];
      ghost var before := a[..at];
      Fill(a, at, bytes);
      TakeOfConcat(a[..at + |bytes|], before, bytes, count, full);
      assert a[..at + |bytes|][..at + count] == a[..at + count];
      at, remaining, total := at + count, remaining - count, total + count;
      StillHold();
    }

    /** Writing to the current buffer leaves the earlier ones alone. */
    twostate lemma StillHold()
      requires old(Valid()) && iov != [] && full == old(full) && curr == old(curr)
      requires forall i :: 0 <= i < |iov| && i != curr ==> unchanged(iov[i])
      ensures forall i :: 0 <= i < curr ==> Holds(i)
    {
      forall i | 0 <= i < curr ensures Holds(i) {
        assert old(Holds(i));
        assert iov[i][..] == old(iov[i][..]);
      }
    }

    /** AppendNoCheck, which moves on from buffer to buffer. */
    method AppendNoCheck(ip0: seq<Byte>) returns (ok: bool)
      requires Valid() && total + |ip0| <= limit
      modifies this, iov
      ensures ok && Valid() && Contents() == old(Contents()) + ip0
      ensures limit == old(limit) && curr >= old(curr) && (ip0 == [] ==> curr == old(curr))
    {
      var ip := ip0;
      ghost var all := Contents() + ip0;
      while |ip| > 0
        invariant Valid() && limit == old(limit) && total + |ip| <= limit && Contents() + ip == all
        invariant curr >= old(curr) && (ip0 == [] ==> curr == old(curr))
        decreases |ip|, |iov| - curr
      {
        if remaining == 0 {
          if curr + 1 >= |iov| {
            assert false;
            return false;
          }
          NextIov();
        }
        var toWrite := if |ip| < remaining then |ip| else remaining;
        SplitAt(Contents(), ip, toWrite);
        FillIov(ip[..toWrite], toWrite);
        ip := ip[toWrite..];
      }
      return true;
    }

    method Append(ip: seq<Byte>) returns (ok: bool)
      requires Valid()
      modifies this, iov
      ensures Valid() && limit == old(limit) && ok == (old(total) + |ip| <= limit)
      ensures ok ==> Contents() == old(Contents()) + ip
    {
      if total + |ip| > limit {
        return false;
      }
      ok := AppendNoCheck(ip);
    }

    method TryFastAppend(ip: seq<Byte>, len: nat) returns (ok: bool)
      requires Valid()
      modifies this, iov
      ensures Valid() && limit == old(limit)
      ensures ok ==> len <= 16 && 16 + MAX_TAG <= |ip| && Contents() == old(Contents()) + ip[..len]
      ensures !ok ==> Contents() == old(Contents())
    {
      var spaceLeft := limit - total;
      if len <= 16 && |ip| >= 16 + MAX_TAG && spaceLeft >= 16 && remaining >= 16 {
        FillIov(ip[..16], len);
        assert ip[..16][..len] == ip[..len];
        return true;
      }
      return false;
    }

    method AppendFromSelf(offset: nat, len: nat) returns (ok: bool)
      requires Valid() && len <= 64
      modifies this, iov
      ensures Valid() && limit == old(limit)
      ensures ok == (1 <= offset <= old(total) && old(total) + len <= limit)
      ensures ok ==> Contents() == CopyFrom(old(Contents()), offset, len)
    {
      if offset == 0 || offset - 1 >= total {
        return false;
      }
      var spaceLeft := limit - total;
      if len > spaceLeft {
        return false;
      }
      var fromIov, fromOffset := Locate(offset);
      ok := CopyPieces(fromIov, fromOffset, offset, len);
    }

    /** Walks back to the buffer the copy starts in. */
    method Locate(offset0: nat) returns (fromIov: nat, fromOffset: nat)
      requires Valid() && 1 <= offset0 <= total
      ensures fromIov <= curr < |iov| && fromOffset <= iov[fromIov].Length
      ensures Start(iov, fromIov) + fromOffset + offset0 == total
    {
      var offset: nat := offset0;
      fromIov, fromOffset := curr, iov[curr].Length - remaining;
      while offset > 0
        invariant offset <= offset0 && fromIov <= curr && fromOffset <= iov[fromIov].Length
        invariant Start(iov, fromIov) + fromOffset + offset0 == total + offset
        decreases fromIov, offset
      {
        if fromOffset >= offset {
          fromOffset := fromOffset - offset;
          return;
        }
        offset := offset - fromOffset;
        fromIov := fromIov - 1;
        fromOffset := iov[fromIov].Length;
      }
    }

    /** Copies from buffer to buffer, then inside the current one. */
    method CopyPieces(fromIov0: nat, fromOffset0: nat, ghost offset: nat, len0: nat) returns (ok: bool)
      requires Valid() && len0 <= 64 && 1 <= offset <= total && total + len0 <= limit
      requires fromIov0 <= curr < |iov| && fromOffset0 <= iov[fromIov0].Length
      requires Start(iov, fromIov0) + fromOffset0 + offset == total
      modifies this, iov
      ensures ok && Valid() && limit == old(limit)
      ensures Contents() == CopyFrom(old(Contents()), offset, len0)
    {
      hide CopyFrom, Start, IOVecWriter.Holds, IOVecWriter.Contents;
      var fromIov: nat, fromOffset: nat, len: nat := fromIov0, fromOffset0, len0;
      ghost var start := Contents();
      ghost var done: nat := 0;
      CopyNothing(start, offset);
      while len > 0
        invariant Valid() && limit == old(limit) && done + len == len0 && total == |start| + done
        invariant fromIov <= curr < |iov| && fromOffset <= iov[fromIov].Length
        invariant len > 0 ==> Start(iov, fromIov) + fromOffset + offset == total
        invariant Contents() == CopyFrom(start, offset, done)
        decreases len, |iov| - curr, |iov| - fromIov
      {
        var toCopy: nat;
        if fromIov != curr {
          var left := iov[fromIov].Length - fromOffset;
          toCopy := if left < len then left else len;
          CopyFromEarlier(fromIov, fromOffset, toCopy, offset);
          fromOffset := fromOffset + toCopy;
          if toCopy < len {
            StartNext(iov, fromIov);
            fromIov, fromOffset := fromIov + 1, 0;
          }
        } else if remaining == 0 {
          StartNext(iov, curr);
          if curr + 1 >= |iov| {
            assert false;
            return false;
          }
          NextIov();
          toCopy := 0;
        } else {
          toCopy := if remaining > len then len else remaining;
          CopyInIov(fromOffset, toCopy, offset);
          fromOffset := fromOffset + toCopy;
        }
        CopyFromConcat(start, offset, done, toCopy);
        CopyNothing(Contents(), offset);
        done, len := done + toCopy, len - toCopy;
      }
      return true;
    }

    /** A piece that lies in a buffer already full: a plain append. */
    method CopyFromEarlier(fromIov: nat, fromOffset: nat, toCopy: nat, ghost offset: nat)
      requires Valid() && fromIov < curr < |iov| && fromOffset + toCopy <= iov[fromIov].Length
      requires Start(iov, fromIov) + fromOffset + offset == total && 1 <= offset <= total && total + toCopy <= limit
      modifies this, iov
      ensures Valid() && limit == old(limit) && total == old(total) + toCopy
      ensures curr >= old(curr) && (toCopy == 0 ==> curr == old(curr))
      ensures Contents() == CopyFrom(old(Contents()), offset, toCopy)
    {
      ghost var out := Contents();
      StartMono(iov, fromIov, curr);
      CopyBlock(out, offset, toCopy);
      assert Holds(fromIov);
      var bytes := iov[fromIov][fromOffset..fromOffset + toCopy];
      PieceOf(out, full, iov[fromIov][..], Start(iov, fromIov), fromOffset, toCopy);
      var appended := AppendNoCheck(bytes);
    }

    method CopyInIov(fromOffset: nat, toCopy: nat, ghost offset: nat)
      requires Valid() && curr < |iov| && 0 < toCopy <= 64 && toCopy <= remaining && total + toCopy <= limit
      requires Start(iov, curr) + fromOffset + offset == total && 1 <= offset <= total
      modifies this, iov
      ensures Valid() && limit == old(limit) && total == old(total) + toCopy && curr == old(curr)
      ensures Contents() == CopyFrom(old(Contents()), offset, toCopy)
    {
      hide CopyFrom;
      var a := iov[curr];
      ghost var tail := a[..at];
      CopyBack(a, at, at - fromOffset, toCopy, at + remaining, ssse3);
      CopyFromSuffix(full, tail, offset, toCopy);
      at, remaining, total := at + toCopy, remaining - toCopy, total + toCopy;
      StillHold();
    }
  }
}
