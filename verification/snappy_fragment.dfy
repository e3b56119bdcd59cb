/**
 CompressFragment (snappy.cc), in place: the hash table of earlier positions, the skipping
 scan for a four-byte match, and the run of copies behind it.
 */
module SnappyFragment {
  import opened Basics
  import opened SnappyFormat
  import opened SnappyBits
  import opened SnappyEmit
  import opened SnappyChoice

  /** The table is sized for shift and knows only positions in front of ip. */
  ghost predicate TableBefore(table: array<Slot>, shift: nat, ip: nat)
    reads table
  {
    && shift <= 32 && table.Length == Pow2(32 - shift)
    && forall k :: 0 <= k < table.Length ==> table[k] < ip
  }

  method HashAt(input: seq<Byte>, i: nat, shift: nat) returns (hash: nat)
    requires i + 4 <= |input| && shift <= 32
    ensures hash == Hash(input, i, shift) < Pow2(32 - shift)
  {
    var bytes := Load32(input, i);
    HashInTable(bytes, shift);
    hash := HashBytes(bytes, shift);
  }

  // ----- What has been emitted ----------------------------------------------------

  /** The elements es, run on hist, append the first k bytes of the fragment. */
  ghost predicate Progress(es: seq<Element>, hist: seq<Byte>, input: seq<Byte>, k: nat) {
    k <= |input| && AllWritable(es) && Run(es, hist) == Some(hist + input[..k])
  }

  lemma NoProgressYet(hist: seq<Byte>, input: seq<Byte>)
    ensures Progress([], hist, input, 0) && EncodeAll([]) == []
  {
    assert input[..0] == [] && hist + [] == hist;
  }

  lemma ProgressLiteral(es: seq<Element>, hist: seq<Byte>, input: seq<Byte>, k: nat, k': nat)
    returns (es': seq<Element>)
    requires Progress(es, hist, input, k) && k < k' <= |input| <= 0x1_0000
    ensures Progress(es', hist, input, k') && EncodeAll(es') == EncodeAll(es) + EncodeElement(Literal(input[k..k']))
    ensures es' == es + [Literal(input[k..k'])]
  {
    hide Run, EncodeAll;
    var e := Literal(input[k..k']);
    EncodeAllConcat(es, [e]);
    EncodeOne(e);
    RunOne(e, hist + input[..k]);
    RunConcat(es, [e], hist);
    assert hist + input[..k] + input[k..k'] == hist + input[..k'];
    es' := es + [e];
  }

  /** Repeating what lies ip - candidate bytes back reproduces the matched input. */
  lemma MatchIsCopy(hist: seq<Byte>, input: seq<Byte>, candidate: nat, ip: nat, len: nat)
    requires candidate < ip && ip + len <= |input| && MatchesSoFar(input, candidate, ip, len)
    ensures CopyFrom(hist + input[..ip], ip - candidate, len) == hist + input[..ip + len]
  {
    var out, r, offset := hist + input[..ip], hist + input[..ip + len], ip - candidate;
    assert out == r[..|out|];
    forall i | |out| <= i < |r| ensures Echo(r, offset, i) {
      assert Repeats(input, candidate, ip, i - |hist|);
    }
    CopyFromUnique(out, offset, r);
  }

  lemma ProgressCopy(es: seq<Element>, hist: seq<Byte>, input: seq<Byte>, candidate: nat, ip: nat, len: nat)
    returns (es': seq<Element>)
    requires Progress(es, hist, input, ip) && |input| <= 0x1_0000
    requires candidate < ip && 4 <= len && ip + len <= |input| && MatchesSoFar(input, candidate, ip, len)
    ensures Progress(es', hist, input, ip + len)
    ensures EncodeAll(es') == EncodeAll(es) + EncodeAll(Pieces(ip - candidate, len))
    ensures es' == es + Pieces(ip - candidate, len)
  {
    hide Run, EncodeAll, CopyFrom;
    var ps := Pieces(ip - candidate, len);
    EncodeAllConcat(es, ps);
    RunPieces(ip - candidate, len, hist + input[..ip]);
    MatchIsCopy(hist, input, candidate, ip, len);
    RunConcat(es, ps, hist);
    es' := es + ps;
  }

  // ----- Step 1: scan for a match -------------------------------------------------

  /** Looks ahead in growing strides for a position whose four bytes were seen
      before.  A candidate always lies in front of ip, in the same fragment. */
  method ScanForMatch(input: seq<Byte>, table: array<Slot>, shift: nat, ip0: nat, hash0: nat)
    returns (found: bool, ip: nat, candidate: nat)
    requires INPUT_MARGIN <= |input| <= BLOCK_SIZE && 1 <= ip0 <= |input| - INPUT_MARGIN + 1
    requires TableBefore(table, shift, ip0) && hash0 == Hash(input, ip0, shift) < Pow2(32 - shift)
    modifies table
    ensures found ==> ip0 <= ip < |input| - INPUT_MARGIN && candidate < ip && TableBefore(table, shift, ip + 1)
    ensures found ==> MatchesSoFar(input, candidate, ip, 4)
    ensures Scan(input, old(table[..]), shift, ip0, 32) == if found then Hit(ip, candidate, table[..]) else Nothing
  {
    hide MatchesSoFar, Hash, Scan, Enter, Look;
    var ipLimit := |input| - INPUT_MARGIN;
    var skip, nextIp, nextHash := 32, ip0, hash0;
    while true
      invariant 32 <= skip <= 32 + nextIp && ip0 <= nextIp <= ipLimit + 1
      invariant Scan(input, old(table[..]), shift, ip0, 32) == Scan(input, table[..], shift, nextIp, skip)
      invariant TableBefore(table, shift, nextIp)
      invariant nextHash == Hash(input, nextIp, shift) < Pow2(32 - shift)
      decreases ipLimit + 1 - nextIp
    {
      ip := nextIp;
      var hash := nextHash;
      ghost var was := table[..];
      ScanStep(input, was, shift, ip, skip);
      var bytesBetweenHashLookups := skip / 32;
      skip := skip + bytesBetweenHashLookups;
      nextIp := ip + bytesBetweenHashLookups;
      if nextIp > ipLimit {
        return false, ip, 0;
      }
      nextHash := HashAt(input, nextIp, shift);
      candidate := table[hash];
      table[hash] := ip;
      Entered(was, table[..], hash, ip);
      MatchStarts(input, candidate, ip);
      var same := SameWord(input, candidate, ip, 0, 4);
      if same {
        return true, ip, candidate;
      }
    }
  }

  // ----- Step 3: copy as long as the next position matches too ----------------------

  method EmitMatches(input: seq<Byte>, dst: array<Byte>, op0: nat, op1: nat, table: array<Slot>, shift: nat,
                     ip1: nat, candidate1: nat, ghost es1: seq<Element>, ghost hist: seq<Byte>)
    returns (op: nat, ip: nat, nearEnd: bool, ghost es: seq<Element>, ghost more: seq<Element>)
    requires INPUT_MARGIN <= |input| <= BLOCK_SIZE && candidate1 < ip1 && ip1 + 4 <= |input|
    requires MatchesSoFar(input, candidate1, ip1, 4) && TableBefore(table, shift, ip1 + 1)
    requires op0 <= op1 && 6 * (op1 - op0) <= 7 * ip1 + 5 && 6 * (dst.Length - op0) >= 7 * |input|
    requires Progress(es1, hist, input, ip1) && dst[op0..op1] == EncodeAll(es1)
    modifies dst, table
    ensures ip1 < ip <= |input| && Progress(es, hist, input, ip)
    ensures op0 <= op <= dst.Length && 6 * (op - op0) + 5 <= 7 * ip && dst[op0..op] == EncodeAll(es)
    ensures !nearEnd ==> ip < |input| - INPUT_MARGIN && TableBefore(table, shift, ip + 1)
    ensures es == es1 + more
    ensures Copies(input, old(table[..]), shift, ip1, candidate1) == Copied(more, ip, nearEnd, table[..])
    ensures Kept(dst, op0)
  {
    hide Run, EncodeAll, Pieces, Lcp, Copies, Behind, Probed;
    op, ip, es, more := op1, ip1, es1, [];
    var candidate: nat := candidate1;
    ghost var all := Copies(input, table[..], shift, ip1, candidate1);
    BehindNothing(all);
    while true
      invariant es == es1 + more && all == Behind(more, Copies(input, table[..], shift, ip, candidate))
      invariant candidate < ip && ip1 <= ip && ip + 4 <= |input| && MatchesSoFar(input, candidate, ip, 4)
      invariant TableBefore(table, shift, ip + 1)
      invariant op0 <= op && 6 * (op - op0) <= 7 * ip + 5
      invariant Progress(es, hist, input, ip) && dst[op0..op] == EncodeAll(es)
      invariant Kept(dst, op0)
      decreases |input| - ip
    {
      ghost var piece := Pieces(ip - candidate, 4 + Lcp(input, candidate + 4, ip + 4));
      CopiesStep(input, table[..], shift, ip, candidate);
      op, ip, es := EmitOneMatch(input, dst, op0, op, candidate, ip, es, hist);
      ghost var before := more;
      more := more + piece;
      if ip >= |input| - INPUT_MARGIN {
        BehindLast(before, piece, ip, true, table[..]);
        return op, ip, true, es, more;
      }
      var same;
      candidate, same := ProbeNext(input, table, shift, ip);
      if !same {
        BehindLast(before, piece, ip, false, table[..]);
        return op, ip, false, es, more;
      }
      BehindTwice(before, piece, Copies(input, table[..], shift, ip, candidate));
    }
  }

  /** Extends the four-byte match as far as it goes and emits it. */
  method EmitOneMatch(input: seq<Byte>, dst: array<Byte>, op0: nat, op1: nat, candidate: nat, base: nat,
                      ghost es1: seq<Element>, ghost hist: seq<Byte>)
    returns (op: nat, ip: nat, ghost es: seq<Element>)
    requires |input| <= BLOCK_SIZE && candidate < base && base + 4 <= |input| && MatchesSoFar(input, candidate, base, 4)
    requires op0 <= op1 && 6 * (op1 - op0) <= 7 * base + 5 && 6 * (dst.Length - op0) >= 7 * |input|
    requires Progress(es1, hist, input, base) && dst[op0..op1] == EncodeAll(es1)
    modifies dst
    ensures base + 4 <= ip <= |input| && Progress(es, hist, input, ip)
    ensures op0 <= op <= dst.Length && 6 * (op - op0) + 5 <= 7 * ip && dst[op0..op] == EncodeAll(es)
    ensures ip == base + 4 + Lcp(input, candidate + 4, base + 4) && es == es1 + Pieces(base - candidate, ip - base)
    ensures Kept(dst, op0)
  {
    hide Run, EncodeAll, Pieces, Lcp;
    var matched, lessThan12 := ExtendedMatch(input, candidate, base);
    ip := base + matched;
    op := AppendCopy(dst, op0, op1, base - candidate, matched, lessThan12);
    es := ProgressCopy(es1, hist, input, candidate, base, matched);
  }

  method AppendCopy(dst: array<Byte>, op0: nat, op1: nat, offset: nat, matched: nat, lessThan12: bool) returns (op: nat)
    requires 4 <= matched && 0 < offset < 0x1_0000 && lessThan12 == (matched < 12)
    requires op0 <= op1 && op1 + matched <= dst.Length
    modifies dst
    ensures op1 <= op <= dst.Length && 6 * (op - op1) + 10 <= 7 * matched && Kept(dst, op0)
    ensures dst[op0..op] == old(dst[op0..op1]) + EncodeAll(Pieces(offset, matched))
  {
    ghost var before := dst[op0..op1];
    op := EmitCopy(dst, op1, offset, matched, lessThan12);
    Extend(before, dst, op0, op1, op);
  }

  method AppendLiteral(dst: array<Byte>, op0: nat, op1: nat, input: seq<Byte>, start: nat, len: nat,
                       allowFastPath: bool)
    returns (op: nat)
    requires 0 < len <= 0x1_0000 && start + len <= |input| && op0 <= op1
    requires op1 + |LiteralTag(len)| + len <= dst.Length
    requires allowFastPath && len <= 16 ==> start + 16 <= |input| && op1 + 17 <= dst.Length
    modifies dst
    ensures op == op1 + |LiteralTag(len)| + len && Kept(dst, op0)
    ensures dst[op0..op] == old(dst[op0..op1]) + EncodeElement(Literal(input[start..start + len]))
  {
    ghost var before := dst[op0..op1];
    op := EmitLiteral(dst, op1, input, start, len, allowFastPath);
    Extend(before, dst, op0, op1, op);
  }

  method ExtendedMatch(input: seq<Byte>, candidate: nat, base: nat) returns (matched: nat, lessThan12: bool)
    requires candidate < base && base + 4 <= |input| && MatchesSoFar(input, candidate, base, 4)
    ensures 4 <= matched && base + matched <= |input| && MatchesSoFar(input, candidate, base, matched)
    ensures lessThan12 == (matched < 12) && matched == 4 + Lcp(input, candidate + 4, base + 4)
  {
    var more, lessThan8 := FindMatchLength64(input, candidate + 4, base + 4, |input|);
    ExtendMatch(input, candidate, base, more);
    LcpIsLongest(input, candidate + 4, base + 4, more);
    return 4 + more, lessThan8;
  }

  lemma ExtendMatch(input: seq<Byte>, i: nat, j: nat, more: nat)
    requires i <= j && j + 4 + more <= |input|
    requires MatchesSoFar(input, i, j, 4) && MatchesSoFar(input, i + 4, j + 4, more)
    ensures MatchesSoFar(input, i, j, 4 + more)
  {
    forall p | j <= p < j + 4 + more ensures Repeats(input, i, j, p) {
      if p >= j + 4 {
        assert Repeats(input, i + 4, j + 4, p);
      }
    }
  }

  /** Records the last two positions and looks the current one up. */
  method ProbeNext(input: seq<Byte>, table: array<Slot>, shift: nat, ip: nat) returns (candidate: nat, same: bool)
    requires |input| <= BLOCK_SIZE && 1 <= ip < |input| - INPUT_MARGIN && TableBefore(table, shift, ip)
    modifies table
    ensures candidate < ip && TableBefore(table, shift, ip + 1)
    ensures same ==> MatchesSoFar(input, candidate, ip, 4)
    ensures (candidate, table[..]) == Probed(input, old(table[..]), shift, ip) && same == SameFour(input, candidate, ip)
  {
    hide MatchesSoFar, Hash, Enter, Look;
    var prevHash := HashAt(input, ip - 1, shift);
    ghost var was := table[..];
    table[prevHash] := ip - 1;
    Entered(was, table[..], prevHash, ip - 1);
    was := table[..];
    var curHash := HashAt(input, ip, shift);
    candidate := table[curHash];
    table[curHash] := ip;
    Entered(was, table[..], curHash, ip);
    MatchStarts(input, candidate, ip);
    same := SameWord(input, candidate, ip, 0, 4);
  }

  // ----- The main loop --------------------------------------------------------------

  /** The loop over "one literal, then copies".  Returns where the trailing literal
      starts. */
  method MainLoop(input: seq<Byte>, dst: array<Byte>, op0: nat, table: array<Slot>, shift: nat, ghost hist: seq<Byte>)
    returns (op: nat, nextEmit: nat, ghost es: seq<Element>)
    requires INPUT_MARGIN <= |input| <= BLOCK_SIZE && TableBefore(table, shift, 1)
    requires op0 <= dst.Length && 6 * (dst.Length - op0) >= 7 * |input|
    modifies dst, table
    ensures Progress(es, hist, input, nextEmit)
    ensures op0 <= op <= dst.Length && dst[op0..op] == EncodeAll(es)
    ensures if nextEmit == 0 then op == op0 else 6 * (op - op0) + 5 <= 7 * nextEmit
    ensures Then(es, Trailing(input, nextEmit)) == Elements(input, old(table[..]), shift, 1, 0)
    ensures Kept(dst, op0)
  {
    hide Run, EncodeAll, Elements, Scan, Copies, Hash, Trailing, MatchesSoFar, Pow2, Then;
    op, nextEmit, es := op0, 0, [];
    NoProgressYet(hist, input);
    var ip := 1;
    var nextHash := HashAt(input, ip, shift);
    ghost var all := Elements(input, table[..], shift, 1, 0);
    NothingThen(all);
    while true
      invariant Then(es, Elements(input, table[..], shift, ip, nextEmit)) == all
      invariant nextEmit < ip <= |input| - INPUT_MARGIN + 1 && TableBefore(table, shift, ip)
      invariant nextHash == Hash(input, ip, shift) < Pow2(32 - shift)
      invariant Progress(es, hist, input, nextEmit)
      invariant op0 <= op <= dst.Length && dst[op0..op] == EncodeAll(es)
      invariant if nextEmit == 0 then op == op0 else 6 * (op - op0) + 5 <= 7 * nextEmit
      invariant Kept(dst, op0)
      decreases |input| - ip
    {
      ghost var was, done := table[..], es;
      var found, at, candidate := ScanForMatch(input, table, shift, ip, nextHash);
      if !found {
        ElementsEnd(input, was, shift, ip, nextEmit);
        return;
      }
      ghost var t := table[..];
      var nearEnd, next;
      op, next, nearEnd, es := EmitRound(input, dst, op0, op, table, shift, nextEmit, at, candidate, es, hist);
      ElementsHit(input, was, shift, ip, nextEmit, at, candidate, t, done);
      ip, nextEmit := next, next;
      if nearEnd {
        return;
      }
      ip := ip + 1;
      nextHash := HashAt(input, ip, shift);
    }
  }

  /** Steps 2 and 3: the literal in front of a match and the copies from it on. */
  method EmitRound(input: seq<Byte>, dst: array<Byte>, op0: nat, op1: nat, table: array<Slot>, shift: nat,
                   nextEmit: nat, at: nat, candidate: nat, ghost es1: seq<Element>, ghost hist: seq<Byte>)
    returns (op: nat, ip: nat, nearEnd: bool, ghost es: seq<Element>)
    requires nextEmit < at < |input| - INPUT_MARGIN && |input| <= BLOCK_SIZE && candidate < at
    requires MatchesSoFar(input, candidate, at, 4) && TableBefore(table, shift, at + 1)
    requires Progress(es1, hist, input, nextEmit)
    requires op0 <= op1 <= dst.Length && dst[op0..op1] == EncodeAll(es1) && 6 * (dst.Length - op0) >= 7 * |input|
    requires if nextEmit == 0 then op1 == op0 else 6 * (op1 - op0) + 5 <= 7 * nextEmit
    modifies dst, table
    ensures at < ip <= |input| && Progress(es, hist, input, ip)
    ensures op0 <= op <= dst.Length && 6 * (op - op0) + 5 <= 7 * ip && dst[op0..op] == EncodeAll(es)
    ensures !nearEnd ==> ip < |input| - INPUT_MARGIN && TableBefore(table, shift, ip + 1)
    ensures var copied := Copies(input, old(table[..]), shift, at, candidate);
            && copied.ip == ip && copied.nearEnd == nearEnd && copied.table == table[..]
            && es == es1 + [Literal(input[nextEmit..at])] + copied.es
    ensures Kept(dst, op0)
  {
    hide Run, EncodeAll, Copies, Progress, MatchesSoFar, TableBefore, Pow2;
    ghost var more;
    op, es := EmitPending(input, dst, op0, op1, nextEmit, at, es1, hist);
    op, ip, nearEnd, es, more := EmitMatches(input, dst, op0, op, table, shift, at, candidate, es, hist);
  }

  /** Step 2: the unmatched bytes in front of a match, as one literal. */
  method EmitPending(input: seq<Byte>, dst: array<Byte>, op0: nat, op1: nat, nextEmit: nat, ip: nat,
                     ghost es1: seq<Element>, ghost hist: seq<Byte>)
    returns (op: nat, ghost es: seq<Element>)
    requires nextEmit < ip < |input| - INPUT_MARGIN && |input| <= BLOCK_SIZE
    requires Progress(es1, hist, input, nextEmit)
    requires op0 <= op1 <= dst.Length && dst[op0..op1] == EncodeAll(es1) && 6 * (dst.Length - op0) >= 7 * |input|
    requires if nextEmit == 0 then op1 == op0 else 6 * (op1 - op0) + 5 <= 7 * nextEmit
    modifies dst
    ensures Progress(es, hist, input, ip)
    ensures op0 <= op <= dst.Length && dst[op0..op] == EncodeAll(es) && 6 * (op - op0) <= 7 * ip + 5
    ensures es == es1 + [Literal(input[nextEmit..ip])]
    ensures Kept(dst, op0)
  {
    PendingBudget(|input|, nextEmit, ip, op1 - op0, |LiteralTag(ip - nextEmit)|, dst.Length - op0);
    op, es := AppendInput(input, dst, op0, op1, nextEmit, ip, true, es1, hist);
  }

  /** A literal costs at most one byte more than its data, or three for a long one,
      and the copy that follows pays for it. */
  lemma PendingBudget(n: nat, k: nat, ip: nat, used: nat, tag: nat, room: nat)
    requires k < ip < n - INPUT_MARGIN && 6 * room >= 7 * n
    requires if k == 0 then used == 0 else 6 * used + 5 <= 7 * k
    requires tag <= (if ip - k <= 60 then 1 else 3)
    ensures 6 * (used + tag + ip - k) <= 7 * ip + 5 && used + tag + ip - k <= room && used + 17 <= room
  {}

  lemma RemainderBudget(n: nat, k: nat, used: nat, tag: nat, room: nat)
    requires k < n && 6 * room >= 7 * n + 5
    requires if k == 0 then used == 0 else 6 * used + 5 <= 7 * k
    requires tag <= (if n - k <= 60 then 1 else 3)
    ensures 6 * (used + tag + n - k) <= 7 * n + 5 && used + tag + n - k <= room
    ensures n >= 18 ==> 6 * (used + tag + n - k) <= 7 * n
  {}

  /** The bytes input[k..k'] as one literal behind what es1 has written. */
  method AppendInput(input: seq<Byte>, dst: array<Byte>, op0: nat, op1: nat, k: nat, k': nat, allowFastPath: bool,
                     ghost es1: seq<Element>, ghost hist: seq<Byte>)
    returns (op: nat, ghost es: seq<Element>)
    requires k < k' <= |input| <= BLOCK_SIZE && Progress(es1, hist, input, k)
    requires op0 <= op1 && op1 + |LiteralTag(k' - k)| + k' - k <= dst.Length && dst[op0..op1] == EncodeAll(es1)
    requires allowFastPath && k' - k <= 16 ==> k + 16 <= |input| && op1 + 17 <= dst.Length
    modifies dst
    ensures Progress(es, hist, input, k')
    ensures op == op1 + |LiteralTag(k' - k)| + (k' - k) && dst[op0..op] == EncodeAll(es)
    ensures es == es1 + [Literal(input[k..k'])]
    ensures Kept(dst, op0)
  {
    hide Run, EncodeAll, Decode, LiteralTag, EncodeElement, Writable;
    op := AppendLiteral(dst, op0, op1, input, k, k' - k, allowFastPath);
    es := ProgressLiteral(es1, hist, input, k, k');
  }

  /** CompressFragment.  The bytes written at dst[op0..op] are the encoding of
      elements that append exactly the fragment to whatever was produced before, and
      they stay within 7/6 of its size, plus one byte for a tiny one.  The output
      array may end right at that bound: no store passes it.  The elements are the greedy
      choice, so that nothing the scan looks at repeats what it looked at before, copies
      go as far as they can, and equal bytes shrink. */
  method CompressFragment(input: seq<Byte>, dst: array<Byte>, op0: nat, table: array<Slot>, ghost hist: seq<Byte>)
    returns (op: nat, ghost es: seq<Element>)
    requires 0 < |input| <= BLOCK_SIZE
    requires op0 <= dst.Length && 6 * (dst.Length - op0) >= 7 * |input| + 5
    requires exists log :: log <= 32 && table.Length == Pow2(log)
    requires forall k :: 0 <= k < table.Length ==> table[k] == 0
    modifies dst, table
    ensures es == FragmentElements(input, table.Length)
    ensures AllWritable(es) && Run(es, hist) == Some(hist + input)
    ensures exists log: nat :: log <= 32 && table.Length == Pow2(log) && Greedy(es, input, 32 - log, [], 0)
    ensures Tight(es, input, 0)
    ensures AllEqual(input) && |input| >= 17 ==> op - op0 <= 2 + 3 * (|input| / 64 + 1)
    ensures op0 <= op <= dst.Length && dst[op0..op] == EncodeAll(es)
    ensures 6 * (op - op0) <= 7 * |input| + 5 && (|input| >= 18 ==> 6 * (op - op0) <= 7 * |input|)
    ensures Kept(dst, op0)
  {
    hide EncodeAll, Run, Greedy, Tight, FragmentElements;
    op, es := CompressAll(input, dst, op0, table, hist);
    ChosenWell(es, input, table.Length);
  }

  /** The main loop and the trailing literal. */
  method CompressAll(input: seq<Byte>, dst: array<Byte>, op0: nat, table: array<Slot>, ghost hist: seq<Byte>)
    returns (op: nat, ghost es: seq<Element>)
    requires 0 < |input| <= BLOCK_SIZE
    requires op0 <= dst.Length && 6 * (dst.Length - op0) >= 7 * |input| + 5
    requires exists log :: log <= 32 && table.Length == Pow2(log)
    requires forall k :: 0 <= k < table.Length ==> table[k] == 0
    modifies dst, table
    ensures es == FragmentElements(input, table.Length)
    ensures AllWritable(es) && Run(es, hist) == Some(hist + input)
    ensures op0 <= op <= dst.Length && dst[op0..op] == EncodeAll(es)
    ensures 6 * (op - op0) <= 7 * |input| + 5 && (|input| >= 18 ==> 6 * (op - op0) <= 7 * |input|)
    ensures Kept(dst, op0)
  {
    hide EncodeAll, Elements, Log2, Pow2;
    var nextEmit := 0;
    op, es := op0, [];
    NoProgressYet(hist, input);
    hide Run;
    if |input| >= INPUT_MARGIN {
      var shift := ShiftFor(table.Length);
      assert table[..] == seq(table.Length, _ => 0);
      op, nextEmit, es := MainLoop(input, dst, op0, table, shift, hist);
    }
    ghost var before := es;
    if nextEmit < |input| {
      op, es := EmitRemainder(input, dst, op0, op, nextEmit, es, hist);
    }
    assert es == before + Trailing(input, nextEmit);
    assert input[..|input|] == input;
  }

  lemma ChosenWell(es: seq<Element>, input: seq<Byte>, size: nat)
    requires |input| <= BLOCK_SIZE && (exists log :: log <= 32 && size == Pow2(log)) && AllWritable(es)
    requires size > 0 && es == FragmentElements(input, size)
    ensures exists log: nat :: log <= 32 && size == Pow2(log) && Greedy(es, input, 32 - log, [], 0)
    ensures Tight(es, input, 0)
    ensures AllEqual(input) && |input| >= 17 ==> |EncodeAll(es)| <= 2 + 3 * (|input| / 64 + 1)
  {
    hide Greedy, Tight, FragmentElements, EncodeAll, Pow2;
    ghost var log: nat :| log <= 32 && size == Pow2(log);
    FragmentIsGreedy(input, log);
    GreedyTight(es, input, 32 - log, [], 0);
    if AllEqual(input) && |input| >= 17 {
      EqualBytesSize(es, input, 32 - log);
    }
  }

  /** The trailing literal. */
  method EmitRemainder(input: seq<Byte>, dst: array<Byte>, op0: nat, op1: nat, nextEmit: nat,
                       ghost es1: seq<Element>, ghost hist: seq<Byte>)
    returns (op: nat, ghost es: seq<Element>)
    requires nextEmit < |input| <= BLOCK_SIZE && Progress(es1, hist, input, nextEmit)
    requires op0 <= op1 <= dst.Length && dst[op0..op1] == EncodeAll(es1) && 6 * (dst.Length - op0) >= 7 * |input| + 5
    requires if nextEmit == 0 then op1 == op0 else 6 * (op1 - op0) + 5 <= 7 * nextEmit
    modifies dst
    ensures Progress(es, hist, input, |input|)
    ensures op0 <= op <= dst.Length && dst[op0..op] == EncodeAll(es)
    ensures 6 * (op - op0) <= 7 * |input| + 5 && (|input| >= 18 ==> 6 * (op - op0) <= 7 * |input|)
    ensures es == es1 + [Literal(input[nextEmit..])]
    ensures Kept(dst, op0)
  {
    RemainderBudget(|input|, nextEmit, op1 - op0, |LiteralTag(|input| - nextEmit)|, dst.Length - op0);
    op, es := AppendInput(input, dst, op0, op1, nextEmit, |input|, false, es1, hist);
    assert input[nextEmit..|input|] == input[nextEmit..];
  }

  /** 32 - Log2Floor(table_size). */
  method ShiftFor(tableSize: nat) returns (shift: nat)
    requires exists log :: log <= 32 && tableSize == Pow2(log)
    ensures shift <= 32 && tableSize == Pow2(32 - shift) && tableSize > 0 && shift == 32 - Log2(tableSize)
  {
    ghost var log :| log <= 32 && tableSize == Pow2(log);
    Log2OfPow2(log);
    shift := 32 - Log2(tableSize);
  }
}
