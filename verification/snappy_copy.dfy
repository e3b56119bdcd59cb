/**
 IncrementalCopySlow and both versions of IncrementalCopy (snappy.cc): an
 overlapping copy done in 8- and 16-byte stores that run past its end.
 */
module SnappyCopy {
  import opened Basics
  import opened SnappyFormat
  import opened SnappyBits

  /** Position i of the endless repetition of s[b..b + pat], starting at b. */
  function Repetition(s: seq<Byte>, b: nat, pat: nat, i: nat): Byte
    requires 1 <= pat && b + pat <= |s| && b <= i
  {
    s[b + (i - b) % pat]
  }

  /** a started as s, and from b on holds the repetition of s[b..b + pat] up to v. */
  ghost predicate Filled(a: array<Byte>, s: seq<Byte>, b: nat, pat: nat, v: nat)
    reads a
  {
    && 1 <= pat && b + pat <= v <= a.Length == |s|
    && (forall i :: 0 <= i < b ==> a[i] == s[i])
    && (forall i :: b <= i < v ==> a[i] == Repetition(s, b, pat, i))
  }

  /** Nothing from limit on has been written. */
  ghost predicate Untouched(a: array<Byte>, s: seq<Byte>, limit: nat)
    reads a
  {
    limit <= a.Length == |s| && forall i :: limit <= i < |s| ==> a[i] == s[i]
  }

  lemma ModShift(x: nat, d: nat, pat: nat)
    requires 1 <= pat && d % pat == 0 && d <= x
    ensures (x - d) % pat == x % pat
  {
    var k, q, m := d / pat, (x - d) / pat, (x - d) % pat;
    assert d == k * pat && x - d == q * pat + m;
    assert x == (q + k) * pat + m;
    ModUnique(q + k, pat, m);
  }

  lemma RepetitionShift(s: seq<Byte>, b: nat, pat: nat, i: nat, d: nat)
    requires 1 <= pat && b + pat <= |s| && b + d <= i && d % pat == 0
    ensures Repetition(s, b, pat, i - d) == Repetition(s, b, pat, i)
  {
    ModShift(i - b, d, pat);
  }

  /** The filled part is the format's copy. */
  lemma FilledIsCopy(a: array<Byte>, s: seq<Byte>, b: nat, pat: nat, v: nat)
    requires Filled(a, s, b, pat, v)
    ensures a[..b + pat] == s[..b + pat]
    ensures a[..v] == CopyFrom(s[..b + pat], pat, v - b - pat)
  {
    hide Repetition, CopyFrom;
    RepetitionIsCopy(a[..v], s, b, pat);
    assert a[..b + pat] == a[..v][..b + pat];
  }

  lemma RepetitionPrefix(r: seq<Byte>, s: seq<Byte>, b: nat, pat: nat)
    requires 1 <= pat && b + pat <= |r| && b + pat <= |s|
    requires forall i :: 0 <= i < b ==> r[i] == s[i]
    requires forall i :: b <= i < |r| ==> r[i] == Repetition(s, b, pat, i)
    ensures s[..b + pat] == r[..b + pat]
  {
    forall i | 0 <= i < b + pat ensures r[i] == s[i] {
      if i >= b {
        SmallMod(i - b, pat);
        assert r[i] == Repetition(s, b, pat, i);
      }
    }
  }

  lemma RepetitionIsCopy(r: seq<Byte>, s: seq<Byte>, b: nat, pat: nat)
    requires 1 <= pat && b + pat <= |r| && b + pat <= |s|
    requires forall i :: 0 <= i < b ==> r[i] == s[i]
    requires forall i :: b <= i < |r| ==> r[i] == Repetition(s, b, pat, i)
    ensures s[..b + pat] == r[..b + pat] && r == CopyFrom(s[..b + pat], pat, |r| - b - pat)
  {
    RepetitionPrefix(r, s, b, pat);
    forall i | b + pat <= i < |r| ensures Echo(r, pat, i) {
      EchoAt(r, s, b, pat, i);
    }
    CopyFromUnique(s[..b + pat], pat, r);
  }

  lemma EchoAt(r: seq<Byte>, s: seq<Byte>, b: nat, pat: nat, i: nat)
    requires 1 <= pat && b + pat <= i < |r| && b + pat <= |s|
    requires r[i] == Repetition(s, b, pat, i) && r[i - pat] == Repetition(s, b, pat, i - pat)
    ensures Echo(r, pat, i)
  {
    ModUnique(1, pat, 0);
    RepetitionShift(s, b, pat, i, pat);
  }

  method IncrementalCopySlow(a: array<Byte>, src0: nat, op0: nat, opLimit: nat,
                             ghost s: seq<Byte>, ghost b: nat, ghost pat: nat, ghost limit: nat)
    requires Filled(a, s, b, pat, op0) && Untouched(a, s, limit) && opLimit <= limit
    requires b <= src0 < op0 && (op0 - src0) % pat == 0
    modifies a
    ensures Filled(a, s, b, pat, if op0 < opLimit then opLimit else op0) && Untouched(a, s, limit)
  {
    hide Repetition;
    var src, op := src0, op0;
    while op < opLimit
      invariant op - src == op0 - src0 && op0 <= op && (op0 < opLimit ==> op <= opLimit)
      invariant Filled(a, s, b, pat, op) && Untouched(a, s, limit)
    {
      RepetitionShift(s, b, pat, op, op - src);
      a[op] := a[src];
      op, src := op + 1, src + 1;
    }
  }

  /** UnalignedCopy64 from a place d = op - src bytes back, d a whole number of
      patterns.  The first d of the eight bytes extend the repetition. */
  method UnalignedCopy64(a: array<Byte>, src: nat, op: nat,
                         ghost s: seq<Byte>, ghost b: nat, ghost pat: nat, ghost limit: nat)
    requires Filled(a, s, b, pat, op) && Untouched(a, s, limit) && op + 8 <= limit
    requires b <= src < op && (op - src) % pat == 0
    modifies a
    ensures Filled(a, s, b, pat, if op - src < 8 then op + (op - src) else op + 8) && Untouched(a, s, limit)
  {
    var tmp := a[src..src + 8];
    ghost var v := if op - src < 8 then op + (op - src) else op + 8;
    forall i | op <= i < v ensures tmp[i - op] == Repetition(s, b, pat, i) {
      RepetitionShift(s, b, pat, i, op - src);
      assert tmp[i - op] == a[i - (op - src)];
    }
    forall j | 0 <= j < 8 {
      a[op + j] := tmp[j];
    }
  }

  /** Two UnalignedCopy64 in a row. */
  method Copy16(a: array<Byte>, src: nat, op: nat, ghost s: seq<Byte>, ghost b: nat, ghost pat: nat, ghost limit: nat)
    requires Filled(a, s, b, pat, op) && Untouched(a, s, limit) && op + 16 <= limit
    requires b <= src && src + 8 <= op && (op - src) % pat == 0
    modifies a
    ensures Filled(a, s, b, pat, op + 16) && Untouched(a, s, limit)
  {
    UnalignedCopy64(a, src, op, s, b, pat, limit);
    UnalignedCopy64(a, src + 8, op + 8, s, b, pat, limit);
  }

  /** IncrementalCopy.  Whatever route it takes, [op, opLimit) ends up as the byte
      by byte copy, nothing in front of op changes and nothing at or past bufLimit is
      written. */
  method IncrementalCopy(a: array<Byte>, src: nat, op: nat, opLimit: nat, bufLimit: nat, ssse3: bool)
    requires src < op <= opLimit <= bufLimit <= a.Length && opLimit - op <= 64
    modifies a
    ensures a[..op] == old(a[..op]) && a[bufLimit..] == old(a[bufLimit..])
    ensures a[..opLimit] == CopyFrom(old(a[..op]), op - src, opLimit - op)
  {
    hide Filled, Repetition, CopyFrom;
    ghost var s, b, pat := a[..], src, op - src;
    FilledAtStart(a, b, pat);
    ghost var v := opLimit;
    if op - src >= 8 {
      v := WideCopy(a, src, op, opLimit, bufLimit, s, b, pat);
    } else if ssse3 {
      v := ShuffleCopy(a, src, op, opLimit, bufLimit, s, b, pat);
    } else {
      v := DoublingCopy(a, src, op, opLimit, bufLimit, s, b, pat);
    }
    FilledIsCopy(a, s, b, pat, v);
    FilledShrink(a, s, b, pat, v, opLimit);
    FilledIsCopy(a, s, b, pat, opLimit);
    assert s[..op] == old(a[..op]);
  }

  lemma FilledAtStart(a: array<Byte>, b: nat, pat: nat)
    requires 1 <= pat && b + pat <= a.Length
    ensures Filled(a, a[..], b, pat, b + pat)
  {
    forall i | b <= i < b + pat ensures a[i] == Repetition(a[..], b, pat, i) {
      SmallMod(i - b, pat);
    }
  }

  lemma SmallMod(x: nat, m: nat)
    requires x < m
    ensures x % m == x
  {}

  lemma FilledShrink(a: array<Byte>, s: seq<Byte>, b: nat, pat: nat, v: nat, w: nat)
    requires Filled(a, s, b, pat, v) && b + pat <= w <= v
    ensures Filled(a, s, b, pat, w)
  {}

  /** pshufb_fill_patterns. */
  const FILL_PATTERNS: seq<seq<nat>> := [
    [0, 0, 0, 0, 0, 0, 0, 0, 0, 0, 0, 0, 0, 0, 0, 0],
    [0, 1, 0, 1, 0, 1, 0, 1, 0, 1, 0, 1, 0, 1, 0, 1],
    [0, 1, 2, 0, 1, 2, 0, 1, 2, 0, 1, 2, 0, 1, 2, 0],
    [0, 1, 2, 3, 0, 1, 2, 3, 0, 1, 2, 3, 0, 1, 2, 3],
    [0, 1, 2, 3, 4, 0, 1, 2, 3, 4, 0, 1, 2, 3, 4, 0],
    [0, 1, 2, 3, 4, 5, 0, 1, 2, 3, 4, 5, 0, 1, 2, 3],
    [0, 1, 2, 3, 4, 5, 6, 0, 1, 2, 3, 4, 5, 6, 0, 1]
  ]

  predicate RowRepeats(row: seq<nat>, pat: nat)
    requires 1 <= pat
  {
    |row| == 16 && forall j :: 0 <= j < 16 ==> row[j] == j % pat
  }

  /** Row pat - 1 of the shuffle table repeats 0..pat - 1. */
  lemma FillPatterns(pat: nat)
    requires 1 <= pat < 8
    ensures |FILL_PATTERNS| == 7 && RowRepeats(FILL_PATTERNS[pat - 1], pat)
  {
    Row1And2();
    Row3();
    Row4();
    Row5();
    Row6();
    Row7();
    hide RowRepeats;
  }

  lemma Row1And2()
    ensures RowRepeats(FILL_PATTERNS[0], 1) && RowRepeats(FILL_PATTERNS[1], 2)
  {}

  lemma Row3()
    ensures RowRepeats(FILL_PATTERNS[2], 3)
  {}

  lemma Row4()
    ensures RowRepeats(FILL_PATTERNS[3], 4)
  {}

  lemma Row5()
    ensures RowRepeats(FILL_PATTERNS[4], 5)
  {}

  lemma Row6()
    ensures RowRepeats(FILL_PATTERNS[5], 6)
  {}

  lemma Row7()
    ensures RowRepeats(FILL_PATTERNS[6], 7)
  {}

  /** The SSSE3 branch for patterns shorter than eight bytes: one shuffled 16-byte
      pattern stored over and over. */
  method ShuffleCopy(a: array<Byte>, src: nat, op0: nat, opLimit: nat, bufLimit: nat,
                     ghost s: seq<Byte>, ghost b: nat, ghost pat: nat)
    returns (ghost v: nat)
    requires src < op0 <= opLimit <= bufLimit <= a.Length && op0 - src < 8
    requires b == src && pat == op0 - src && Filled(a, s, b, pat, op0) && Untouched(a, s, bufLimit)
    modifies a
    ensures opLimit <= v && Filled(a, s, b, pat, v) && Untouched(a, s, bufLimit)
  {
    var op := op0;
    var patternSize := op0 - src;
    if op + 16 <= bufLimit {
      var pattern := ShuffledPattern(a, src, patternSize, s);
      patternSize := patternSize * (16 / patternSize);
      WholePatterns(pat);
      while op < opLimit && op + 15 < bufLimit
        invariant op0 <= op <= bufLimit && (op - src) % pat == 0
        invariant Filled(a, s, b, pat, op) && Untouched(a, s, bufLimit)
      {
        op := StorePattern(a, src, op, pattern, patternSize, s, b, pat, bufLimit);
      }
      if op >= opLimit {
        return op;
      }
    }
    IncrementalCopySlow(a, src, op, opLimit, s, b, pat, bufLimit);
    v := if op < opLimit then opLimit else op;
  }

  lemma WholePatterns(pat: nat)
    requires 1 <= pat < 8
    ensures 1 <= pat * (16 / pat) <= 16 && pat * (16 / pat) % pat == 0
  {
    assert pat == 1 || pat == 2 || pat == 3 || pat == 4 || pat == 5 || pat == 6 || pat == 7;
  }

  method ShuffledPattern(a: array<Byte>, src: nat, pat: nat, ghost s: seq<Byte>) returns (pattern: seq<Byte>)
    requires 1 <= pat < 8 && src + 8 <= a.Length == |s| && Filled(a, s, src, pat, src + pat)
    ensures |pattern| == 16 && forall j :: 0 <= j < 16 ==> pattern[j] == s[src + j % pat]
  {
    var low := a[src..src + 8];
    FillPatterns(pat);
    var mask := FILL_PATTERNS[pat - 1];
    pattern := seq(16, j requires 0 <= j < 16 => low[mask[j]]);
    forall j | 0 <= j < 16 ensures pattern[j] == s[src + j % pat] {
      SmallMod(j % pat, pat);
      assert a[src + j % pat] == Repetition(s, src, pat, src + j % pat);
    }
  }

  method StorePattern(a: array<Byte>, src: nat, op: nat, pattern: seq<Byte>, step: nat,
                      ghost s: seq<Byte>, ghost b: nat, ghost pat: nat, ghost limit: nat)
    returns (op': nat)
    requires 1 <= pat && b == src <= op && (op - src) % pat == 0 && op + 16 <= limit
    requires 1 <= step <= 16 && step % pat == 0
    requires Filled(a, s, b, pat, op) && Untouched(a, s, limit)
    requires |pattern| == 16 && forall j :: 0 <= j < 16 ==> pattern[j] == s[src + j % pat]
    modifies a
    ensures op' == op + step && (op' - src) % pat == 0
    ensures Filled(a, s, b, pat, op') && Untouched(a, s, limit)
  {
    forall j | 0 <= j < 16 ensures pattern[j] == Repetition(s, b, pat, op + j) {
      ModShift(op + j - b, op - src, pat);
    }
    ModShift(op + step - src, op - src, pat);
    hide Repetition;
    forall j | 0 <= j < 16 {
      a[op + j] := pattern[j];
    }
    op' := op + step;
  }

  /** The portable branch: double the pattern until it is at least eight bytes. */
  method DoublingCopy(a: array<Byte>, src: nat, op0: nat, opLimit: nat, bufLimit: nat,
                      ghost s: seq<Byte>, ghost b: nat, ghost pat: nat)
    returns (ghost v: nat)
    requires src < op0 <= opLimit <= bufLimit <= a.Length && op0 - src < 8 && opLimit - op0 <= 64
    requires b == src && pat == op0 - src && Filled(a, s, b, pat, op0) && Untouched(a, s, bufLimit)
    modifies a
    ensures opLimit <= v && Filled(a, s, b, pat, v) && Untouched(a, s, bufLimit)
  {
    if op0 + 11 > bufLimit {
      IncrementalCopySlow(a, src, op0, opLimit, s, b, pat, bufLimit);
      return if op0 < opLimit then opLimit else op0;
    }
    var op := ExpandPattern(a, src, op0, bufLimit, s, pat);
    if op >= opLimit {
      return op;
    }
    v := WideCopy(a, src, op, opLimit, bufLimit, s, b, pat);
  }

  lemma Multiples(pat: nat)
    requires 1 <= pat
    ensures pat % pat == 0 && 2 * pat % pat == 0 && 4 * pat % pat == 0 && 8 * pat % pat == 0
  {
    ModUnique(1, pat, 0);
    ModUnique(2, pat, 0);
    ModUnique(4, pat, 0);
    ModUnique(8, pat, 0);
  }

  method ExpandPattern(a: array<Byte>, src: nat, op0: nat, bufLimit: nat, ghost s: seq<Byte>, ghost pat: nat)
    returns (op: nat)
    requires src < op0 && op0 - src < 8 && op0 + 11 <= bufLimit <= a.Length
    requires pat == op0 - src && Filled(a, s, src, pat, op0) && Untouched(a, s, bufLimit)
    modifies a
    ensures op0 <= op && src + 8 <= op && (op - src) % pat == 0
    ensures Filled(a, s, src, pat, op) && Untouched(a, s, bufLimit)
  {
    op := op0;
    var patternSize := op0 - src;
    while patternSize < 8
      invariant patternSize == pat || patternSize == 2 * pat || patternSize == 4 * pat || patternSize == 8 * pat
      invariant pat <= patternSize < 16 && op == src + patternSize
      invariant Filled(a, s, src, pat, op) && Untouched(a, s, bufLimit)
      decreases 8 - patternSize
    {
      assert patternSize % pat == 0 by { Multiples(pat); }
      UnalignedCopy64(a, src, op, s, src, pat, bufLimit);
      op := op + patternSize;
      patternSize := patternSize * 2;
    }
    Multiples(pat);
  }

  /** The common tail: sixteen bytes at a time, four blocks straight when there is
      room behind opLimit, otherwise as far as the buffer allows. */
  method WideCopy(a: array<Byte>, src0: nat, op0: nat, opLimit: nat, bufLimit: nat,
                  ghost s: seq<Byte>, ghost b: nat, ghost pat: nat)
    returns (ghost v: nat)
    requires b <= src0 && src0 + 8 <= op0 <= opLimit <= bufLimit <= a.Length && opLimit - op0 <= 64
    requires Filled(a, s, b, pat, op0) && Untouched(a, s, bufLimit) && (op0 - src0) % pat == 0
    modifies a
    ensures opLimit <= v && Filled(a, s, b, pat, v) && Untouched(a, s, bufLimit)
  {
    if opLimit + 16 <= bufLimit {
      Copy16(a, src0, op0, s, b, pat, bufLimit);
      v := op0 + 16;
      if op0 + 16 < opLimit {
        Copy16(a, src0 + 16, op0 + 16, s, b, pat, bufLimit);
        v := op0 + 32;
      }
      if op0 + 32 < opLimit {
        Copy16(a, src0 + 32, op0 + 32, s, b, pat, bufLimit);
        v := op0 + 48;
      }
      if op0 + 48 < opLimit {
        Copy16(a, src0 + 48, op0 + 48, s, b, pat, bufLimit);
        v := op0 + 64;
      }
      return;
    }
    var src, op := src0, op0;
    while op + 16 < bufLimit
      invariant op - src == op0 - src0 && op0 <= op <= bufLimit
      invariant Filled(a, s, b, pat, op) && Untouched(a, s, bufLimit)
    {
      Copy16(a, src, op, s, b, pat, bufLimit);
      src, op := src + 16, op + 16;
    }
    if op >= opLimit {
      return op;
    }
    if op + 8 <= bufLimit {
      UnalignedCopy64(a, src, op, s, b, pat, bufLimit);
      src, op := src + 8, op + 8;
    }
    IncrementalCopySlow(a, src, op, opLimit, s, b, pat, bufLimit);
    v := if op < opLimit then opLimit else op;
  }
}
