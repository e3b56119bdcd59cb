/**
 Word-level helpers of the codec: unaligned loads, the portable bit scans, the
 32-bit varint, and the word-at-a-time match finder
 (snappy-stubs-internal.h and snappy-internal.h).
 */
module SnappyBits {
  import opened Basics
  import opened SnappyFormat

  type Uint32 = x: int | 0 <= x < 0x1_0000_0000

  function Load32(s: seq<Byte>, i: nat): (r: Uint32)
    requires i + 4 <= |s|
  {
    LEBound(s[i..i + 4]);
    assert Pow256(4) == 0x1_0000_0000 by { Pow256Values(); }
    LE(s[i..i + 4])
  }

  /** Two loads agree exactly when the bytes loaded agree. */
  lemma {:induction false} LEInjective(a: seq<Byte>, b: seq<Byte>)
    requires |a| == |b|
    ensures LE(a) == LE(b) <==> a == b
  {
    if a != [] {
      LEInjective(a[1..], b[1..]);
      assert a == [a[0]] + a[1..];
      assert b == [b[0]] + b[1..];
    }
  }

  /** The low k bytes of a word are a prefix of its bytes: what ExtractLowBytes keeps. */
  lemma {:induction false} LELow(bs: seq<Byte>, k: nat)
    requires k <= |bs|
    ensures LE(bs) % Pow256(k) == LE(bs[..k])
  {
    if k == 0 {
      assert bs[..0] == [];
    } else {
      LELow(bs[1..], k - 1);
      assert bs[..k][1..] == bs[1..][..k - 1];
      var hi, p := LE(bs[1..]), Pow256(k - 1);
      ModScale(bs[0], hi, p);
    }
  }

  lemma ModScale(b: Byte, hi: nat, p: nat)
    requires p >= 1
    ensures (b + 256 * hi) % (256 * p) == b + 256 * (hi % p)
  {
    var q, m := hi / p, hi % p;
    assert hi == q * p + m;
    assert b + 256 * hi == q * (256 * p) + (b + 256 * m);
    ModUnique(q, 256 * p, b + 256 * m);
  }

  lemma ModUnique(q: nat, d: nat, m: nat)
    requires m < d
    ensures (q * d + m) % d == m && (q * d + m) / d == q
  {
    var x := q * d + m;
    var q', m' := x / d, x % d;
    assert x == q' * d + m';
    if q' < q {
      MulMono(q' + 1, q, d);
    } else if q < q' {
      MulMono(q + 1, q', d);
    }
  }

  lemma MulMono(a: nat, b: nat, d: nat)
    requires a <= b
    ensures a * d <= b * d
  {}

  lemma DoubleMul(p: nat, a: nat)
    ensures (2 * p) * a == 2 * (p * a)
  {}

  // ----- Bit scans --------------------------------------------------------------

  function Xor(a: nat, b: nat): nat
    decreases a + b
  {
    if a == 0 && b == 0 then 0
    else (if a % 2 == b % 2 then 0 else 1) + 2 * Xor(a / 2, b / 2)
  }

  /** The index of the lowest set bit. */
  function Ctz(x: nat): nat
    requires x > 0
  {
    if x % 2 == 1 then 0 else 1 + Ctz(x / 2)
  }

  lemma {:induction false} Log2Shift(n: nat, k: nat)
    requires n / Pow2(k) > 0
    ensures n > 0 && Log2(n) == k + Log2(n / Pow2(k))
  {
    if k > 0 {
      var p := Pow2(k - 1);
      DivDiv(n, p);
      Log2Shift(n / 2, k - 1);
    }
  }

  lemma DivDiv(n: nat, p: nat)
    requires p >= 1
    ensures n / (2 * p) == n / 2 / p
  {
    var h := n / 2;
    var q, m := h / p, h % p;
    assert n == q * (2 * p) + (2 * m + n % 2);
    ModUnique(q, 2 * p, 2 * m + n % 2);
  }

  lemma {:induction false} DivZero(n: nat, k: nat)
    requires n / Pow2(k) == 0
    ensures n < Pow2(k)
  {
    var p := Pow2(k);
    assert n == n / p * p + n % p;
  }

  lemma {:induction false} DivSmall(n: nat, p: nat, q: nat)
    requires p >= 1 && n < p * q
    ensures 0 <= n / p < q
  {
    var d := n / p;
    assert n == d * p + n % p;
    if d >= q {
      MulMono(q, d, p);
    }
  }

  lemma Pow2Values()
    ensures Pow2(1) == 2 && Pow2(2) == 4 && Pow2(4) == 16 && Pow2(8) == 0x100
    ensures Pow2(16) == 0x1_0000 && Pow2(32) == 0x1_0000_0000
  {
    assert Pow2(3) == 8;
    assert Pow2(5) == 32 && Pow2(6) == 64 && Pow2(7) == 128;
    Pow2Sum(8, 8);
    Pow2Sum(16, 16);
  }

  lemma Log2Step(value: nat, shift: nat)
    requires 0 < value < Pow2(2 * shift)
    ensures var x := value / Pow2(shift);
            if x != 0 then 0 < x < Pow2(shift) && Log2(value) == shift + Log2(x) else value < Pow2(shift)
  {
    Pow2Sum(shift, shift);
    DivSmall(value, Pow2(shift), Pow2(shift));
    if value / Pow2(shift) != 0 {
      Log2Shift(value, shift);
    } else {
      DivZero(value, shift);
    }
  }

  /** Bits::Log2FloorNonZero, the portable version: five halving probes. */
  method Log2FloorNonZero(n: Uint32) returns (log: nat)
    requires n > 0
    ensures log == Log2(n) < 32
  {
    log := 0;
    var value: nat := n;
    var shift: nat := 16;
    Pow2Values();
    while shift > 0
      invariant shift == 16 || shift == 8 || shift == 4 || shift == 2 || shift == 1 || shift == 0
      invariant 0 < value && (shift > 0 ==> value < Pow2(2 * shift)) && (shift == 0 ==> value == 1)
      invariant Log2(n) == log + Log2(value)
      invariant shift > 0 ==> log + 2 * shift <= 32
      invariant shift == 0 ==> log < 32
    {
      Log2Step(value, shift);
      var x := value / Pow2(shift);
      if x != 0 {
        value := x;
        log := log + shift;
      }
      shift := shift / 2;
    }
  }

  lemma {:induction false} CtzBound(n: nat, m: nat)
    requires 0 < n < Pow2(m)
    ensures Ctz(n) < m
  {
    if n % 2 == 0 {
      CtzBound(n / 2, m - 1);
    }
  }

  lemma {:induction false} CtzShift(n: nat, k: nat)
    requires n > 0
    ensures n * Pow2(k) > 0 && Ctz(n * Pow2(k)) == Ctz(n) + k
  {
    if k > 0 {
      CtzShift(n, k - 1);
      assert n * Pow2(k) == 2 * (n * Pow2(k - 1));
    }
  }

  /** The remainder modulo a power of two, one bit at a time. */
  lemma ModStep(n: nat, m: nat)
    requires m > 0
    ensures n % Pow2(m) == 2 * (n / 2 % Pow2(m - 1)) + n % 2
  {
    var p := Pow2(m - 1);
    var q, r := n / 2 / p, n / 2 % p;
    HalfSplit(n, q, p, r);
    ModUnique(q, 2 * p, 2 * r + n % 2);
  }

  lemma HalfSplit(n: nat, q: nat, p: nat, r: nat)
    requires n / 2 == q * p + r
    ensures n == q * (2 * p) + (2 * r + n % 2)
  {}

  /** Dropping high bits leaves the lowest set bit where it was, or leaves nothing. */
  lemma {:induction false} CtzMod(n: nat, m: nat)
    requires n > 0
    ensures n % Pow2(m) == 0 <==> Ctz(n) >= m
    ensures n % Pow2(m) != 0 ==> Ctz(n % Pow2(m)) == Ctz(n)
  {
    if m > 0 {
      ModStep(n, m);
      if n % 2 == 0 {
        CtzMod(n / 2, m - 1);
      }
      hide Pow2;
      CtzTwice(n, n / 2 % Pow2(m - 1));
    }
  }

  lemma CtzTwice(n: nat, r: nat)
    requires n > 0
    ensures n % 2 == 1 ==> Ctz(n) == 0 && Ctz(2 * r + n % 2) == 0
    ensures n % 2 == 0 ==> Ctz(n) == 1 + Ctz(n / 2) && (r > 0 ==> Ctz(2 * r + n % 2) == 1 + Ctz(r))
  {}

  /** Bits::FindLSBSetNonZero, the portable version: shift left in 32 bits until
      only the lowest set bit can remain. */
  method FindLSBSetNonZero(n0: Uint32) returns (rc: nat)
    requires n0 > 0
    ensures rc == Ctz(n0)
  {
    var n := n0;
    rc := 31;
    var shift := 16;
    Pow2Values();
    CtzBound(n, 32);
    while shift > 0
      invariant shift in {0, 1, 2, 4, 8, 16}
      invariant 0 < n < 0x1_0000_0000 && Ctz(n) < 32
      invariant Ctz(n) >= 32 - (if shift == 0 then 1 else 2 * shift)
      invariant rc + Ctz(n) == Ctz(n0) + 31
    {
      var x := n * Pow2(shift) % 0x1_0000_0000;
      CtzShift(n, shift);
      CtzMod(n * Pow2(shift), 32);
      if x != 0 {
        CtzBound(x, 32);
        n := x;
        rc := rc - shift;
      }
      shift := shift / 2;
    }
  }

  /** Bits::FindLSBSetNonZero64, from two scans of 32 bits. */
  method FindLSBSetNonZero64(n: nat) returns (rc: nat)
    requires 0 < n < 0x1_0000_0000_0000_0000
    ensures rc == Ctz(n)
  {
    Pow2Values();
    hide Ctz;
    var bottom, top := n % 0x1_0000_0000, n / 0x1_0000_0000;
    CtzMod(n, 32);
    if bottom == 0 {
      CtzShift(top, 32);
      var high := FindLSBSetNonZero(top);
      rc := 32 + high;
    } else {
      rc := FindLSBSetNonZero(bottom);
    }
  }

  lemma {:induction false} XorBound(a: nat, b: nat, k: nat)
    requires a < Pow2(k) && b < Pow2(k)
    ensures Xor(a, b) < Pow2(k)
    decreases k
  {
    if k > 0 && !(a == 0 && b == 0) {
      XorBound(a / 2, b / 2, k - 1);
    }
  }

  /** a with the k low bits of x put behind it. */
  function Shifted(a: nat, k: nat, x: nat): nat {
    if k == 0 then a else 2 * Shifted(a, k - 1, x / 2) + x % 2
  }

  lemma {:induction false} ShiftedValue(a: nat, k: nat, x: nat)
    requires x < Pow2(k)
    ensures Shifted(a, k, x) == Pow2(k) * a + x
  {
    if k > 0 {
      ShiftedValue(a, k - 1, x / 2);
      DoubleMul(Pow2(k - 1), a);
    }
  }

  /** Equal low bits move the lowest differing bit up. */
  lemma {:induction false} CtzSameLow(a: nat, b: nat, x: nat, k: nat)
    requires Xor(a, b) > 0
    ensures Xor(Shifted(a, k, x), Shifted(b, k, x)) > 0
    ensures Ctz(Xor(Shifted(a, k, x), Shifted(b, k, x))) == k + Ctz(Xor(a, b))
  {
    if k > 0 {
      CtzSameLow(a, b, x / 2, k - 1);
      XorEven(Shifted(a, k - 1, x / 2), Shifted(b, k - 1, x / 2), x % 2);
    }
  }

  lemma XorStep(a: nat, b: nat, bit: nat)
    requires bit < 2
    ensures Xor(2 * a + bit, 2 * b + bit) == 2 * Xor(a, b)
  {
    HalfOf(a, bit);
    HalfOf(b, bit);
  }

  lemma HalfOf(a: nat, bit: nat)
    requires bit < 2
    ensures (2 * a + bit) / 2 == a && (2 * a + bit) % 2 == bit
  {}

  lemma XorOdd(a: nat, b: nat, x: nat, y: nat)
    requires x < 2 && y < 2 && x != y
    ensures Xor(2 * a + x, 2 * b + y) % 2 == 1
  {
    HalfOf(a, x);
    HalfOf(b, y);
  }

  lemma XorEven(a: nat, b: nat, bit: nat)
    requires bit < 2 && Xor(a, b) > 0
    ensures Xor(2 * a + bit, 2 * b + bit) > 0
    ensures Ctz(Xor(2 * a + bit, 2 * b + bit)) == 1 + Ctz(Xor(a, b))
  {
    XorStep(a, b, bit);
  }

  lemma Halves(x: nat, y: nat, k: nat)
    requires x < Pow2(k) && y < Pow2(k) && x != y
    ensures k > 0 && x / 2 < Pow2(k - 1) && y / 2 < Pow2(k - 1) && (x % 2 == y % 2 ==> x / 2 != y / 2)
  {}

  /** Different low bits keep the lowest set bit among them. */
  lemma {:induction false} CtzLow(a: nat, b: nat, x: nat, y: nat, k: nat)
    requires x < Pow2(k) && y < Pow2(k) && x != y
    ensures Xor(Shifted(a, k, x), Shifted(b, k, y)) > 0
    ensures Ctz(Xor(Shifted(a, k, x), Shifted(b, k, y))) < k
  {
    hide Pow2, Xor;
    Halves(x, y, k);
    var u, v := Shifted(a, k - 1, x / 2), Shifted(b, k - 1, y / 2);
    assert Shifted(a, k, x) == 2 * u + x % 2 && Shifted(b, k, y) == 2 * v + y % 2;
    hide Shifted;
    if x % 2 == y % 2 {
      CtzLow(a, b, x / 2, y / 2, k - 1);
      XorEven(u, v, x % 2);
    } else {
      XorOdd(u, v, x % 2, y % 2);
    }
  }

  /** One byte in front of two words either decides the lowest differing bit or
      moves it up by eight. */
  lemma CtzByte(x: Byte, y: Byte, a: nat, b: nat)
    requires x != y || Xor(a, b) > 0
    ensures Xor(x + 256 * a, y + 256 * b) > 0
    ensures var k := Ctz(Xor(x + 256 * a, y + 256 * b));
            if x != y then k < 8 else k == 8 + Ctz(Xor(a, b))
  {
    Pow2Values();
    ShiftedValue(a, 8, x);
    ShiftedValue(b, 8, y);
    if x != y {
      CtzLow(a, b, x, y, 8);
    } else {
      CtzSameLow(a, b, x, 8);
    }
  }

  /** a and b differ first at position k. */
  predicate DifferAt(a: seq<Byte>, b: seq<Byte>, k: nat) {
    k < |a| && k < |b| && a[..k] == b[..k] && a[k] != b[k]
  }

  lemma DifferFirst(a: seq<Byte>, b: seq<Byte>)
    requires a != [] && b != [] && a[0] != b[0]
    ensures DifferAt(a, b, 0)
  {}

  lemma LEHead(bs: seq<Byte>)
    requires bs != []
    ensures LE(bs) == bs[0] + 256 * LE(bs[1..])
  {}

  lemma NextByte(bit: nat)
    ensures (8 + bit) / 8 == bit / 8 + 1
  {}

  lemma TailsDiffer(a: seq<Byte>, b: seq<Byte>)
    requires |a| == |b| && a != b && a != [] && a[0] == b[0]
    ensures a[1..] != b[1..]
  {
    assert a == [a[0]] + a[1..] && b == [b[0]] + b[1..];
  }

  lemma DifferLater(a: seq<Byte>, b: seq<Byte>, k: nat)
    requires a != [] && b != [] && a[0] == b[0] && DifferAt(a[1..], b[1..], k)
    ensures DifferAt(a, b, k + 1)
  {
    assert a[..k + 1] == [a[0]] + a[1..][..k];
    assert b[..k + 1] == [b[0]] + b[1..][..k];
  }

  /** The lowest differing bit of two little-endian words sits in their first
      differing byte. */
  lemma {:induction false} FirstDifference(a: seq<Byte>, b: seq<Byte>)
    requires |a| == |b| && a != b
    ensures Xor(LE(a), LE(b)) > 0
    ensures DifferAt(a, b, Ctz(Xor(LE(a), LE(b))) / 8)
  {
    hide Xor, Ctz, LE, DifferAt;
    var x, y := LE(a[1..]), LE(b[1..]);
    LEHead(a);
    LEHead(b);
    if a[0] != b[0] {
      CtzByte(a[0], b[0], x, y);
      DifferFirst(a, b);
    } else {
      TailsDiffer(a, b);
      FirstDifference(a[1..], b[1..]);
      CtzByte(a[0], b[0], x, y);
      NextByte(Ctz(Xor(x, y)));
      DifferLater(a, b, Ctz(Xor(x, y)) / 8);
    }
  }

  // ----- Match finder -----------------------------------------------------------

  /** s repeats at position p what it has j - i bytes earlier. */
  predicate Repeats(s: seq<Byte>, i: nat, j: nat, p: nat) {
    i <= j <= p < |s| && s[p] == s[p - j + i]
  }

  ghost predicate MatchesSoFar(s: seq<Byte>, i: nat, j: nat, n: nat)
    requires i <= j && j + n <= |s|
  {
    forall p :: j <= p < j + n ==> Repeats(s, i, j, p)
  }

  /** n is the longest common prefix of s[i..] and s[j..limit]. */
  ghost predicate LongestMatch(s: seq<Byte>, i: nat, j: nat, limit: nat, n: nat) {
    && i <= j && j + n <= limit <= |s|
    && MatchesSoFar(s, i, j, n)
    && (j + n < limit ==> s[i + n] != s[j + n])
  }

  /** Compares w bytes as two words, UNALIGNED_LOAD(s1 + matched) == UNALIGNED_LOAD(s2). */
  method SameWord(s: seq<Byte>, i: nat, j: nat, n: nat, w: nat) returns (same: bool)
    requires i <= j && j + n + w <= |s| && MatchesSoFar(s, i, j, n)
    ensures same ==> MatchesSoFar(s, i, j, n + w)
    ensures same == (s[i + n..i + n + w] == s[j + n..j + n + w])
  {
    var a, b := s[i + n..i + n + w], s[j + n..j + n + w];
    same := LE(a) == LE(b);
    LEInjective(a, b);
    if same {
      forall p | j + n <= p < j + n + w ensures Repeats(s, i, j, p) {
        assert a[p - j - n] == b[p - j - n];
      }
    }
  }

  /** FindLSBSetNonZero(word1 ^ word2) >> 3: the byte where two words part. */
  method DifferingByte(s: seq<Byte>, i: nat, j: nat, n: nat, w: nat) returns (d: nat)
    requires w in {4, 8} && i <= j && j + n + w <= |s| && MatchesSoFar(s, i, j, n)
    requires s[i + n..i + n + w] != s[j + n..j + n + w]
    ensures d < w && MatchesSoFar(s, i, j, n + d) && s[i + n + d] != s[j + n + d]
  {
    var a, b := s[i + n..i + n + w], s[j + n..j + n + w];
    FirstDifference(a, b);
    hide Xor, Ctz, LE, MatchesSoFar, DifferAt;
    XorOfWords(a, b);
    var bit;
    if w == 8 {
      bit := FindLSBSetNonZero64(Xor(LE(a), LE(b)));
    } else {
      bit := FindLSBSetNonZero(Xor(LE(a), LE(b)));
    }
    d := bit / 8;
    SlicesRepeat(s, i, j, n, w, d);
  }

  lemma XorOfWords(a: seq<Byte>, b: seq<Byte>)
    requires |a| == |b| && |a| in {4, 8}
    ensures Xor(LE(a), LE(b)) < if |a| == 8 then 0x1_0000_0000_0000_0000 else 0x1_0000_0000
  {
    LEBound(a);
    LEBound(b);
    hide LE, Xor;
    Pow256Values();
    Pow2Values();
    Pow2Sum(32, 32);
    XorBound(LE(a), LE(b), 8 * |a|);
  }

  /** Where two slices agree up to their first difference, the later one repeats the earlier. */
  lemma SlicesRepeat(s: seq<Byte>, i: nat, j: nat, n: nat, w: nat, d: nat)
    requires i <= j && j + n + w <= |s| && MatchesSoFar(s, i, j, n)
    requires DifferAt(s[i + n..i + n + w], s[j + n..j + n + w], d)
    ensures d < w && MatchesSoFar(s, i, j, n + d) && s[i + n + d] != s[j + n + d]
  {
    var a, b := s[i + n..i + n + w], s[j + n..j + n + w];
    assert a[d] == s[i + n + d] && b[d] == s[j + n + d];
    forall p | j + n <= p < j + n + d ensures Repeats(s, i, j, p) {
      var x := p - j - n;
      assert a[..d][x] == a[x] == s[i + n + x] && b[..d][x] == b[x] == s[p];
    }
  }

  lemma MatchStarts(s: seq<Byte>, i: nat, j: nat)
    requires i <= j <= |s|
    ensures MatchesSoFar(s, i, j, 0)
  {}

  lemma MatchGrows(s: seq<Byte>, i: nat, j: nat, n: nat)
    requires i <= j && j + n < |s| && MatchesSoFar(s, i, j, n) && s[i + n] == s[j + n]
    ensures MatchesSoFar(s, i, j, n + 1)
  {}

  /** FindMatchLength for 64-bit little-endian machines.  s1 = s[i..], s2 = s[j..]. */
  method FindMatchLength64(s: seq<Byte>, i: nat, j: nat, limit: nat) returns (matched: nat, lessThan8: bool)
    requires i <= j <= limit <= |s|
    ensures LongestMatch(s, i, j, limit, matched)
    ensures lessThan8 == (matched < 8)
  {
    MatchStarts(s, i, j);
    hide MatchesSoFar;
    matched := 0;
    if j + 8 <= limit {
      var same := SameWord(s, i, j, 0, 8);
      if !same {
        matched := DifferingByte(s, i, j, 0, 8);
        return matched, true;
      }
      matched := 8;
    }
    while j + matched + 8 <= limit
      invariant j + matched <= limit && MatchesSoFar(s, i, j, matched)
      invariant j + 8 <= limit ==> matched >= 8
    {
      var same := SameWord(s, i, j, matched, 8);
      if same {
        matched := matched + 8;
      } else {
        var d := DifferingByte(s, i, j, matched, 8);
        return matched + d, false;
      }
    }
    while j + matched < limit
      invariant j + matched <= limit && MatchesSoFar(s, i, j, matched)
    {
      if s[i + matched] == s[j + matched] {
        MatchGrows(s, i, j, matched);
        matched := matched + 1;
      } else {
        return matched, matched < 8;
      }
    }
    return matched, matched < 8;
  }

  /** FindMatchLength for other machines, four bytes at a time. */
  method FindMatchLength32(s: seq<Byte>, i: nat, j: nat, limit: nat, littleEndian: bool)
    returns (matched: nat, lessThan8: bool)
    requires i <= j <= limit <= |s|
    ensures LongestMatch(s, i, j, limit, matched)
    ensures lessThan8 == (matched < 8)
  {
    MatchStarts(s, i, j);
    hide MatchesSoFar;
    matched := 0;
    var same := true;
    while j + matched + 4 <= limit && same
      invariant j + matched <= limit && MatchesSoFar(s, i, j, matched)
      invariant !same ==> j + matched + 4 <= limit && s[i + matched..i + matched + 4] != s[j + matched..j + matched + 4]
      decreases limit - matched, same
    {
      same := SameWord(s, i, j, matched, 4);
      if same {
        matched := matched + 4;
      }
    }
    if littleEndian && j + matched + 4 <= limit {
      var d := DifferingByte(s, i, j, matched, 4);
      matched := matched + d;
    } else {
      while j + matched < limit && s[i + matched] == s[j + matched]
        invariant j + matched <= limit && MatchesSoFar(s, i, j, matched)
      {
        MatchGrows(s, i, j, matched);
        matched := matched + 1;
      }
    }
    lessThan8 := matched < 8;
  }

  // ----- Varint -----------------------------------------------------------------

  /** The base-128 encoding, low digit first, every digit but the last marked. */
  function Varint(v: nat): (r: seq<Byte>)
    ensures |r| >= 1
  {
    if v < 128 then [v] else [v % 128 + 128] + Varint(v / 128)
  }

  /** Varint::Encode32: a cascade on the number of digits.  The narrowing stores keep
      the low eight bits of v | 128. */
  method Encode32(v: Uint32) returns (r: seq<Byte>)
    ensures r == Varint(v) && 1 <= |r| <= 5
  {
    VarintDigits(v);
    if v < 0x80 {
      r := [v];
    } else if v < 0x4000 {
      r := [v % 128 + 128, v / 0x80];
    } else if v < 0x20_0000 {
      r := [v % 128 + 128, v / 0x80 % 128 + 128, v / 0x4000];
    } else if v < 0x1000_0000 {
      r := [v % 128 + 128, v / 0x80 % 128 + 128, v / 0x4000 % 128 + 128, v / 0x20_0000];
    } else {
      r := [v % 128 + 128, v / 0x80 % 128 + 128, v / 0x4000 % 128 + 128, v / 0x20_0000 % 128 + 128, v / 0x1000_0000];
    }
  }

  lemma VarintDigits(v: Uint32)
    ensures v >= 0x80 ==> Varint(v) == [v % 128 + 128] + Varint(v / 0x80)
    ensures v >= 0x4000 ==> Varint(v / 0x80) == [v / 0x80 % 128 + 128] + Varint(v / 0x4000)
    ensures v >= 0x20_0000 ==> Varint(v / 0x4000) == [v / 0x4000 % 128 + 128] + Varint(v / 0x20_0000)
    ensures v >= 0x1000_0000 ==> Varint(v / 0x20_0000) == [v / 0x20_0000 % 128 + 128, v / 0x1000_0000]
  {
    var a := v / 128;
    var b := a / 128;
    var c := b / 128;
    var d := c / 128;
    assert a == v / 0x80 && b == v / 0x4000 && c == v / 0x20_0000 && d == v / 0x1000_0000;
    assert d < 16 && Varint(d) == [d];
  }

  /** 128^4 * 16 is the first value that does not fit. */
  ghost predicate FitsFrom(v: nat, k: nat) {
    k <= 4 && (k == 4 ==> v < 16) && (k == 3 ==> v < 0x800) && (k == 2 ==> v < 0x4_0000)
    && (k == 1 ==> v < 0x200_0000) && (k == 0 ==> v < 0x1_0000_0000)
  }

  lemma {:induction false} VarintRoundTrip(s: seq<Byte>, k: nat, v: nat)
    requires FitsFrom(v, k) && k <= |s| && Varint(v) <= s[k..]
    ensures Preamble(s, k) == Some(Header(v * Pow128(k), k + |Varint(v)|))
    decreases v
  {
    assert s[k] == s[k..][0] == Varint(v)[0];
    if v >= 128 {
      assert s[k + 1..] == s[k..][1..];
      assert Varint(v)[1..] == Varint(v / 128);
      VarintRoundTrip(s, k + 1, v / 128);
      ScaleDigit(v, Pow128(k));
    }
  }

  lemma ScaleDigit(v: nat, p: nat)
    ensures v % 128 * p + v / 128 * (128 * p) == v * p
  {
    var q, m := v / 128, v % 128;
    assert v == m + 128 * q;
    assert q * (128 * p) == (128 * q) * p;
  }

  /** The length header round-trips, whatever follows it. */
  lemma VarintThenRest(v: Uint32, rest: seq<Byte>)
    ensures Preamble(Varint(v) + rest, 0) == Some(Header(v, |Varint(v)|))
  {
    hide Preamble, Varint;
    var s := Varint(v) + rest;
    assert s[0..] == s;
    VarintRoundTrip(s, 0, v);
  }

  /** k continuation bytes have been read and add up to sum. */
  ghost predicate PreambleAt(s: seq<Byte>, k: nat, sum: nat) {
    Preamble(s, 0) == match Preamble(s, k)
                      case None => None
                      case Some(rest) => Some(Header(sum + rest.length, rest.size))
  }

  lemma PreambleStep(s: seq<Byte>, k: nat, sum: nat)
    requires k < 5 && k < |s| && PreambleAt(s, k, sum)
    ensures k == 4 && s[k] % 128 >= 16 ==> Preamble(s, 0) == None
    ensures !(k == 4 && s[k] % 128 >= 16) && s[k] < 128 ==>
              Preamble(s, 0) == Some(Header(sum + s[k] % 128 * Pow128(k), k + 1))
    ensures !(k == 4 && s[k] % 128 >= 16) && s[k] >= 128 ==> PreambleAt(s, k + 1, sum + s[k] % 128 * Pow128(k))
  {}

  lemma NoSixthByte(s: seq<Byte>, sum: nat)
    requires PreambleAt(s, 5, sum)
    ensures Preamble(s, 0) == None
  {}

  lemma NoNextByte(s: seq<Byte>, k: nat, sum: nat)
    requires k >= |s| && PreambleAt(s, k, sum)
    ensures Preamble(s, 0) == None
  {}

  lemma Pow128Values()
    ensures Pow128(0) == 1 && Pow128(1) == 0x80 && Pow128(2) == 0x4000
    ensures Pow128(3) == 0x20_0000 && Pow128(4) == 0x1000_0000
  {
    assert Pow128(1) == 128 * Pow128(0);
    assert Pow128(2) == 128 * Pow128(1);
    assert Pow128(3) == 128 * Pow128(2);
  }

  /** One line of Parse32WithLimit: byte k, if there is one. */
  method ParseByte(s: seq<Byte>, k: nat, sum: nat, scale: nat) returns (done: bool, r: Option<Header>, sum': nat)
    requires k < 5 && PreambleAt(s, k, sum) && scale == Pow128(k)
    ensures done ==> r == Preamble(s, 0)
    ensures !done ==> k < 4 && PreambleAt(s, k + 1, sum')
  {
    hide Preamble, PreambleAt, Pow128;
    sum' := sum;
    if k >= |s| {
      NoNextByte(s, k, sum);
      return true, None, sum;
    }
    PreambleStep(s, k, sum);
    var b: nat := s[k];
    sum' := sum + b % 128 * scale;
    if b < (if k < 4 then 128 else 16) {
      return true, Some(Header(sum', k + 1)), sum';
    }
    done := k == 4;
    r := None;
    if done && b % 128 < 16 {
      NoSixthByte(s, sum');
    }
  }

  /** Varint::Parse32WithLimit: five unrolled steps.  It accepts and reads exactly
      what the format's preamble says, on every input. */
  method Parse32WithLimit(s: seq<Byte>) returns (r: Option<Header>)
    ensures r == Preamble(s, 0)
  {
    Pow128Values();
    assert PreambleAt(s, 0, 0);
    var done, sum;
    done, r, sum := ParseByte(s, 0, 0, 1);
    if done { return; }
    done, r, sum := ParseByte(s, 1, sum, 0x80);
    if done { return; }
    done, r, sum := ParseByte(s, 2, sum, 0x4000);
    if done { return; }
    done, r, sum := ParseByte(s, 3, sum, 0x20_0000);
    if done { return; }
    done, r, sum := ParseByte(s, 4, sum, 0x1000_0000);
  }
}
