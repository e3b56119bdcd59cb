/**
 What CompressFragment (snappy.cc) makes of a fragment: the elements it is cut into, as a
 function of the fragment, and what they are without a hash table.
 */
module SnappyChoice {
  import opened Basics
  import opened SnappyFormat
  import opened SnappyBits
  import opened SnappyEmit

  const MIN_TABLE_SIZE: nat := 0x100
  const MAX_TABLE_SIZE: nat := 0x4000
  const INPUT_MARGIN: nat := 15

  /** uint16, the type of a hash table slot: a position in the fragment. */
  type Slot = x: int | 0 <= x < 0x1_0000

  function HashBytes(bytes: Uint32, shift: nat): int {
    bytes * 0x1e35_a7bd % 0x1_0000_0000 / Pow2(shift)
  }

  function Hash(input: seq<Byte>, i: nat, shift: nat): int
    requires i + 4 <= |input|
  {
    HashBytes(Load32(input, i), shift)
  }

  /** shift = 32 - log2(table size), so every hash is a slot of the table. */
  lemma HashInTable(bytes: Uint32, shift: nat)
    requires shift <= 32
    ensures 0 <= HashBytes(bytes, shift) < Pow2(32 - shift)
  {
    Pow2Sum(shift, 32 - shift);
    Pow2Values();
    DivSmall(bytes * 0x1e35_a7bd % 0x1_0000_0000, Pow2(shift), Pow2(32 - shift));
  }

  /** The multiplication mixes the bytes and loses none of them: four bytes can be computed back from
      their hash before it is shifted. */
  lemma HashLosesNothing(bytes: Uint32)
    ensures HashBytes(bytes, 0) * 0x22b5_4b95 % 0x1_0000_0000 == bytes
  {
    var k, inverse, m := 0x1e35_a7bd, 0x22b5_4b95, 0x1_0000_0000;
    assert k * inverse == 1 + m * 0x418_8522;
    var x := bytes * k;
    assert HashBytes(bytes, 0) == x % m;
    assert x == m * (x / m) + x % m;
    assert x * inverse == bytes * (k * inverse) == bytes + m * (bytes * 0x418_8522);
    assert x % m * inverse == bytes + m * (bytes * 0x418_8522 - x / m * inverse);
    ModOf(bytes, bytes * 0x418_8522 - x / m * inverse);
  }

  lemma ModOf(r: Uint32, q: int)
    ensures (r + 0x1_0000_0000 * q) % 0x1_0000_0000 == r
  {}

  // ----- What the compressor chooses ------------------------------------------------
  //
  // The elements a fragment is cut into, as a function of the fragment alone.  It is what
  // makes the output independent of how the source hands out its bytes.

  ghost function HashOf(input: seq<Byte>, i: nat, shift: nat): int {
    if i + 4 <= |input| then Hash(input, i, shift) else 0
  }

  ghost function Look(table: seq<Slot>, h: int): nat {
    if 0 <= h < |table| then table[h] else 0
  }

  ghost function Enter(table: seq<Slot>, h: int, ip: nat): seq<Slot> {
    if 0 <= h < |table| && ip < 0x1_0000 then table[h := ip] else table
  }

  ghost predicate SameFour(input: seq<Byte>, i: nat, j: nat) {
    i + 4 <= |input| && j + 4 <= |input| && input[i..i + 4] == input[j..j + 4]
  }

  datatype Scanned = Nothing | Hit(ip: nat, candidate: nat, table: seq<Slot>)

  /** The first position of the widening scan whose four bytes the table has seen. */
  ghost function Scan(input: seq<Byte>, table: seq<Slot>, shift: nat, ip: nat, skip: nat): Scanned
    requires skip >= 32
    decreases |input| - ip
  {
    var next := ip + skip / 32;
    if next + INPUT_MARGIN > |input| then Nothing
    else
      var h := HashOf(input, ip, shift);
      var c, t := Look(table, h), Enter(table, h, ip);
      if SameFour(input, c, ip) then Hit(ip, c, t) else Scan(input, t, shift, next, skip + skip / 32)
  }

  lemma ScanStep(input: seq<Byte>, table: seq<Slot>, shift: nat, ip: nat, skip: nat)
    requires skip >= 32
    ensures var next, h := ip + skip / 32, HashOf(input, ip, shift);
            var c, t := Look(table, h), Enter(table, h, ip);
            Scan(input, table, shift, ip, skip) ==
            if next + INPUT_MARGIN > |input| then Nothing
            else if SameFour(input, c, ip) then Hit(ip, c, t) else Scan(input, t, shift, next, skip + skip / 32)
  {}

  lemma Entered(was: seq<Slot>, now: seq<Slot>, h: nat, ip: nat)
    requires h < |was| && ip < 0x1_0000 && now == was[h := ip]
    ensures now == Enter(was, h, ip) && Look(was, h) == was[h]
  {}

  /** The length of the longest match of input[i..] with input[j..]. */
  ghost function Lcp(input: seq<Byte>, i: nat, j: nat): nat
    decreases |input| - j
  {
    if i <= j < |input| && input[i] == input[j] then 1 + Lcp(input, i + 1, j + 1) else 0
  }

  /** The table after both positions at the end of a copy have been entered, and what it had
      for the second. */
  ghost function Probed(input: seq<Byte>, table: seq<Slot>, shift: nat, ip: nat): (nat, seq<Slot>)
    requires ip > 0
  {
    var t := Enter(table, HashOf(input, ip - 1, shift), ip - 1);
    (Look(t, HashOf(input, ip, shift)), Enter(t, HashOf(input, ip, shift), ip))
  }

  datatype Copied = Copied(es: seq<Element>, ip: nat, nearEnd: bool, table: seq<Slot>)

  /** The copies from ip on, as long as the position behind one matches again. */
  ghost function Copies(input: seq<Byte>, table: seq<Slot>, shift: nat, ip: nat, candidate: nat): Copied
    decreases |input| - ip
  {
    var matched := 4 + Lcp(input, candidate + 4, ip + 4);
    var end := ip + matched;
    var es := if 0 < ip - candidate < 0x1_0000 then Pieces(ip - candidate, matched) else [];
    if end + INPUT_MARGIN >= |input| then Copied(es, end, true, table)
    else
      var (c, t) := Probed(input, table, shift, end);
      if SameFour(input, c, end) then Behind(es, Copies(input, t, shift, end, c)) else Copied(es, end, false, t)
  }

  ghost function Behind(es: seq<Element>, rest: Copied): Copied {
    rest.(es := es + rest.es)
  }

  lemma CopiesStep(input: seq<Byte>, table: seq<Slot>, shift: nat, ip: nat, candidate: nat)
    requires 0 < ip - candidate < 0x1_0000
    ensures var end := ip + 4 + Lcp(input, candidate + 4, ip + 4);
            var es := Pieces(ip - candidate, end - ip);
            var (c, t) := Probed(input, table, shift, end);
            Copies(input, table, shift, ip, candidate) ==
            if end + INPUT_MARGIN >= |input| then Copied(es, end, true, table)
            else if SameFour(input, c, end) then Behind(es, Copies(input, t, shift, end, c))
            else Copied(es, end, false, t)
  {}

  lemma BehindNothing(rest: Copied)
    ensures Behind([], rest) == rest
  {
    assert [] + rest.es == rest.es;
  }

  lemma BehindLast(a: seq<Element>, b: seq<Element>, ip: nat, nearEnd: bool, table: seq<Slot>)
    ensures Behind(a, Copied(b, ip, nearEnd, table)) == Copied(a + b, ip, nearEnd, table)
  {}

  lemma BehindTwice(a: seq<Element>, b: seq<Element>, rest: Copied)
    ensures Behind(a, Behind(b, rest)) == Behind(a + b, rest)
  {}

  /** The unmatched bytes at the end, as one literal. */
  ghost function Trailing(input: seq<Byte>, k: nat): seq<Element> {
    if k < |input| then [Literal(input[k..])] else []
  }

  /** One literal, then copies, and so on; k is where the literal begins. */
  ghost function Elements(input: seq<Byte>, table: seq<Slot>, shift: nat, ip: nat, k: nat): seq<Element>
    decreases |input| - ip
  {
    match Scan(input, table, shift, ip, 32)
    case Nothing => Trailing(input, k)
    case Hit(at, candidate, t) =>
      if at < ip || k > at || at > |input| then []
      else
        var copied := Copies(input, t, shift, at, candidate);
        var es := [Literal(input[k..at])] + copied.es;
        if copied.nearEnd || copied.ip < ip then es + Trailing(input, copied.ip)
        else es + Elements(input, copied.table, shift, copied.ip + 1, copied.ip)
  }

  /** First a, then b. */
  ghost function Then(a: seq<Element>, b: seq<Element>): seq<Element> {
    a + b
  }

  lemma NothingThen(b: seq<Element>)
    ensures Then([], b) == b
  {}

  lemma ElementsEnd(input: seq<Byte>, table: seq<Slot>, shift: nat, ip: nat, k: nat)
    requires Scan(input, table, shift, ip, 32) == Nothing
    ensures Elements(input, table, shift, ip, k) == Trailing(input, k)
  {}

  /** One round, behind the elements done so far. */
  lemma ElementsHit(input: seq<Byte>, table: seq<Slot>, shift: nat, ip: nat, k: nat,
                    at: nat, candidate: nat, t: seq<Slot>, done: seq<Element>)
    requires Scan(input, table, shift, ip, 32) == Hit(at, candidate, t) && k <= at && ip <= at <= |input|
    requires Copies(input, t, shift, at, candidate).ip >= ip
    ensures var copied := Copies(input, t, shift, at, candidate);
            var es := done + [Literal(input[k..at])] + copied.es;
            Then(done, Elements(input, table, shift, ip, k)) ==
            Then(es, if copied.nearEnd then Trailing(input, copied.ip)
                     else Elements(input, copied.table, shift, copied.ip + 1, copied.ip))
  {
    hide Elements, Copies, Scan, Trailing;
    ElementsStep(input, table, shift, ip, k, at, candidate, t);
    var copied := Copies(input, t, shift, at, candidate);
    Regroup(done, [Literal(input[k..at])], copied.es,
            if copied.nearEnd then Trailing(input, copied.ip)
            else Elements(input, copied.table, shift, copied.ip + 1, copied.ip));
  }

  lemma ElementsStep(input: seq<Byte>, table: seq<Slot>, shift: nat, ip: nat, k: nat,
                     at: nat, candidate: nat, t: seq<Slot>)
    requires Scan(input, table, shift, ip, 32) == Hit(at, candidate, t) && k <= at && ip <= at <= |input|
    requires Copies(input, t, shift, at, candidate).ip >= ip
    ensures var copied := Copies(input, t, shift, at, candidate);
            Elements(input, table, shift, ip, k) ==
            [Literal(input[k..at])] + copied.es +
            if copied.nearEnd then Trailing(input, copied.ip)
            else Elements(input, copied.table, shift, copied.ip + 1, copied.ip)
  {
    hide Copies, Scan, Trailing;
  }

  lemma Regroup(a: seq<Element>, b: seq<Element>, c: seq<Element>, d: seq<Element>)
    ensures a + (b + c + d) == a + b + c + d
  {}

  /** What CompressFragment makes of a fragment. */
  ghost function FragmentElements(input: seq<Byte>, tableSize: nat): seq<Element>
    requires tableSize > 0
  {
    if |input| < INPUT_MARGIN || Log2(tableSize) > 32 then Trailing(input, 0)
    else Elements(input, seq(tableSize, _ => 0), 32 - Log2(tableSize), 1, 0)
  }

  lemma {:induction false} LcpIsLongest(input: seq<Byte>, i: nat, j: nat, n: nat)
    requires LongestMatch(input, i, j, |input|, n)
    ensures n == Lcp(input, i, j)
    decreases |input| - j
  {
    if j < |input| {
      if n > 0 {
        assert Repeats(input, i, j, j);
        var i', j' := i + 1, j + 1;
        forall p | j' <= p < j + n ensures Repeats(input, i', j', p) {
          assert Repeats(input, i, j, p);
        }
        LcpIsLongest(input, i', j', n - 1);
      }
    }
  }

  // ----- The choice without a table -----------------------------------------------------
  //
  // The scan behind position k looks at positions in steps that grow by a thirty-second.
  // Each is compared with the last position entered before it that has the same hash.

  function Skip(j: nat): (r: nat)
    ensures r >= 32
  {
    if j == 0 then 32 else Skip(j - 1) + Skip(j - 1) / 32
  }

  /** The j-th position looked at behind k. */
  function Probe(k: nat, j: nat): nat {
    if j == 0 then k + 1 else Probe(k, j - 1) + Skip(j - 1) / 32
  }

  function Probes(k: nat, n: nat): seq<nat> {
    if n == 0 then [] else Probes(k, n - 1) + [Probe(k, n - 1)]
  }

  /** It is looked at if the next one keeps its distance from the end. */
  predicate Examined(input: seq<Byte>, k: nat, j: nat) {
    Probe(k, j + 1) + INPUT_MARGIN <= |input|
  }

  /** The last of the positions in past with the hash h, or 0. */
  ghost function LastWith(input: seq<Byte>, shift: nat, past: seq<nat>, h: int): nat {
    if past == [] then 0
    else
      var n := |past| - 1;
      if HashOf(input, past[n], shift) == h then past[n] else LastWith(input, shift, past[..n], h)
  }

  ghost function Seen(input: seq<Byte>, shift: nat, past: seq<nat>, y: nat): nat {
    LastWith(input, shift, past, HashOf(input, y, shift))
  }

  /** The j-th position does not have the four bytes of the one it is compared with. */
  ghost predicate Misses(input: seq<Byte>, shift: nat, past: seq<nat>, k: nat, j: nat) {
    !SameFour(input, Seen(input, shift, past + Probes(k, j), Probe(k, j)), Probe(k, j))
  }

  ghost predicate NothingFound(input: seq<Byte>, shift: nat, past: seq<nat>, k: nat) {
    forall j: nat :: Examined(input, k, j) ==> Misses(input, shift, past, k, j)
  }

  ghost predicate FoundAt(input: seq<Byte>, shift: nat, past: seq<nat>, k: nat, j: nat) {
    && Examined(input, k, j) && !Misses(input, shift, past, k, j)
    && forall i: nat :: i < j ==> Misses(input, shift, past, k, i)
  }

  /** es is what follows from position k on, where a literal begins and the positions in past have
      been entered: one literal to the end if nothing is found, otherwise a literal up to the first
      position found and the copies from there on. */
  ghost predicate Greedy(es: seq<Element>, input: seq<Byte>, shift: nat, past: seq<nat>, k: nat)
    decreases |es|, 3
  {
    || (NothingFound(input, shift, past, k) && es == Trailing(input, k))
    || exists j: nat :: GreedyAt(es, input, shift, past, k, j)
  }

  ghost predicate GreedyAt(es: seq<Element>, input: seq<Byte>, shift: nat, past: seq<nat>, k: nat, j: nat)
    decreases |es|, 2
  {
    var at := Probe(k, j);
    && FoundAt(input, shift, past, k, j) && k < at <= |input| && es != [] && es[0] == Literal(input[k..at])
    && Copying(es[1..], input, shift, past + Probes(k, j + 1), at, Seen(input, shift, past + Probes(k, j), at))
  }

  /** es is what follows from ip on, where four bytes match those at c: copies as long as the bytes
      match at all, and from their end on the same if there is a match again. */
  ghost predicate Copying(es: seq<Element>, input: seq<Byte>, shift: nat, past: seq<nat>, ip: nat, c: nat)
    decreases |es|, 1
  {
    exists len: nat :: CopyingTo(es, input, shift, past, ip, c, len)
  }

  ghost predicate CopyingTo(es: seq<Element>, input: seq<Byte>, shift: nat, past: seq<nat>, ip: nat, c: nat, len: nat)
    decreases |es|, 0
  {
    && 0 < ip - c < 0x1_0000 && 4 <= len && LongestMatch(input, c, ip, |input|, len)
    && var pieces, end := Pieces(ip - c, len), ip + len;
       && 0 < |pieces| <= |es| && es[..|pieces|] == pieces
       && AfterCopy(es[|pieces|..], input, shift, past, end)
  }

  ghost predicate AfterCopy(es: seq<Element>, input: seq<Byte>, shift: nat, past: seq<nat>, end: nat)
    decreases |es|, 4
  {
    if end + INPUT_MARGIN >= |input| || end == 0 then es == Trailing(input, end)
    else
      var c := Seen(input, shift, past + [end - 1], end);
      if SameFour(input, c, end) then Copying(es, input, shift, past + [end - 1, end], end, c)
      else Greedy(es, input, shift, past + [end - 1, end], end)
  }

  // ----- The table does that -------------------------------------------------------------

  /** The table holds the last position entered for each hash. */
  ghost predicate TableIs(table: seq<Slot>, input: seq<Byte>, shift: nat, past: seq<nat>) {
    && shift <= 32 && |table| == Pow2(32 - shift) && (forall i :: 0 <= i < |past| ==> past[i] + 4 <= |input|)
    && forall h :: 0 <= h < |table| ==> table[h] == LastWith(input, shift, past, h)
  }

  lemma HashIsSlot(table: seq<Slot>, input: seq<Byte>, shift: nat, past: seq<nat>, y: nat)
    requires TableIs(table, input, shift, past) && y + 4 <= |input|
    ensures 0 <= HashOf(input, y, shift) < |table|
    ensures Look(table, HashOf(input, y, shift)) == Seen(input, shift, past, y)
  {
    HashInTable(Load32(input, y), shift);
  }

  lemma EnteredIs(table: seq<Slot>, input: seq<Byte>, shift: nat, past: seq<nat>, ip: nat)
    requires TableIs(table, input, shift, past) && ip + 4 <= |input| <= BLOCK_SIZE
    ensures TableIs(Enter(table, HashOf(input, ip, shift), ip), input, shift, past + [ip])
  {
    HashIsSlot(table, input, shift, past, ip);
    hide HashOf;
    assert (past + [ip])[..|past|] == past;
  }

  lemma {:induction false} SeenBefore(input: seq<Byte>, shift: nat, past: seq<nat>, h: int, ip: nat)
    requires ip > 0 && forall i :: 0 <= i < |past| ==> past[i] < ip
    ensures LastWith(input, shift, past, h) < ip
  {
    if past != [] {
      SeenBefore(input, shift, past[..|past| - 1], h, ip);
    }
  }

  lemma {:induction false} ProbeRises(k: nat, i: nat, j: nat)
    requires i < j
    ensures Probe(k, i) < Probe(k, j)
    decreases j
  {
    if i < j - 1 {
      ProbeRises(k, i, j - 1);
    }
  }

  lemma {:induction false} ProbesBelow(k: nat, n: nat, j: nat)
    requires n <= j
    ensures |Probes(k, n)| == n && forall i :: 0 <= i < n ==> Probes(k, n)[i] < Probe(k, j)
  {
    if n > 0 {
      ProbesBelow(k, n - 1, j);
      ProbeRises(k, n - 1, j);
    }
  }

  /** One position of the scan. */
  lemma ScanOne(input: seq<Byte>, table: seq<Slot>, shift: nat, past: seq<nat>, k: nat, j: nat) returns (t: seq<Slot>)
    requires |input| <= BLOCK_SIZE && TableIs(table, input, shift, past + Probes(k, j)) && Examined(input, k, j)
    ensures TableIs(t, input, shift, past + Probes(k, j + 1))
    ensures Scan(input, table, shift, Probe(k, j), Skip(j)) ==
            if Misses(input, shift, past, k, j) then Scan(input, t, shift, Probe(k, j + 1), Skip(j + 1))
            else Hit(Probe(k, j), Seen(input, shift, past + Probes(k, j), Probe(k, j)), t)
  {
    hide Scan, TableIs, HashOf, Enter, Look, Seen, SameFour, LastWith;
    var ip, before := Probe(k, j), past + Probes(k, j);
    ScanStep(input, table, shift, ip, Skip(j));
    HashIsSlot(table, input, shift, before, ip);
    EnteredIs(table, input, shift, before, ip);
    t := Enter(table, HashOf(input, ip, shift), ip);
    assert before + [ip] == past + Probes(k, j + 1);
  }

  lemma ScanOver(input: seq<Byte>, table: seq<Slot>, shift: nat, k: nat, j: nat)
    requires !Examined(input, k, j)
    ensures Scan(input, table, shift, Probe(k, j), Skip(j)) == Nothing
    ensures forall x: nat :: j <= x ==> !Examined(input, k, x)
  {
    forall x: nat | j <= x ensures !Examined(input, k, x) {
      if x > j {
        ProbeRises(k, j + 1, x + 1);
      }
    }
  }

  lemma {:induction false} ScanIs(input: seq<Byte>, table: seq<Slot>, shift: nat, past: seq<nat>, k: nat, j: nat)
    returns (i: nat)
    requires |input| <= BLOCK_SIZE && TableIs(table, input, shift, past + Probes(k, j))
    ensures match Scan(input, table, shift, Probe(k, j), Skip(j))
            case Nothing => forall x: nat :: j <= x && Examined(input, k, x) ==> Misses(input, shift, past, k, x)
            case Hit(at, c, t) =>
              && i >= j && at == Probe(k, i) && Examined(input, k, i) && !Misses(input, shift, past, k, i)
              && (forall x: nat :: j <= x < i ==> Misses(input, shift, past, k, x))
              && c == Seen(input, shift, past + Probes(k, i), at)
              && TableIs(t, input, shift, past + Probes(k, i + 1))
    decreases |input| - Probe(k, j)
  {
    hide Scan, TableIs, Seen, Misses, Probes, Probe, Skip;
    i := j;
    if Examined(input, k, j) {
      ProbeRises(k, j, j + 1);
      var t := ScanOne(input, table, shift, past, k, j);
      if Misses(input, shift, past, k, j) {
        i := ScanIs(input, t, shift, past, k, j + 1);
      }
    } else {
      ScanOver(input, table, shift, k, j);
    }
  }

  lemma {:induction false} LcpMatches(input: seq<Byte>, i: nat, j: nat)
    requires i <= j <= |input|
    ensures LongestMatch(input, i, j, |input|, Lcp(input, i, j))
    decreases |input| - j
  {
    if j < |input| && input[i] == input[j] {
      LcpMatches(input, i + 1, j + 1);
      forall p | j <= p < j + Lcp(input, i, j) ensures Repeats(input, i, j, p) {
        if p > j {
          assert Repeats(input, i + 1, j + 1, p);
        }
      }
    }
  }

  lemma FourAndMore(input: seq<Byte>, c: nat, ip: nat)
    requires c <= ip && SameFour(input, c, ip)
    ensures LongestMatch(input, c, ip, |input|, 4 + Lcp(input, c + 4, ip + 4))
  {
    LcpMatches(input, c + 4, ip + 4);
    var n := Lcp(input, c + 4, ip + 4);
    forall p | ip <= p < ip + 4 + n ensures Repeats(input, c, ip, p) {
      if p < ip + 4 {
        assert input[ip..ip + 4][p - ip] == input[c..c + 4][p - ip];
      } else {
        assert Repeats(input, c + 4, ip + 4, p);
      }
    }
  }

  /** The positions entered when the copies from ip on are done. */
  ghost function PastAfter(input: seq<Byte>, shift: nat, past: seq<nat>, ip: nat, c: nat): seq<nat>
    decreases |input| - ip
  {
    var end := ip + 4 + Lcp(input, c + 4, ip + 4);
    if end + INPUT_MARGIN >= |input| then past
    else
      var next := Seen(input, shift, past + [end - 1], end);
      if SameFour(input, next, end) then PastAfter(input, shift, past + [end - 1, end], end, next)
      else past + [end - 1, end]
  }

  ghost predicate AllBelow(past: seq<nat>, ip: nat) {
    forall i :: 0 <= i < |past| ==> past[i] < ip
  }

  /** The table at the end of a copy. */
  lemma ProbedIs(input: seq<Byte>, table: seq<Slot>, shift: nat, past: seq<nat>, end: nat)
    requires |input| <= BLOCK_SIZE && TableIs(table, input, shift, past) && 0 < end && end + 4 <= |input|
    requires AllBelow(past, end)
    ensures var (c, t) := Probed(input, table, shift, end);
            && c == Seen(input, shift, past + [end - 1], end) && c < end
            && TableIs(t, input, shift, past + [end - 1, end]) && AllBelow(past + [end - 1, end], end + 1)
  {
    hide TableIs, HashOf, Enter, Look, LastWith;
    var t := Enter(table, HashOf(input, end - 1, shift), end - 1);
    EnteredIs(table, input, shift, past, end - 1);
    HashIsSlot(t, input, shift, past + [end - 1], end);
    EnteredIs(t, input, shift, past + [end - 1], end);
    assert past + [end - 1] + [end] == past + [end - 1, end];
    SeenBefore(input, shift, past + [end - 1], HashOf(input, end, shift), end);
  }

  /** One match. */
  lemma CopiesOne(input: seq<Byte>, table: seq<Slot>, shift: nat, past: seq<nat>, ip: nat, c: nat)
    returns (len: nat, next: nat, t: seq<Slot>)
    requires |input| <= BLOCK_SIZE && TableIs(table, input, shift, past) && AllBelow(past, ip + 1)
    requires c < ip && SameFour(input, c, ip)
    ensures len == 4 + Lcp(input, c + 4, ip + 4) && ip + len <= |input| && LongestMatch(input, c, ip, |input|, len)
    ensures var end := ip + len;
            var es := Pieces(ip - c, len);
            && |es| > 0
            && Copies(input, table, shift, ip, c) ==
               (if end + INPUT_MARGIN >= |input| then Copied(es, end, true, table)
                else if SameFour(input, next, end) then Behind(es, Copies(input, t, shift, end, next))
                else Copied(es, end, false, t))
            && (end + INPUT_MARGIN < |input| ==>
                  && next == Seen(input, shift, past + [end - 1], end) && next < end
                  && TableIs(t, input, shift, past + [end - 1, end]) && AllBelow(past + [end - 1, end], end + 1))
  {
    hide TableIs, Probed, Seen, Pieces, Copies, Lcp, SameFour, LongestMatch, Behind;
    len := 4 + Lcp(input, c + 4, ip + 4);
    var end := ip + len;
    FourAndMore(input, c, ip);
    InRange(input, c, ip, len);
    CopiesStep(input, table, shift, ip, c);
    PiecesSome(ip - c, len);
    if end + INPUT_MARGIN < |input| {
      ProbedIs(input, table, shift, past, end);
    }
    next, t := Probed(input, table, shift, end).0, Probed(input, table, shift, end).1;
  }

  lemma PastAfterIs(input: seq<Byte>, shift: nat, past: seq<nat>, ip: nat, c: nat)
    ensures var end := ip + 4 + Lcp(input, c + 4, ip + 4);
            PastAfter(input, shift, past, ip, c) ==
            if end + INPUT_MARGIN >= |input| then past
            else
              var next := Seen(input, shift, past + [end - 1], end);
              if SameFour(input, next, end) then PastAfter(input, shift, past + [end - 1, end], end, next)
              else past + [end - 1, end]
  {}

  /** What the copies leave behind. */
  lemma {:induction false} CopiesEnd(input: seq<Byte>, table: seq<Slot>, shift: nat, past: seq<nat>, ip: nat, c: nat)
    requires |input| <= BLOCK_SIZE && TableIs(table, input, shift, past) && AllBelow(past, ip + 1)
    requires c < ip && SameFour(input, c, ip)
    ensures var copied := Copies(input, table, shift, ip, c);
            && ip < copied.ip <= |input|
            && (!copied.nearEnd ==>
                  && copied.ip + INPUT_MARGIN < |input| && TableIs(copied.table, input, shift, PastAfter(input, shift, past, ip, c))
                  && AllBelow(PastAfter(input, shift, past, ip, c), copied.ip + 1))
    decreases |input| - ip
  {
    hide TableIs, Seen, Pieces, Copies, Lcp, SameFour, PastAfter, AllBelow, LongestMatch;
    PastAfterIs(input, shift, past, ip, c);
    var len, next, t := CopiesOne(input, table, shift, past, ip, c);
    var end := ip + len;
    if end + INPUT_MARGIN < |input| && SameFour(input, next, end) {
      CopiesEnd(input, t, shift, past + [end - 1, end], end, next);
    }
  }

  /** And they are the copies described, whatever follows. */
  lemma {:induction false} CopiesAre(input: seq<Byte>, table: seq<Slot>, shift: nat, past: seq<nat>, ip: nat, c: nat,
                                     tail: seq<Element>)
    requires |input| <= BLOCK_SIZE && TableIs(table, input, shift, past) && AllBelow(past, ip + 1)
    requires c < ip && SameFour(input, c, ip)
    requires var copied := Copies(input, table, shift, ip, c);
             if copied.nearEnd then tail == Trailing(input, copied.ip)
             else Greedy(tail, input, shift, PastAfter(input, shift, past, ip, c), copied.ip)
    ensures Copying(Copies(input, table, shift, ip, c).es + tail, input, shift, past, ip, c)
    decreases |input| - ip
  {
    hide TableIs, Seen, Pieces, Copies, Lcp, SameFour, PastAfter, AllBelow, LongestMatch, Greedy, Trailing, Copying, CopyingTo,
      AfterCopy;
    PastAfterIs(input, shift, past, ip, c);
    var len, next, t := CopiesOne(input, table, shift, past, ip, c);
    var copied, end, rest, pieces := Copies(input, table, shift, ip, c), ip + len, tail, Pieces(ip - c, len);
    if end + INPUT_MARGIN < |input| {
      if SameFour(input, next, end) {
        CopiesAre(input, t, shift, past + [end - 1, end], end, next, tail);
        rest := Copies(input, t, shift, end, next).es + tail;
      }
    }
    assert copied.es + tail == pieces + rest;
    AfterCopyIs(rest, input, shift, past, end);
    CopyingFrom(pieces, rest, input, shift, past, ip, c, len);
  }

  lemma AfterCopyIs(es: seq<Element>, input: seq<Byte>, shift: nat, past: seq<nat>, end: nat)
    requires end > 0
    requires if end + INPUT_MARGIN >= |input| then es == Trailing(input, end)
             else
               var next := Seen(input, shift, past + [end - 1], end);
               if SameFour(input, next, end) then Copying(es, input, shift, past + [end - 1, end], end, next)
               else Greedy(es, input, shift, past + [end - 1, end], end)
    ensures AfterCopy(es, input, shift, past, end)
  {
    hide Greedy, Copying;
  }

  lemma CopyingFrom(pieces: seq<Element>, rest: seq<Element>, input: seq<Byte>, shift: nat, past: seq<nat>, ip: nat, c: nat,
                    len: nat)
    requires 0 < ip - c < 0x1_0000 && 4 <= len && LongestMatch(input, c, ip, |input|, len)
    requires pieces == Pieces(ip - c, len) && |pieces| > 0 && AfterCopy(rest, input, shift, past, ip + len)
    ensures Copying(pieces + rest, input, shift, past, ip, c)
  {
    hide AfterCopy, LongestMatch, Pieces;
    var all := pieces + rest;
    assert all[..|pieces|] == pieces && all[|pieces|..] == rest;
    assert CopyingTo(all, input, shift, past, ip, c, len);
  }

  lemma InRange(input: seq<Byte>, c: nat, ip: nat, len: nat)
    requires LongestMatch(input, c, ip, |input|, len)
    ensures ip + len <= |input|
  {}

  lemma PiecesSome(offset: nat, length: nat)
    requires 4 <= length && 0 < offset < 0x1_0000
    ensures |Pieces(offset, length)| > 0
  {}

  lemma {:induction false} ElementsGreedy(input: seq<Byte>, table: seq<Slot>, shift: nat, past: seq<nat>, k: nat)
    requires |input| <= BLOCK_SIZE && TableIs(table, input, shift, past) && AllBelow(past, k + 1)
    ensures Greedy(Elements(input, table, shift, k + 1, k), input, shift, past, k)
    decreases |input| - k
  {
    hide TableIs, Scan, Copies, Copying, Seen, PastAfter, Misses, Trailing;
    assert past + Probes(k, 0) == past && Probe(k, 0) == k + 1 && Skip(0) == 32;
    var i := ScanIs(input, table, shift, past, k, 0);
    match Scan(input, table, shift, k + 1, 32)
    case Nothing => ElementsEnd(input, table, shift, k + 1, k);
    case Hit(at, c, t) => HitGreedy(input, table, shift, past, k, i, at, c, t);
  }

  lemma {:induction false} HitGreedy(input: seq<Byte>, table: seq<Slot>, shift: nat, past: seq<nat>, k: nat, i: nat,
                                     at: nat, c: nat, t: seq<Slot>)
    requires |input| <= BLOCK_SIZE && AllBelow(past, k + 1) && Scan(input, table, shift, k + 1, 32) == Hit(at, c, t)
    requires at == Probe(k, i) && FoundAt(input, shift, past, k, i)
    requires c == Seen(input, shift, past + Probes(k, i), at) && TableIs(t, input, shift, past + Probes(k, i + 1))
    ensures Greedy(Elements(input, table, shift, k + 1, k), input, shift, past, k)
    decreases |input| - k, 0
  {
    hide TableIs, Scan, Copies, Copying, PastAfter, Trailing, Elements, Seen, SameFour, Greedy, AllBelow, Probes, Probe, HashOf,
      LastWith, GreedyAt;
    HitBefore(input, shift, past, k, i);
    var past1 := past + Probes(k, i + 1);
    PastBelow(past, k, i);
    CopiesEnd(input, t, shift, past1, at, c);
    var copied := Copies(input, t, shift, at, c);
    ElementsStep(input, table, shift, k + 1, k, at, c, t);
    var es := Elements(input, table, shift, k + 1, k);
    var tail := if copied.nearEnd then Trailing(input, copied.ip)
                else Elements(input, copied.table, shift, copied.ip + 1, copied.ip);
    if !copied.nearEnd {
      ElementsGreedy(input, copied.table, shift, PastAfter(input, shift, past1, at, c), copied.ip);
    }
    CopiesAre(input, t, shift, past1, at, c, tail);
    assert es == [Literal(input[k..at])] + (copied.es + tail);
    assert es[1..] == copied.es + tail;
    GreedyFrom(es, input, shift, past, k, i);
  }

  /** A position found lies behind k, and what it matches before it. */
  lemma HitBefore(input: seq<Byte>, shift: nat, past: seq<nat>, k: nat, i: nat)
    requires AllBelow(past, k + 1) && FoundAt(input, shift, past, k, i)
    ensures var at := Probe(k, i);
            var c := Seen(input, shift, past + Probes(k, i), at);
            k < at && at + INPUT_MARGIN < |input| && c < at && SameFour(input, c, at)
  {
    hide SameFour, HashOf, LastWith;
    ProbesBelow(k, i, i);
    if i > 0 {
      ProbeRises(k, 0, i);
    }
    ProbeRises(k, i, i + 1);
    SeenBefore(input, shift, past + Probes(k, i), HashOf(input, Probe(k, i), shift), Probe(k, i));
  }

  lemma PastBelow(past: seq<nat>, k: nat, i: nat)
    requires AllBelow(past, k + 1)
    ensures AllBelow(past + Probes(k, i + 1), Probe(k, i) + 1)
  {
    ProbesBelow(k, i, i);
    if i > 0 {
      ProbeRises(k, 0, i);
    }
  }

  lemma GreedyFrom(es: seq<Element>, input: seq<Byte>, shift: nat, past: seq<nat>, k: nat, j: nat)
    requires FoundAt(input, shift, past, k, j) && k < Probe(k, j) <= |input|
    requires es != [] && es[0] == Literal(input[k..Probe(k, j)])
    requires Copying(es[1..], input, shift, past + Probes(k, j + 1), Probe(k, j),
                     Seen(input, shift, past + Probes(k, j), Probe(k, j)))
    ensures Greedy(es, input, shift, past, k)
  {
    hide Copying, FoundAt, Probe, Probes, Seen;
    assert GreedyAt(es, input, shift, past, k, j);
  }

  /** What CompressFragment makes of a fragment is the greedy choice. */
  lemma FragmentIsGreedy(input: seq<Byte>, log: nat)
    requires |input| <= BLOCK_SIZE && log <= 32
    ensures Greedy(FragmentElements(input, Pow2(log)), input, 32 - log, [], 0)
  {
    hide Elements, Greedy, Pow2, Log2;
    Log2OfPow2(log);
    if |input| < INPUT_MARGIN {
      TinyGreedy(input, 32 - log);
    } else {
      EmptyTable(input, log);
      ElementsGreedy(input, seq(Pow2(log), _ => 0), 32 - log, [], 0);
    }
  }

  lemma EmptyTable(input: seq<Byte>, log: nat)
    requires log <= 32
    ensures TableIs(seq(Pow2(log), _ => 0), input, 32 - log, [])
  {}

  lemma TinyGreedy(input: seq<Byte>, shift: nat)
    requires |input| < INPUT_MARGIN
    ensures Greedy(Trailing(input, 0), input, shift, [], 0)
  {
    forall j: nat ensures !Examined(input, 0, j) {}
  }

  // ----- What follows for the elements ------------------------------------------------------

  /** The copy at distance offset cannot go on at p. */
  ghost predicate Ends(input: seq<Byte>, offset: nat, p: nat) {
    offset <= p <= |input| && (p == |input| || input[p] != input[p - offset])
  }

  predicate Continues(es: seq<Element>) {
    |es| > 1 && es[0].Copy? && es[1].Copy? && es[1].offset == es[0].offset
  }

  /** The position looked at before the j-th one behind k. */
  function Before(k: nat, j: nat): nat {
    if j == 0 then k else Probe(k, j - 1)
  }

  /** In the literal input[k..at] no position looked at has the four bytes of the one before it. */
  ghost predicate Unrepeated(input: seq<Byte>, k: nat, at: nat) {
    forall j: nat :: Probe(k, j) < at && Examined(input, k, j) ==> !SameFour(input, Before(k, j), Probe(k, j))
  }

  /** The elements from k on: a literal is the input, passes over no repetition, and has a copy behind
      it unless it is the last element; pieces at one distance are cut at 64 or 60 bytes, and together
      they reach as far as the input repeats itself. */
  ghost predicate Tight(es: seq<Element>, input: seq<Byte>, k: nat)
    decreases |es|
  {
    if es == [] then k == |input|
    else
      match es[0]
      case Literal(bytes) =>
        var at := k + |bytes|;
        && 0 < |bytes| && at <= |input| && bytes == input[k..at] && Unrepeated(input, k, at)
        && (if |es| > 1 then es[1].Copy? else at == |input|)
        && Tight(es[1..], input, at)
      case Copy(offset, length) =>
        && (if Continues(es) then length == 64 || length == 60 else Ends(input, offset, k + length))
        && Tight(es[1..], input, k + length)
  }

  lemma {:induction false} PiecesTight(offset: nat, length: nat, rest: seq<Element>, input: seq<Byte>, k: nat)
    requires 4 <= length && 0 < offset < 0x1_0000 && Ends(input, offset, k + length)
    requires Tight(rest, input, k + length) && (rest != [] && rest[0].Copy? ==> rest[0].offset != offset)
    ensures Tight(Pieces(offset, length) + rest, input, k) && Pieces(offset, length)[0].Copy?
    ensures Pieces(offset, length)[0].offset == offset
    decreases length
  {
    hide Tight, Ends;
    var es := Pieces(offset, length) + rest;
    if length >= 68 {
      PiecesTight(offset, length - 64, rest, input, k + 64);
      var more := Pieces(offset, length - 64) + rest;
      CopyTight(offset, 64, more, input, k);
      assert es == [Copy(offset, 64)] + more;
    } else if length > 64 {
      var last := [Copy(offset, length - 60)] + rest;
      CopyTight(offset, length - 60, rest, input, k + 60);
      CopyTight(offset, 60, last, input, k);
      assert es == [Copy(offset, 60)] + last;
    } else {
      CopyTight(offset, length, rest, input, k);
    }
  }

  lemma CopyTight(offset: nat, length: nat, rest: seq<Element>, input: seq<Byte>, k: nat)
    requires Tight(rest, input, k + length)
    requires if rest != [] && rest[0].Copy? && rest[0].offset == offset then length == 64 || length == 60
             else Ends(input, offset, k + length)
    ensures Tight([Copy(offset, length)] + rest, input, k)
  {
    hide Ends;
    var es := [Copy(offset, length)] + rest;
    assert es[1..] == rest;
  }

  /** The position in front of the first one looked at has been entered last. */
  ghost predicate LastIs(past: seq<nat>, k: nat) {
    if past == [] then k == 0 else past[|past| - 1] == k
  }

  lemma MissMeans(input: seq<Byte>, shift: nat, past: seq<nat>, k: nat, j: nat)
    requires LastIs(past, k) && Misses(input, shift, past, k, j)
    ensures !SameFour(input, Before(k, j), Probe(k, j))
  {
    var all := past + Probes(k, j);
    ProbesBelow(k, j, j);
    if j > 0 {
      assert Probes(k, j) == Probes(k, j - 1) + [Probe(k, j - 1)];
      assert all[|all| - 1] == Probe(k, j - 1);
    } else {
      assert all == past;
    }
    if SameFour(input, Before(k, j), Probe(k, j)) {
      SameHash(input, shift, Before(k, j), Probe(k, j));
    }
  }

  lemma SameHash(input: seq<Byte>, shift: nat, i: nat, j: nat)
    requires SameFour(input, i, j)
    ensures HashOf(input, i, shift) == HashOf(input, j, shift)
  {
    var a, b := input[i..i + 4], input[j..j + 4];
    assert a[0] == b[0] && a[1] == b[1] && a[2] == b[2] && a[3] == b[3];
  }

  lemma TrailingTight(input: seq<Byte>, shift: nat, past: seq<nat>, k: nat)
    requires k <= |input| && LastIs(past, k) && NothingFound(input, shift, past, k)
    ensures Tight(Trailing(input, k), input, k)
  {
    if k < |input| {
      forall j: nat | Examined(input, k, j) ensures !SameFour(input, Before(k, j), Probe(k, j)) {
        MissMeans(input, shift, past, k, j);
      }
      hide SameFour;
      assert Tight([], input, |input|) && Trailing(input, k)[1..] == [];
    }
  }

  lemma NearEndTight(input: seq<Byte>, k: nat)
    requires k <= |input| <= k + INPUT_MARGIN
    ensures Tight(Trailing(input, k), input, k)
  {
    if k < |input| {
      forall j: nat ensures !Examined(input, k, j) {
        ProbeRises(k, 0, j + 1);
      }
      assert Tight([], input, |input|) && Trailing(input, k)[1..] == [];
    }
  }

  lemma FoundUnrepeated(input: seq<Byte>, shift: nat, past: seq<nat>, k: nat, j: nat)
    requires LastIs(past, k) && FoundAt(input, shift, past, k, j)
    ensures Unrepeated(input, k, Probe(k, j))
  {
    hide SameFour, Misses;
    forall i: nat | Probe(k, i) < Probe(k, j) ensures !SameFour(input, Before(k, i), Probe(k, i)) {
      if i > j {
        ProbeRises(k, j, i);
      }
      MissMeans(input, shift, past, k, i);
    }
  }

  /** Every greedy list is tight. */
  lemma {:induction false} GreedyTight(es: seq<Element>, input: seq<Byte>, shift: nat, past: seq<nat>, k: nat)
    requires Greedy(es, input, shift, past, k) && LastIs(past, k) && k <= |input|
    ensures Tight(es, input, k) && (es != [] ==> es[0].Literal?)
    decreases |es|, 1
  {
    hide Tight, NothingFound, Copying, FoundAt, Probe, Probes, Seen;
    if NothingFound(input, shift, past, k) && es == Trailing(input, k) {
      TrailingTight(input, shift, past, k);
    } else {
      var j: nat :| GreedyAt(es, input, shift, past, k, j);
      var at := Probe(k, j);
      FoundUnrepeated(input, shift, past, k, j);
      CopyingTight(es[1..], input, shift, past + Probes(k, j + 1), at, Seen(input, shift, past + Probes(k, j), at));
      LiteralTight(es, input, k, at);
    }
  }

  lemma LiteralTight(es: seq<Element>, input: seq<Byte>, k: nat, at: nat)
    requires |es| > 1 && k < at <= |input| && es[0] == Literal(input[k..at]) && es[1].Copy?
    requires Unrepeated(input, k, at) && Tight(es[1..], input, at)
    ensures Tight(es, input, k)
  {
    hide Unrepeated;
  }

  lemma {:induction false} CopyingTight(es: seq<Element>, input: seq<Byte>, shift: nat, past: seq<nat>, ip: nat, c: nat)
    requires Copying(es, input, shift, past, ip, c)
    ensures Tight(es, input, ip) && es != [] && es[0].Copy? && es[0].offset == ip - c
    ensures ip < |input| && 0 < ip - c <= ip && input[ip] == input[c]
    decreases |es|, 0
  {
    hide Tight, AfterCopy, Pieces;
    var len: nat :| CopyingTo(es, input, shift, past, ip, c, len);
    var pieces, end := Pieces(ip - c, len), ip + len;
    var rest := es[|pieces|..];
    assert es == pieces + rest;
    assert Repeats(input, c, ip, ip);
    assert Ends(input, ip - c, end);
    AfterTight(rest, input, shift, past, end);
    PiecesTight(ip - c, len, rest, input, ip);
  }

  lemma {:induction false} AfterTight(es: seq<Element>, input: seq<Byte>, shift: nat, past: seq<nat>, end: nat)
    requires AfterCopy(es, input, shift, past, end) && 0 < end <= |input|
    ensures Tight(es, input, end)
    ensures es != [] && es[0].Copy? ==>
              end < |input| && 0 < es[0].offset <= end && input[end] == input[end - es[0].offset]
    decreases |es|, 2
  {
    hide Tight, Copying, Greedy, SameFour;
    if end + INPUT_MARGIN >= |input| {
      NearEndTight(input, end);
    } else {
      var c, more := Seen(input, shift, past + [end - 1], end), past + [end - 1, end];
      hide Seen;
      if SameFour(input, c, end) {
        CopyingTight(es, input, shift, more, end, c);
      } else {
        GreedyTight(es, input, shift, more, end);
      }
    }
  }

  // Runs of one byte

  ghost predicate AllEqual(input: seq<Byte>) {
    forall i :: 0 <= i < |input| ==> input[i] == input[0]
  }

  /** Five equal bytes at the start are noticed at once. */
  lemma FiveEqual(es: seq<Element>, input: seq<Byte>, shift: nat)
    requires Greedy(es, input, shift, [], 0) && |input| >= 17 && AllEqual(input[..5])
    ensures |es| > 1 && es[0] == Literal(input[..1]) && Copying(es[1..], input, shift, [1], 1, 0)
    ensures es[1].Copy? && es[1].offset == 1
  {
    var five := input[..5];
    assert input[0..4] == five[0..4] && input[1..5] == five[1..5];
    assert SameFour(input, 0, 1);
    assert Probe(0, 0) == 1 && Probe(0, 1) == 2 && [] + Probes(0, 0) == [];
    assert !Misses(input, shift, [], 0, 0) && Examined(input, 0, 0);
    hide Copying, Misses;
    var j: nat :| GreedyAt(es, input, shift, [], 0, j);
    assert j == 0;
    assert [] + Probes(0, 1) == [1];
    CopyingTight(es[1..], input, shift, [1], 1, 0);
  }

  /** Equal bytes, seventeen or more, become one of them and a copy at distance one. */
  lemma EqualBytes(es: seq<Element>, input: seq<Byte>, shift: nat)
    requires Greedy(es, input, shift, [], 0) && |input| >= 17 && AllEqual(input)
    ensures es == [Literal(input[..1])] + Pieces(1, |input| - 1)
  {
    var five := input[..5];
    assert AllEqual(five);
    hide Greedy;
    FiveEqual(es, input, shift);
    hide AfterCopy, Pieces;
    var len: nat :| CopyingTo(es[1..], input, shift, [1], 1, 0, len);
    assert len == |input| - 1;
    var pieces := Pieces(1, len);
    NothingAfter(es[1..][|pieces|..], input, shift, [1]);
    assert es[1..] == pieces;
  }

  lemma NothingAfter(es: seq<Element>, input: seq<Byte>, shift: nat, past: seq<nat>)
    requires AfterCopy(es, input, shift, past, |input|)
    ensures es == []
  {}

  lemma {:induction false} PiecesSize(offset: nat, length: nat)
    requires 4 <= length && 0 < offset < 0x1_0000
    ensures |EncodeAll(Pieces(offset, length))| <= 3 * ((length - 1) / 64 + 1)
    decreases length
  {
    var ps := Pieces(offset, length);
    if length >= 68 {
      PiecesSize(offset, length - 64);
      assert ps[1..] == Pieces(offset, length - 64);
      assert (length - 65) / 64 + 1 == (length - 1) / 64;
    } else if length > 64 {
      assert ps[1..] == [Copy(offset, length - 60)] && ps[1..][1..] == [];
      assert EncodeAll(ps[1..]) == EncodeElement(ps[1]) + EncodeAll([]);
    } else {
      assert ps[1..] == [];
    }
  }

  /** So they take two bytes and three for each sixty-four. */
  lemma EqualBytesSize(es: seq<Element>, input: seq<Byte>, shift: nat)
    requires Greedy(es, input, shift, [], 0) && |input| >= 17 && AllEqual(input) && AllWritable(es)
    ensures |EncodeAll(es)| <= 2 + 3 * (|input| / 64 + 1)
  {
    hide Greedy;
    EqualBytes(es, input, shift);
    var n := |input| - 1;
    PiecesSize(1, n);
    assert es[1..] == Pieces(1, n);
    assert (n - 1) / 64 <= |input| / 64;
  }
}
