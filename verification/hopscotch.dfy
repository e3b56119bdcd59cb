/**
 The local hopscotch hash table (local_concurrent_hopscotch.cpp), run by one thread at a
 time: put with displacement, get and remove refine a finite map.
 */
module Hopscotch {
  import opened Basics

  type Key = seq<Byte>
  type Value = seq<Byte>

  const NEIGHBORHOOD: nat := 32

  // ----- Key comparison --------------------------------------------------------------

  /** strncmp(a, b, n) == 0 on buffers of at least n bytes. */
  predicate SameString(a: seq<Byte>, b: seq<Byte>, n: nat)
    requires n <= |a| && n <= |b|
  {
    n == 0 || (a[0] == b[0] && (a[0] == 0 || SameString(a[1..], b[1..], n - 1)))
  }

  /** a and b are the same up to a zero byte at z. */
  predicate AlikeUpTo(a: Key, b: Key, z: nat) {
    z < |a| && z < |b| && a[z] == b[z] == 0 && a[..z] == b[..z]
  }

  /** The comparison of the table identifies two different keys of one length exactly when
      they agree up to a zero byte. */
  lemma {:induction false} SameStringMeans(a: Key, b: Key)
    requires |a| == |b|
    ensures SameString(a, b, |a|) <==> a == b || exists z: nat :: AlikeUpTo(a, b, z)
  {
    if a == [] {
    } else if a[0] != b[0] {
      forall z: nat ensures !AlikeUpTo(a, b, z) {
        if 0 < z < |a| {
          assert a[..z][0] != b[..z][0];
        }
      }
    } else if a[0] == 0 {
      assert AlikeUpTo(a, b, 0);
    } else {
      SameStringMeans(a[1..], b[1..]);
      assert a == [a[0]] + a[1..] && b == [b[0]] + b[1..];
      if z: nat :| AlikeUpTo(a, b, z) {
        assert z > 0;
        AlikeTail(a, b, z - 1);
      }
      if z: nat :| AlikeUpTo(a[1..], b[1..], z) {
        AlikeTail(a, b, z);
      }
    }
  }

  lemma AlikeTail(a: Key, b: Key, z: nat)
    requires a != [] && b != [] && a[0] == b[0]
    ensures AlikeUpTo(a, b, z + 1) <==> AlikeUpTo(a[1..], b[1..], z)
  {
    if z + 1 < |a| && z + 1 < |b| {
      assert a[..z + 1] == [a[0]] + a[1..][..z] && b[..z + 1] == [b[0]] + b[1..][..z];
      assert a[1..][..z] == a[..z + 1][1..] && b[1..][..z] == b[..z + 1][1..];
    }
  }

  /** A key up to its first zero byte. */
  function Text(k: Key): seq<Byte> {
    if k == [] || k[0] == 0 then [] else [k[0]] + Text(k[1..])
  }

  /** What the table knows of a key: its home bucket, its length and its text.  Keys with the same
      name are one key to the table. */
  datatype Name = Name(home: nat, length: nat, text: seq<Byte>)

  function NameOf(home: Key -> nat, k: Key): Name {
    Name(home(k), |k|, Text(k))
  }

  /** Keys of one length are the same string exactly if they have the same text. */
  lemma {:induction false} SameStringText(a: Key, b: Key)
    requires |a| == |b|
    ensures SameString(a, b, |a|) <==> Text(a) == Text(b)
  {
    if a != [] && a[0] == b[0] && a[0] != 0 {
      SameStringText(a[1..], b[1..]);
      assert Text(a)[1..] == Text(a[1..]) && Text(b)[1..] == Text(b[1..]);
    } else if a != [] && a[0] != b[0] {
      assert a[0] != 0 ==> Text(a)[0] == a[0];
      assert b[0] != 0 ==> Text(b)[0] == b[0];
    }
  }

  /** So two keys have one name if and only if they have one home, one length, and are equal or
      agree up to a zero byte. */
  lemma SameName(home: Key -> nat, a: Key, b: Key)
    ensures NameOf(home, a) == NameOf(home, b) <==>
            home(a) == home(b) && |a| == |b| && (a == b || exists z: nat :: AlikeUpTo(a, b, z))
  {
    if |a| == |b| {
      SameStringText(a, b);
      SameStringMeans(a, b);
    }
  }

  // ----- The table ---------------------------------------------------------------------

  /** What a bucket's pointer is: null, kBusyPtr, or an item in the slab. */
  datatype Slot<K> = Empty | Busy | Item(key: K, value: Value)

  /** The table at one time: for each bucket the offsets whose bit is set, for each slot its
      content; and the map it stands for, with the place of every name. */
  datatype Table = Table(
    bitmaps: seq<set<nat>>,
    slots: seq<Slot<Name>>,
    contents: map<Name, Value>,
    place: map<Name, nat>)

  /** The bit for offset o in bucket b claims a slot nearby, whose item is at home in b. */
  ghost predicate Claims(t: Table, b: nat, o: nat) {
    o < NEIGHBORHOOD && b + o < |t.slots| && t.slots[b + o].Item? && t.slots[b + o].key.home == b
  }

  /** The item in slot i is within reach of its home bucket, claimed by it, and the one
      place of its name. */
  ghost predicate Claimed(t: Table, i: nat) {
    && i < |t.slots| && t.slots[i].Item?
    && var k := t.slots[i].key;
       && k.home <= i < k.home + NEIGHBORHOOD && k.home < |t.bitmaps| && i - k.home in t.bitmaps[k.home]
       && k in t.place && t.place[k] == i && k in t.contents && t.contents[k] == t.slots[i].value
  }

  ghost predicate Placed(t: Table, k: Name) {
    k in t.contents && k in t.place && t.place[k] < |t.slots| && t.slots[t.place[k]] == Item(k, t.contents[k])
  }

  ghost predicate Good(t: Table) {
    && |t.bitmaps| == |t.slots| && t.place.Keys == t.contents.Keys
    && (forall b, o :: 0 <= b < |t.bitmaps| && o in t.bitmaps[b] ==> Claims(t, b, o))
    && (forall i :: 0 <= i < |t.slots| && t.slots[i].Item? ==> Claimed(t, i))
    && (forall k :: k in t.contents ==> Placed(t, k))
  }

  /** Each occupied slot is claimed by exactly one bit: the one of its home bucket. */
  lemma ClaimedOnce(t: Table, i: nat, b: nat)
    requires Good(t) && i < |t.slots| && t.slots[i].Item? && b <= i && b < |t.bitmaps|
    ensures i - b in t.bitmaps[b] <==> b == t.slots[i].key.home
  {
    assert Claimed(t, i);
    if i - b in t.bitmaps[b] {
      assert Claims(t, b, i - b);
    }
  }

  function Overwrite(t: Table, k: Name, v: Value): Table
    requires k in t.place && t.place[k] < |t.slots|
  {
    t.(slots := t.slots[t.place[k] := Item(k, v)], contents := t.contents[k := v])
  }

  /** The displacement: an item moves from slot from to the reserved slot to. */
  function Move(t: Table, a: nat, from: nat, to: nat): Table
    requires a <= from < |t.slots| && a <= to < |t.slots| && a < |t.bitmaps| && t.slots[from].Item?
  {
    t.(slots := t.slots[to := t.slots[from]][from := Busy],
       bitmaps := t.bitmaps[a := t.bitmaps[a] + {to - a} - {from - a}],
       place := t.place[t.slots[from].key := to])
  }

  /** A new item goes into a reserved slot within reach of its home. */
  function Insert(t: Table, h: nat, i: nat, k: Name, v: Value): Table
    requires h <= i < |t.slots| && h < |t.bitmaps|
  {
    t.(slots := t.slots[i := Item(k, v)], bitmaps := t.bitmaps[h := t.bitmaps[h] + {i - h}],
       contents := t.contents[k := v], place := t.place[k := i])
  }

  function Delete(t: Table, h: nat, k: Name): Table
    requires k in t.place && h <= t.place[k] < |t.slots| && h < |t.bitmaps|
  {
    t.(slots := t.slots[t.place[k] := Empty], bitmaps := t.bitmaps[h := t.bitmaps[h] - {t.place[k] - h}],
       contents := t.contents - {k}, place := t.place - {k})
  }

  // ----- Each operation keeps the table good ------------------------------------------------

  lemma OverwriteGood(t: Table, k: Name, v: Value)
    requires Good(t) && Placed(t, k)
    ensures Good(Overwrite(t, k, v))
  {
    hide Claims, Claimed;
    var t' := Overwrite(t, k, v);
    forall b, o | 0 <= b < |t'.bitmaps| && o in t'.bitmaps[b] ensures Claims(t', b, o) {
      OverwriteClaim(t, k, v, b, o);
    }
    forall i | 0 <= i < |t'.slots| && t'.slots[i].Item? ensures Claimed(t', i) {
      OverwriteItem(t, k, v, i);
    }
    forall q | q in t'.contents ensures Placed(t', q) {
      OverwritePlaced(t, k, v, q);
    }
  }

  lemma OverwriteClaim(t: Table, k: Name, v: Value, b: nat, o: nat)
    requires Placed(t, k) && Claims(t, b, o)
    ensures Claims(Overwrite(t, k, v), b, o)
  {}

  lemma OverwriteItem(t: Table, k: Name, v: Value, i: nat)
    requires Placed(t, k) && Claimed(t, i)
    ensures Claimed(Overwrite(t, k, v), i)
  {}

  lemma OverwritePlaced(t: Table, k: Name, v: Value, q: Name)
    requires Placed(t, k) && Placed(t, q)
    ensures Placed(Overwrite(t, k, v), q)
  {}

  /** A slot without an item may become any other one without. */
  lemma ReserveGood(t: Table, i: nat)
    requires Good(t) && i < |t.slots| && t.slots[i] == Empty
    ensures Good(t.(slots := t.slots[i := Busy]))
  {
    hide Claims, Claimed, Placed;
    var t' := t.(slots := t.slots[i := Busy]);
    forall b, o | 0 <= b < |t'.bitmaps| && o in t'.bitmaps[b] ensures Claims(t', b, o) {
      ReserveKeeps(t, i, b, o, i, Name(0, 0, []));
    }
    forall j | 0 <= j < |t'.slots| && t'.slots[j].Item? ensures Claimed(t', j) {
      ReserveKeeps(t, i, 0, 0, j, Name(0, 0, []));
    }
    forall q | q in t'.contents ensures Placed(t', q) {
      ReserveKeeps(t, i, 0, 0, i, q);
    }
  }

  lemma ReserveKeeps(t: Table, i: nat, b: nat, o: nat, j: nat, q: Name)
    requires i < |t.slots| && t.slots[i] == Empty
    ensures var t' := t.(slots := t.slots[i := Busy]);
            && (Claims(t, b, o) ==> Claims(t', b, o))
            && (Claimed(t, j) ==> Claimed(t', j))
            && (Placed(t, q) ==> Placed(t', q))
  {}

  lemma MoveGood(t: Table, a: nat, from: nat, to: nat)
    requires Good(t) && a <= from < to < |t.slots| && to - a < NEIGHBORHOOD && a < |t.bitmaps|
    requires Claims(t, a, from - a) && t.slots[to] == Busy
    ensures Good(Move(t, a, from, to))
  {
    assert t.slots[from].Item?;
    hide Claims, Claimed, Placed;
    var t' := Move(t, a, from, to);
    forall b, o | 0 <= b < |t'.bitmaps| && o in t'.bitmaps[b] ensures Claims(t', b, o) {
      MoveClaim(t, a, from, to, b, o);
    }
    forall i | 0 <= i < |t'.slots| && t'.slots[i].Item? ensures Claimed(t', i) {
      MoveItem(t, a, from, to, i);
    }
    forall q | q in t'.contents ensures Placed(t', q) {
      MovePlaced(t, a, from, to, q);
    }
    MoveKeys(t, a, from, to);
  }

  lemma MoveKeys(t: Table, a: nat, from: nat, to: nat)
    requires a <= from < to < |t.slots| && a < |t.bitmaps| && Claimed(t, from) && t.place.Keys == t.contents.Keys
    ensures var t' := Move(t, a, from, to); |t'.bitmaps| == |t.bitmaps| && t'.place.Keys == t'.contents.Keys
  {}

  lemma MoveClaim(t: Table, a: nat, from: nat, to: nat, b: nat, o: nat)
    requires a <= from < to < |t.slots| && to - a < NEIGHBORHOOD && a < |t.bitmaps|
    requires Claims(t, a, from - a) && t.slots[to] == Busy
    requires b < |t.bitmaps| && o in Move(t, a, from, to).bitmaps[b]
    requires o in t.bitmaps[b] ==> Claims(t, b, o)
    ensures Claims(Move(t, a, from, to), b, o)
  {
    if !(b == a && o == to - a) {
      assert b + o != to;
      assert b + o == from ==> b == a;
    }
  }

  lemma MoveItem(t: Table, a: nat, from: nat, to: nat, i: nat)
    requires a <= from < to < |t.slots| && to - a < NEIGHBORHOOD && a < |t.bitmaps|
    requires Claims(t, a, from - a) && t.slots[to] == Busy && Claimed(t, from)
    requires i < |t.slots| && Move(t, a, from, to).slots[i].Item?
    requires t.slots[i].Item? ==> Claimed(t, i)
    ensures Claimed(Move(t, a, from, to), i)
  {}

  lemma MovePlaced(t: Table, a: nat, from: nat, to: nat, q: Name)
    requires a <= from < to < |t.slots| && a < |t.bitmaps| && t.slots[from].Item? && t.slots[to] == Busy
    requires Claimed(t, from) && Placed(t, q)
    ensures Placed(Move(t, a, from, to), q)
  {}

  lemma InsertGood(t: Table, i: nat, k: Name, v: Value)
    requires Good(t) && k !in t.contents && k.home <= i < |t.slots| && i - k.home < NEIGHBORHOOD
    requires t.slots[i] == Busy
    ensures Good(Insert(t, k.home, i, k, v))
  {
    hide Claims, Claimed, Placed;
    var t' := Insert(t, k.home, i, k, v);
    forall b, o | 0 <= b < |t'.bitmaps| && o in t'.bitmaps[b] ensures Claims(t', b, o) {
      InsertClaim(t, i, k, v, b, o);
    }
    forall j | 0 <= j < |t'.slots| && t'.slots[j].Item? ensures Claimed(t', j) {
      InsertItem(t, i, k, v, j);
    }
    forall q | q in t'.contents ensures Placed(t', q) {
      InsertPlaced(t, i, k, v, q);
    }
  }

  lemma InsertClaim(t: Table, i: nat, k: Name, v: Value, b: nat, o: nat)
    requires k.home <= i < |t.slots| == |t.bitmaps| && i - k.home < NEIGHBORHOOD && t.slots[i] == Busy
    requires b < |t.bitmaps| && o in Insert(t, k.home, i, k, v).bitmaps[b]
    requires o in t.bitmaps[b] ==> Claims(t, b, o)
    ensures Claims(Insert(t, k.home, i, k, v), b, o)
  {
    if !(b == k.home && o == i - b) {
      assert b + o != i;
    }
  }

  lemma InsertItem(t: Table, i: nat, k: Name, v: Value, j: nat)
    requires k.home <= i < |t.slots| == |t.bitmaps| && i - k.home < NEIGHBORHOOD && k !in t.contents
    requires j < |t.slots| && (j != i ==> Claimed(t, j))
    ensures Claimed(Insert(t, k.home, i, k, v), j)
  {}

  lemma InsertPlaced(t: Table, i: nat, k: Name, v: Value, q: Name)
    requires k.home <= i < |t.slots| == |t.bitmaps| && t.slots[i] == Busy && (q != k ==> Placed(t, q))
    ensures Placed(Insert(t, k.home, i, k, v), q)
  {}

  lemma DeleteGood(t: Table, k: Name)
    requires Good(t) && Placed(t, k) && Claimed(t, t.place[k])
    ensures k.home <= t.place[k] && k.home < |t.bitmaps| && Good(Delete(t, k.home, k))
  {
    hide Claims, Claimed;
    Reachable(t, k);
    var t' := Delete(t, k.home, k);
    forall b, o | 0 <= b < |t'.bitmaps| && o in t'.bitmaps[b] ensures Claims(t', b, o) {
      DeleteClaim(t, k, b, o);
    }
    forall j | 0 <= j < |t'.slots| && t'.slots[j].Item? ensures Claimed(t', j) {
      DeleteItem(t, k, j);
    }
    forall q | q in t'.contents ensures Placed(t', q) {
      assert Placed(t, q);
    }
  }

  lemma Reachable(t: Table, k: Name)
    requires Placed(t, k) && Claimed(t, t.place[k])
    ensures k.home <= t.place[k] < k.home + NEIGHBORHOOD && k.home < |t.bitmaps|
    ensures t.place[k] - k.home in t.bitmaps[k.home]
  {}

  lemma DeleteClaim(t: Table, k: Name, b: nat, o: nat)
    requires Placed(t, k) && Claimed(t, t.place[k]) && b < |t.bitmaps|
    requires Claims(t, b, o) && o in Delete(t, k.home, k).bitmaps[b]
    ensures Claims(Delete(t, k.home, k), b, o)
  {
    assert b + o == t.place[k] ==> b == k.home;
  }

  lemma DeleteItem(t: Table, k: Name, j: nat)
    requires Placed(t, k) && Claimed(t, t.place[k]) && Claimed(t, j) && j != t.place[k]
    ensures Claimed(Delete(t, k.home, k), j)
  {}

  // ----- Displacement ---------------------------------------------------------------------------

  /** Bucket a has an item in front of slot i that it could have in slot i instead. */
  ghost predicate Movable(bitmaps: seq<set<nat>>, i: nat, a: nat) {
    a < |bitmaps| && a < i < a + NEIGHBORHOOD && exists d :: d in bitmaps[a] && a + d < i
  }

  /** The displacement into slot i: the farthest such bucket moves its nearest item. */
  ghost predicate Hop(bitmaps: seq<set<nat>>, i: nat, a: nat, from: nat) {
    && a < |bitmaps| && a <= from < i < a + NEIGHBORHOOD && from - a in bitmaps[a]
    && (forall d :: d in bitmaps[a] ==> from - a <= d) && (forall x: nat :: x < a ==> !Movable(bitmaps, i, x))
  }

  lemma HopIsOne(bitmaps: seq<set<nat>>, i: nat, a: nat, from: nat, a': nat, from': nat)
    requires Hop(bitmaps, i, a, from) && Hop(bitmaps, i, a', from')
    ensures a' == a && from' == from
  {
    assert Movable(bitmaps, i, a) && Movable(bitmaps, i, a');
  }

  /** Displacing from slot i on does not bring a free slot within reach of bucket b. */
  ghost predicate Stuck(t: Table, i: nat, b: nat)
    decreases i
  {
    && i - b >= NEIGHBORHOOD
    && forall a: nat, from: nat :: Hop(t.bitmaps, i, a, from) && i < |t.slots| && t.slots[from].Item? ==>
         Stuck(Move(t, a, from, i), from, b)
  }

  lemma StuckStep(t: Table, i: nat, b: nat, a: nat, from: nat)
    requires i - b >= NEIGHBORHOOD && Hop(t.bitmaps, i, a, from) && i < |t.slots| && t.slots[from].Item?
    ensures Stuck(t, i, b) <==> Stuck(Move(t, a, from, i), from, b)
  {
    hide Move, Hop;
    forall x: nat, y: nat | Hop(t.bitmaps, i, x, y) ensures x == a && y == from {
      HopIsOne(t.bitmaps, i, a, from, x, y);
    }
  }

  lemma NotStuck(t: Table, i: nat, b: nat)
    requires i - b < NEIGHBORHOOD
    ensures !Stuck(t, i, b)
  {}

  lemma HopIs(bitmaps: seq<set<nat>>, i: nat, a: nat, from: nat)
    requires Hop(bitmaps, i, a, from)
    ensures a < |bitmaps| && a <= from < i < a + NEIGHBORHOOD && from - a in bitmaps[a]
  {}

  lemma StuckHere(t: Table, i: nat, b: nat)
    requires i - b >= NEIGHBORHOOD && forall a: nat :: !Movable(t.bitmaps, i, a)
    ensures Stuck(t, i, b)
  {
    forall a: nat, from: nat ensures !Hop(t.bitmaps, i, a, from) {
      assert !Movable(t.bitmaps, i, a);
    }
  }

  /** The first empty slot from b on. */
  ghost predicate FirstEmpty(t: Table, b: nat, i: nat) {
    b <= i < |t.slots| && t.slots[i] == Empty && forall j :: b <= j < i ==> t.slots[j] != Empty
  }

  /** A new item at home in b finds no slot: none is empty from there on, or the first that is
      cannot be brought within reach. */
  ghost predicate NoRoom(t: Table, b: nat) {
    forall i: nat :: FirstEmpty(t, b, i) ==> Stuck(t.(slots := t.slots[i := Busy]), i, b)
  }

  lemma NoRoomIs(t: Table, b: nat, i: nat)
    requires FirstEmpty(t, b, i)
    ensures NoRoom(t, b) <==> Stuck(t.(slots := t.slots[i := Busy]), i, b)
  {
    hide Stuck;
    forall j: nat | FirstEmpty(t, b, j) ensures j == i {}
  }

  lemma NoneEmpty(t: Table, b: nat)
    requires forall j :: b <= j < |t.slots| ==> t.slots[j] != Empty
    ensures NoRoom(t, b)
  {}

  // ----- The code -----------------------------------------------------------------------------

  /** What finding a key rests on. */
  lemma Lookup(t: Table, k: Name)
    requires Good(t) && k in t.contents
    ensures Placed(t, k) && Claimed(t, t.place[k])
    ensures k.home <= t.place[k] < k.home + NEIGHBORHOOD && k.home < |t.bitmaps|
    ensures t.place[k] - k.home in t.bitmaps[k.home]
  {
    hide Claims, Claimed;
    assert Placed(t, k);
    Reachable(t, k);
  }

  lemma Bit(t: Table, b: nat, o: nat)
    requires Good(t) && b < |t.bitmaps| && o in t.bitmaps[b]
    ensures Claims(t, b, o) && o < NEIGHBORHOOD && b + o < |t.slots| && t.slots[b + o].Item?
    ensures t.slots[b + o].key.home == b && Placed(t, t.slots[b + o].key) && t.place[t.slots[b + o].key] == b + o
  {
    hide Claimed, Placed;
    BitItem(t, b + o);
  }

  lemma BitItem(t: Table, i: nat)
    requires Good(t) && i < |t.slots| && t.slots[i].Item?
    ensures Placed(t, t.slots[i].key) && t.place[t.slots[i].key] == i
  {
    hide Claims;
    assert Claimed(t, i);
  }

  /** bsf_32: the lowest set bit. */
  method LowestBit(bits: set<nat>) returns (o: nat)
    requires bits != {} && forall x :: x in bits ==> x < NEIGHBORHOOD
    ensures o in bits && forall x :: x in bits ==> o <= x
  {
    ghost var some :| some in bits;
    o := 0;
    while o !in bits
      invariant o <= some && forall x :: x in bits ==> o <= x
      decreases NEIGHBORHOOD - o
    {
      o := o + 1;
    }
  }

  datatype PutResult = Replaced | Inserted | TableFull

  /** The slots with names for keys. */
  function Names(home: Key -> nat, slots: seq<Slot<Key>>): (r: seq<Slot<Name>>)
    ensures |r| == |slots| && forall i :: 0 <= i < |slots| ==> r[i] == Named(home, slots[i])
  {
    seq(|slots|, i requires 0 <= i < |slots| => Named(home, slots[i]))
  }

  function Named(home: Key -> nat, slot: Slot<Key>): Slot<Name> {
    match slot
    case Empty => Empty
    case Busy => Busy
    case Item(key, value) => Item(NameOf(home, key), value)
  }

  class HopscotchTable {
    const size: nat
    const home: Key -> nat             // hash & kHashMask_
    const bitmaps: array<set<nat>>
    const slots: array<Slot<Key>>
    const stamps: array<nat>
    ghost var contents: map<Name, Value>
    ghost var place: map<Name, nat>

    ghost function View(): Table
      reads this, bitmaps, slots
    {
      Table(bitmaps[..], Names(home, slots[..]), contents, place)
    }

    ghost predicate Valid()
      reads this, bitmaps, slots
    {
      && bitmaps.Length == slots.Length == stamps.Length == size + NEIGHBORHOOD
      && (forall k :: home(k) < size) && Good(View())
    }

    /** The name under which the table knows a key. */
    ghost function Id(key: Key): Name {
      NameOf(home, key)
    }

    constructor (size: nat, home: Key -> nat)
      requires size > 0 && forall k :: home(k) < size
      ensures Valid() && contents == map[] && fresh(bitmaps) && fresh(slots) && fresh(stamps)
      ensures forall i :: 0 <= i < slots.Length ==> slots[i] == Empty
    {
      this.size, this.home := size, home;
      bitmaps := new set<nat>[size + NEIGHBORHOOD](_ => {});
      slots := new Slot<Key>[size + NEIGHBORHOOD](_ => Empty);
      stamps := new nat[size + NEIGHBORHOOD](_ => 0);
      contents, place := map[], map[];
    }

    /** The loop over a bucket's bits, shared by get, put and remove. */
    method Find(key: Key) returns (r: Option<nat>)
      requires Valid()
      ensures r.Some? <==> Id(key) in contents
      ensures r.Some? ==> Id(key) in place && place[Id(key)] == home(key) + r.value
    {
      hide Good, Claims, Claimed, Text;
      var b := home(key);
      var bits := bitmaps[b];
      while bits != {}
        invariant bits <= bitmaps[b]
        invariant forall o :: o in bitmaps[b] && o !in bits ==>
                    b + o < slots.Length && slots[b + o].Item? && Id(slots[b + o].key) != Id(key)
        decreases bits
      {
        BitsSmall(b, bits);
        var o := LowestBit(bits);
        Bit(View(), b, o);
        var item := slots[b + o];
        if |item.key| == |key| {
          SameStringText(key, item.key);
          if SameString(key, item.key, |key|) {
            return Some(o);
          }
        }
        bits := bits - {o};
      }
      if Id(key) in contents {
        Lookup(View(), Id(key));
        assert false;
      }
      return None;
    }

    lemma BitsSmall(b: nat, bits: set<nat>)
      requires Valid() && b < bitmaps.Length && bits <= bitmaps[b]
      ensures forall x :: x in bits ==> x < NEIGHBORHOOD
    {
      hide Good;
      forall x | x in bits ensures x < NEIGHBORHOOD {
        Bit(View(), b, x);
      }
    }

    /** get: the value, or nothing (length zero) when the key is absent. */
    method Get(key: Key) returns (value: Value)
      requires Valid()
      ensures value == if Id(key) in contents then contents[Id(key)] else []
    {
      hide Good;
      var r := Find(key);
      if r.None? {
        return [];
      }
      Lookup(View(), Id(key));
      value := slots[home(key) + r.value].value;
    }

    /** remove. */
    method Remove(key: Key) returns (existed: bool)
      requires Valid()
      modifies this, bitmaps, slots
      ensures Valid() && existed == (Id(key) in old(contents)) && contents == old(contents) - {Id(key)}
    {
      hide Good;
      var r := Find(key);
      if r.None? {
        return false;
      }
      DoRemove(key, r.value);
      return true;
    }

    method DoRemove(key: Key, o: nat)
      requires Valid() && Id(key) in contents && Id(key) in place && place[Id(key)] == home(key) + o
      modifies this, bitmaps, slots
      ensures Valid() && contents == old(contents) - {Id(key)}
    {
      hide Good;
      ghost var t, k := View(), Id(key);
      Lookup(t, k);
      DeleteGood(t, k);
      var b := home(key);
      slots[b + o] := Empty;
      bitmaps[b] := bitmaps[b] - {o};
      contents, place := contents - {k}, place - {k};
      assert View() == Delete(t, b, k);
    }

    /** put: replaces the value of a key that is there; otherwise reserves the nearest free
        slot, brings it within reach of the home bucket by displacing other items, and
        inserts.  TableFull is where the code gives up, exactly if there is no room, and so never with
        a slot free in the neighbourhood; even then no item is lost. */
    method Put(key: Key, value: Value) returns (r: PutResult)
      requires Valid()
      modifies this, bitmaps, slots, stamps
      ensures Valid()
      ensures r.Replaced? <==> Id(key) in old(contents)
      ensures r.TableFull? <==> Id(key) !in old(contents) && NoRoom(old(View()), home(key))
      ensures contents == if r.TableFull? then old(contents) else old(contents)[Id(key) := value]
      ensures r.TableFull? ==> forall i :: home(key) <= i < home(key) + NEIGHBORHOOD ==> old(slots[i]) != Empty
    {
      hide Good, Stuck, NoRoom;
      ghost var t := View();
      var b := home(key);
      var found := Find(key);
      if found.Some? {
        Replace(key, found.value, value);
        return Replaced;
      }
      var i := Reserve(b);
      if i == slots.Length {
        NoneEmpty(t, b);
        return TableFull;
      }
      NoRoomIs(t, b, i);
      var ok;
      ok, i := Displace(i, b);
      if !ok {
        return TableFull;
      }
      Fill(key, value, i);
      return Inserted;
    }

    /** An item whose value has the same length keeps the key it has; otherwise it gets a new
        block with the new key. */
    method Replace(key: Key, o: nat, value: Value)
      requires Valid() && Id(key) in contents && Id(key) in place && place[Id(key)] == home(key) + o
      modifies this, slots
      ensures Valid() && contents == old(contents)[Id(key) := value]
    {
      hide Good;
      ghost var t, k := View(), Id(key);
      Lookup(t, k);
      OverwriteGood(t, k, value);
      var item := slots[home(key) + o];
      assert Id(item.key) == k;
      slots[home(key) + o] := Item(if |item.value| == |value| then item.key else key, value);
      contents := contents[k := value];
      assert View() == Overwrite(t, k, value);
    }

    /** Linear probing; the compare-and-swap reserves the first empty slot. */
    method Reserve(b: nat) returns (i: nat)
      requires Valid() && b < size
      modifies slots
      ensures Valid() && b <= i <= slots.Length && forall j :: b <= j < i ==> old(slots[j]) != Empty
      ensures i < slots.Length ==> old(slots[i]) == Empty && slots[i] == Busy
      ensures var t := old(View()); View() == if i < slots.Length then t.(slots := t.slots[i := Busy]) else t
    {
      hide Good;
      i := b;
      while i < slots.Length
        invariant b <= i <= slots.Length && Valid() && View() == old(View())
        invariant forall j :: 0 <= j < slots.Length ==> slots[j] == old(slots[j])
        invariant forall j :: b <= j < i ==> slots[j] != Empty
      {
        if slots[i] == Empty {
          ghost var t := View();
          ReserveGood(t, i);
          slots[i] := Busy;
          assert View() == t.(slots := t.slots[i := Busy]);
          return;
        }
        i := i + 1;
      }
    }

    /** The displacement loop: the reserved slot moves strictly towards b, until it is within reach or
        no bucket can move an item into it. */
    method Displace(i0: nat, b: nat) returns (ok: bool, i: nat)
      requires Valid() && b <= i0 < slots.Length && slots[i0] == Busy
      modifies this, bitmaps, slots, stamps
      ensures Valid() && contents == old(contents)
      ensures ok ==> b <= i <= i0 && i - b < NEIGHBORHOOD && slots[i] == Busy
      ensures i0 - b < NEIGHBORHOOD ==> ok && i == i0
      ensures ok <==> !Stuck(old(View()), i0, b)
      ensures !ok ==> b + NEIGHBORHOOD <= i <= i0 && slots[i] == Busy && forall a: nat :: !Movable(bitmaps[..], i, a)
    {
      hide Good, Stuck, Movable, Hop, Move;
      i := i0;
      while i - b >= NEIGHBORHOOD
        invariant Valid() && contents == old(contents) && b <= i <= i0 && slots[i] == Busy
        invariant i0 - b < NEIGHBORHOOD ==> i == i0
        invariant Stuck(View(), i, b) == Stuck(old(View()), i0, b)
        decreases i
      {
        var found, a, from := Victim(i);
        if !found {
          StuckHere(View(), i, b);
          return false, i;
        }
        HopIs(bitmaps[..], i, a, from);
        Bit(View(), a, from - a);
        StuckStep(View(), i, b, a, from);
        MoveItem(a, from, i);
        i := from;
      }
      NotStuck(View(), i, b);
      return true, i;
    }

    /** The farthest bucket that can move an item up into slot i, and its nearest item, if there is
        one. */
    method Victim(i: nat) returns (found: bool, a: nat, from: nat)
      requires Valid() && NEIGHBORHOOD <= i < slots.Length
      ensures found <==> exists x: nat :: Movable(bitmaps[..], i, x)
      ensures found ==> Hop(bitmaps[..], i, a, from)
    {
      hide Good;
      var distance := NEIGHBORHOOD - 1;
      while distance > 0
        invariant distance < NEIGHBORHOOD
        invariant forall x: nat :: x < i - distance ==> !Movable(bitmaps[..], i, x)
      {
        a := i - distance;
        if bitmaps[a] != {} {
          BitsSmall(a, bitmaps[a]);
          var offset := LowestBit(bitmaps[a]);
          if a + offset < i {
            assert Movable(bitmaps[..], i, a);
            return true, a, a + offset;
          }
        }
        assert !Movable(bitmaps[..], i, a);
        distance := distance - 1;
      }
      return false, 0, 0;
    }

    method MoveItem(a: nat, from: nat, to: nat)
      requires Valid() && a <= from < to < slots.Length && to - a < NEIGHBORHOOD
      requires from - a in bitmaps[a] && slots[to] == Busy
      modifies this, bitmaps, slots, stamps
      ensures Valid() && contents == old(contents) && slots[from] == Busy
      ensures old(View()).slots[from].Item? && View() == Move(old(View()), a, from, to)
    {
      hide Good;
      ghost var t := View();
      Bit(t, a, from - a);
      MoveGood(t, a, from, to);
      ghost var key := Id(slots[from].key);
      slots[to] := slots[from];
      bitmaps[a] := bitmaps[a] + {to - a};
      stamps[a] := stamps[a] + 1;
      slots[from] := Busy;
      bitmaps[a] := bitmaps[a] - {from - a};
      place := place[key := to];
      assert View() == Move(t, a, from, to);
    }

    method Fill(key: Key, value: Value, i: nat)
      requires Valid() && Id(key) !in contents
      requires home(key) <= i < slots.Length && i - home(key) < NEIGHBORHOOD && slots[i] == Busy
      modifies this, bitmaps, slots
      ensures Valid() && contents == old(contents)[Id(key) := value]
    {
      hide Good;
      ghost var t, k := View(), Id(key);
      var b := home(key);
      InsertGood(t, i, k, value);
      slots[i] := Item(key, value);
      bitmaps[b] := bitmaps[b] + {i - b};
      contents, place := contents[k := value], place[k := i];
      assert View() == Insert(t, b, i, k, value);
    }

    /** One call, as the map of names sees it. */
    method Call(op: Op<Key>) returns (ok: bool, answer: Answer)
      requires Valid()
      modifies this, bitmaps, slots, stamps
      ensures Valid()
      ensures ok ==> answer == AnswerOf(old(contents), NamedOp(home, op)) &&
                     contents == Updated(old(contents), NamedOp(home, op))
      ensures !ok ==> op.Put? && contents == old(contents) && NoRoom(old(View()), home(op.key))
    {
      hide Good, NoRoom;
      ok := true;
      match op
      case Put(key, value) =>
        var r := Put(key, value);
        ok, answer := !r.TableFull?, Existed(r.Replaced?);
      case Get(key) =>
        var value := Get(key);
        answer := Got(value);
      case Remove(key) =>
        var existed := Remove(key);
        answer := Existed(existed);
    }

    /** Any sequence of calls with any keys answers like a map of their names, until a put gives
        up; and like a map of the keys themselves if no two of them share a name. */
    method Run(ops: seq<Op<Key>>) returns (answers: seq<Answer>)
      requires Valid() && contents == map[]
      modifies this, bitmaps, slots, stamps
      ensures |answers| <= |ops| && (|answers| < |ops| ==> ops[|answers|].Put?)
      ensures Answered(NamedOps(home, ops[..|answers|]), answers)
      ensures Separated(home, KeysOf(ops)) ==> Answered(ops[..|answers|], answers)
    {
      hide Good, AnswerOf, Updated;
      answers := [];
      for j := 0 to |ops|
        invariant Valid() && |answers| == j && Answered(NamedOps(home, ops[..j]), answers)
        invariant contents == After(NamedOps(home, ops[..j]))
      {
        var ok, answer := Call(ops[j]);
        if !ok {
          break;
        }
        OneMoreAnswer(NamedOps(home, ops[..j]), answers, NamedOp(home, ops[j]), answer);
        assert ops[..j + 1] == ops[..j] + [ops[j]];
        assert NamedOps(home, ops[..j + 1]) == NamedOps(home, ops[..j]) + [NamedOp(home, ops[j])];
        answers := answers + [answer];
      }
      if Separated(home, KeysOf(ops)) {
        SeparatedKeys(home, ops[..|answers|], answers);
      }
    }

    /** Keys that share a name do meet: after a put of the first into a fresh table, a put of the
        second says that it is there and changes what a get of the first returns. */
    method KeysMeet(a: Key, b: Key, v: Value, w: Value) returns (first: PutResult, second: PutResult, got: Value)
      requires Valid() && contents == map[] && Id(a) == Id(b)
      requires forall i :: 0 <= i < slots.Length ==> slots[i] == Empty
      modifies this, bitmaps, slots, stamps
      ensures Valid() && first == Inserted && second == Replaced && got == w
    {
      hide Good;
      assert slots[home(a)] == Empty;
      first := Put(a, v);
      second := Put(b, w);
      got := Get(a);
    }
  }

  // ----- The map the table refines -----------------------------------------------------------

  datatype Op<K> = Put(key: K, value: Value) | Get(key: K) | Remove(key: K)

  datatype Answer = Existed(existed: bool) | Got(value: Value)

  function Updated<K>(m: map<K, Value>, op: Op<K>): map<K, Value> {
    match op
    case Put(key, value) => m[key := value]
    case Get(_) => m
    case Remove(key) => m - {key}
  }

  function After<K>(ops: seq<Op<K>>): map<K, Value> {
    if ops == [] then map[] else Updated(After(ops[..|ops| - 1]), ops[|ops| - 1])
  }

  /** The answer a map gives to op. */
  function AnswerOf<K>(m: map<K, Value>, op: Op<K>): Answer {
    match op
    case Put(key, _) => Existed(key in m)
    case Get(key) => Got(if key in m then m[key] else [])
    case Remove(key) => Existed(key in m)
  }

  ghost predicate Answered<K>(ops: seq<Op<K>>, answers: seq<Answer>) {
    |ops| == |answers| && forall j :: 0 <= j < |ops| ==> answers[j] == AnswerOf(After(ops[..j]), ops[j])
  }

  lemma OneMoreAnswer<K>(ops: seq<Op<K>>, answers: seq<Answer>, op: Op<K>, answer: Answer)
    requires Answered(ops, answers) && answer == AnswerOf(After(ops), op)
    ensures Answered(ops + [op], answers + [answer]) && After(ops + [op]) == Updated(After(ops), op)
  {
    hide AnswerOf, Updated;
    var more := ops + [op];
    assert more[..|ops|] == ops;
    assert After(more) == Updated(After(more[..|ops|]), more[|ops|]);
    hide After;
    forall j | 0 <= j < |more| ensures (answers + [answer])[j] == AnswerOf(After(more[..j]), more[j]) {
      if j < |ops| {
        assert more[..j] == ops[..j];
      }
    }
  }

  // ----- Names and keys ------------------------------------------------------------------------

  function NamedOp(home: Key -> nat, op: Op<Key>): Op<Name> {
    match op
    case Put(key, value) => Put(NameOf(home, key), value)
    case Get(key) => Get(NameOf(home, key))
    case Remove(key) => Remove(NameOf(home, key))
  }

  function NamedOps(home: Key -> nat, ops: seq<Op<Key>>): (r: seq<Op<Name>>)
    ensures |r| == |ops| && forall i :: 0 <= i < |ops| ==> r[i] == NamedOp(home, ops[i])
  {
    seq(|ops|, i requires 0 <= i < |ops| => NamedOp(home, ops[i]))
  }

  function KeysOf(ops: seq<Op<Key>>): set<Key> {
    set op | op in ops :: op.key
  }

  /** No two of the keys share a name. */
  predicate Separated(home: Key -> nat, keys: set<Key>) {
    forall a, b | a in keys && b in keys :: NameOf(home, a) == NameOf(home, b) ==> a == b
  }

  /** m and n have the same values for the keys and their names. */
  ghost predicate Alike(home: Key -> nat, keys: set<Key>, m: map<Key, Value>, n: map<Name, Value>) {
    forall k :: k in keys ==>
      (k in m <==> NameOf(home, k) in n) && (k in m && NameOf(home, k) in n ==> m[k] == n[NameOf(home, k)])
  }

  lemma {:induction false} StaysAlike(home: Key -> nat, keys: set<Key>, ops: seq<Op<Key>>)
    requires Separated(home, keys) && KeysOf(ops) <= keys
    ensures Alike(home, keys, After(ops), After(NamedOps(home, ops)))
  {
    if ops != [] {
      hide NameOf;
      var n := |ops| - 1;
      var less, op := ops[..n], ops[n];
      assert op.key in KeysOf(ops);
      forall k | k in KeysOf(less) ensures k in keys {
        var x :| x in less && x.key == k;
        assert x in ops;
      }
      StaysAlike(home, keys, less);
      assert NamedOps(home, ops)[..n] == NamedOps(home, less);
      assert After(ops) == Updated(After(less), op);
      assert After(NamedOps(home, ops)) == Updated(After(NamedOps(home, less)), NamedOp(home, op));
    }
  }

  /** For keys that are told apart, the map of names is the map of keys. */
  lemma SeparatedKeys(home: Key -> nat, ops: seq<Op<Key>>, answers: seq<Answer>)
    requires Answered(NamedOps(home, ops), answers) && Separated(home, KeysOf(ops))
    ensures Answered(ops, answers)
  {
    hide NameOf, After;
    forall j | 0 <= j < |ops| ensures answers[j] == AnswerOf(After(ops[..j]), ops[j]) {
      var keys := KeysOf(ops);
      assert ops[j].key in keys;
      forall k | k in KeysOf(ops[..j]) ensures k in keys {
        var x :| x in ops[..j] && x.key == k;
        assert x in ops;
      }
      StaysAlike(home, keys, ops[..j]);
      assert NamedOps(home, ops)[..j] == NamedOps(home, ops[..j]);
    }
  }

  /** So the table refines a map of keys from a given set if and only if no two of them have one
      home, one length and agree up to a zero byte. */
  lemma RefinesExactly(home: Key -> nat, keys: set<Key>)
    ensures (forall ops, answers :: KeysOf(ops) <= keys && Answered(NamedOps(home, ops), answers) ==>
               Answered(ops, answers)) <==> Separated(home, keys)
  {
    if Separated(home, keys) {
      forall ops, answers | KeysOf(ops) <= keys && Answered(NamedOps(home, ops), answers) ensures Answered(ops, answers) {
        SeparatedKeys(home, ops, answers);
      }
    } else {
      var a, b :| a in keys && b in keys && NameOf(home, a) == NameOf(home, b) && a != b;
      TwoPuts(home, a, b);
      var ops := [Put(a, []), Put(b, [])];
      assert KeysOf(ops) <= keys;
    }
  }

  lemma TwoPuts(home: Key -> nat, a: Key, b: Key)
    requires NameOf(home, a) == NameOf(home, b) && a != b
    ensures var ops, answers := [Put(a, []), Put(b, [])], [Existed(false), Existed(true)];
            Answered(NamedOps(home, ops), answers) && !Answered(ops, answers)
  {
    hide NameOf;
    var ops, answers := [Put(a, []), Put(b, [])], [Existed(false), Existed(true)];
    var named := NamedOps(home, ops);
    assert ops[..1] == [Put(a, [])] && named[..1] == [Put(NameOf(home, a), [])];
    assert [Put(a, [])][..0] == [] && [Put(NameOf(home, a), [])][..0] == [];
    assert After(ops[..1]) == map[a := []] && After(named[..1]) == map[NameOf(home, a) := []];
  }
}
