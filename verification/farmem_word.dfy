/**
 The metadata of a far-memory pointer (pointer.hpp, pointer.ipp, pointer.cpp): what its
 operations do to the fields, and that the bit expressions on the packed 64-bit word do
 exactly that.
 */
module FarMemMeta {
  /** The decoded metadata, over the types of addresses and of ids: 64-bit words, or numbers for
      the ids where the objects themselves are modelled.  The hot counter, which only steers the
      collector's choice, is not part of it. */
  datatype Meta<A, N> =
    | Present(addr: A, dirty: bool, marked: bool, shared: bool)
    | Absent(ds: N, size: N, id: N, shared: bool)
  {
    function SetPresent(a: A): Meta<A, N> {
      Present(a, false, false, shared)
    }

    function SetDirty(): Meta<A, N>
      requires Present?
    {
      this.(dirty := true)
    }

    function ClearDirty(): Meta<A, N>
      requires Present?
    {
      this.(dirty := false)
    }

    function Mark(): Meta<A, N>
      requires Present?
    {
      this.(marked := true)
    }

    /** A move to a: the dirty bit survives, the mark does not. */
    function MoveTo(a: A): Meta<A, N>
      requires Present?
    {
      this.(addr := a, marked := false)
    }

    function WriteBack(ds: N, size: N, id: N): Meta<A, N> {
      Absent(ds, size, id, shared)
    }

    function Deref(mut: bool): Meta<A, N>
      requires Present?
    {
      this.(dirty := dirty || mut)
    }
  }
}

/**
 The packed word.  A present pointer holds

   hot counter (bits 0-7, bit 7 set when cold) | !P (8) | S (9) | !D (10) | E (16) | data address (17-63)

 and an absent one

   data structure id (bits 0-7) | !P (8) | S (9) | object size (10-25) | object id (26-63).
 */
module FarMemWord {
  import opened FarMemMeta

  type Word = bv64

  predicate IsPresent(w: Word) { w & 0x100 == 0 }
  predicate IsShared(w: Word) { w & 0x200 != 0 }
  predicate IsDirty(w: Word) { w & 0x400 == 0 }
  predicate IsHot(w: Word) { w & 0x80 == 0 }
  predicate IsEvacuation(w: Word) { w & 0x1_0000 != 0 }
  predicate IsNull(w: Word) { w & 0xffff_ffff_ffff_ff00 == 0x100 }

  function ObjectAddr(w: Word): Word { (w >> 17) - 10 }
  function ObjectId(w: Word): Word { w >> 26 }
  function ObjectSize(w: Word): Word { (w >> 10) & 0xffff }
  function DsId(w: Word): Word { w & 0xff }

  /** An object address whose data address, ten bytes up, fits the 47 bits of the field. */
  predicate Addressable(a: Word) { a < 0x7fff_ffff_fff0 }

  /** set_present: a clean, cold, unmarked pointer to the object at a. */
  function SetPresent(w: Word, a: Word): Word {
    ((a + 10) << 17) | (0x480 + 1) | (w & 0x200)
  }

  function SetDirty(w: Word): Word { w & 0xffff_ffff_ffff_fbff }
  function ClearDirty(w: Word): Word { w | 0x400 }
  function SetEvacuation(w: Word): Word { w | 0x1_0000 }

  /** mutator_copy: everything but the mark survives the move. */
  function MutatorCopy(w: Word, a: Word): Word {
    (w & 0x1_ffff & 0xffff_ffff_fffe_ffff) | ((a + 10) << 17) | (w & 0x200)
  }

  /** gc_copy: the second byte, with the dirty bit, survives; the object starts cold. */
  function GcCopy(w: Word, a: Word): Word {
    ((a + 10) << 17) | (0x80 + 1) | (w & 0xff00) | (w & 0x200)
  }

  /** gc_wb: the absent form, from which the object can be found again. */
  function GcWriteBack(w: Word, ds: Word, size: Word, id: Word): Word {
    (id << 26) | (size << 10) | 0x100 | ds | (w & 0x200)
  }

  /** The bookkeeping of _deref on a present, unmarked pointer that is not shared: on the
      slow path a mutable dereference zeroes the second byte, and the hot counter goes
      down by one. */
  function Deref(w: Word, mut: bool): Word {
    if mut then (if w & 0x1_0580 == 0 then w else CoolDown(w & 0xffff_ffff_ffff_00ff))
    else if w & 0x1_0180 == 0 then w else CoolDown(w)
  }

  /** The same for a shared pointer, whose second byte keeps the shared bit. */
  function DerefShared(w: Word, mut: bool): Word {
    if mut then (if w & 0x1_0580 == 0 then w else CoolDown((w & 0xffff_ffff_ffff_00ff) | 0x200))
    else if w & 0x1_0180 == 0 then w else CoolDown(w)
  }

  function CoolDown(w: Word): Word {
    (w & 0xffff_ffff_ffff_ff00) | (((w & 0xff) - 1) & 0xff)
  }

  function View(w: Word): Meta<Word, Word> {
    if IsPresent(w) then Present(ObjectAddr(w), IsDirty(w), IsEvacuation(w), IsShared(w))
    else Absent(DsId(w), ObjectSize(w), ObjectId(w), IsShared(w))
  }

  lemma ViewOfSetPresent(w: Word, a: Word)
    requires Addressable(a)
    ensures View(SetPresent(w, a)) == View(w).SetPresent(a)
  {}

  lemma ViewOfSetDirty(w: Word)
    requires IsPresent(w)
    ensures View(SetDirty(w)) == View(w).SetDirty()
  {}

  lemma ViewOfClearDirty(w: Word)
    requires IsPresent(w)
    ensures View(ClearDirty(w)) == View(w).ClearDirty()
  {}

  lemma ViewOfSetEvacuation(w: Word)
    requires IsPresent(w)
    ensures View(SetEvacuation(w)) == View(w).Mark()
  {}

  lemma ViewOfMutatorCopy(w: Word, a: Word)
    requires Addressable(a) && IsPresent(w)
    ensures View(MutatorCopy(w, a)) == View(w).MoveTo(a)
    ensures IsHot(MutatorCopy(w, a)) <==> IsHot(w)
  {}

  lemma ViewOfGcCopy(w: Word, a: Word)
    requires Addressable(a) && IsPresent(w)
    ensures View(GcCopy(w, a)) == View(w).MoveTo(a)
    ensures !IsHot(GcCopy(w, a))
  {}

  lemma ViewOfGcWriteBack(w: Word, ds: Word, size: Word, id: Word)
    requires ds < 0x100 && 0 < size < 0x1_0000 && id < 0x40_0000_0000
    ensures View(GcWriteBack(w, ds, size, id)) == View(w).WriteBack(ds, size, id)
    ensures !IsNull(GcWriteBack(w, ds, size, id))
  {}

  lemma ViewOfCoolDown(w: Word)
    requires IsPresent(w)
    ensures View(CoolDown(w)) == View(w)
  {}

  /** A mutable dereference leaves the pointer dirty, any other one as it was. */
  lemma ViewOfDeref(w: Word, mut: bool)
    requires IsPresent(w) && !IsEvacuation(w) && !IsShared(w)
    ensures View(Deref(w, mut)) == View(w).Deref(mut)
  {
    var marked := w & 0xffff_ffff_ffff_00ff;
    assert View(marked) == View(w).SetDirty();
    assert w & 0x1_0580 == 0 ==> IsDirty(w);
    ViewOfCoolDown(marked);
    ViewOfCoolDown(w);
    hide CoolDown, View;
  }

  lemma ViewOfDerefShared(w: Word, mut: bool)
    requires IsPresent(w) && !IsEvacuation(w) && IsShared(w)
    ensures View(DerefShared(w, mut)) == View(w).Deref(mut)
  {
    var marked := (w & 0xffff_ffff_ffff_00ff) | 0x200;
    assert View(marked) == View(w).SetDirty();
    assert w & 0x1_0580 == 0 ==> IsDirty(w);
    ViewOfCoolDown(marked);
    ViewOfCoolDown(w);
    hide CoolDown, View;
  }

  /** The dereference of either kind of pointer; which one it is does not change. */
  function DerefAny(w: Word, mut: bool): Word {
    if IsShared(w) then DerefShared(w, mut) else Deref(w, mut)
  }

  /** Hotness: a fetched object and one moved by the collector are cold, and the second dereference
      makes them hot. */
  lemma HotAfterTwo(w: Word, a: Word, mut: bool)
    requires Addressable(a) && IsPresent(w)
    ensures var c := SetPresent(w, a); !IsHot(c) && !IsHot(DerefAny(c, mut)) && IsHot(DerefAny(DerefAny(c, mut), mut))
    ensures var c := GcCopy(w, a); !IsHot(c) && !IsHot(DerefAny(c, mut)) && IsHot(DerefAny(DerefAny(c, mut), mut))
  {
    WarmsUp(SetPresent(w, a), mut);
    WarmsUp(GcCopy(w, a), mut);
  }

  lemma WarmsUp(c: Word, mut: bool)
    requires c & 0xff == 0x81
    ensures !IsHot(c) && !IsHot(DerefAny(c, mut)) && IsHot(DerefAny(DerefAny(c, mut), mut))
  {
    var d := DerefAny(c, mut);
    assert d & 0xff == 0x80;
  }

  /** Reading through a hot pointer leaves the word alone. */
  lemma HotReadIsFree(w: Word)
    requires IsPresent(w) && IsHot(w) && !IsEvacuation(w)
    ensures DerefAny(w, false) == w
  {}

  /** init: the word of a new object. */
  function Fresh(shared: bool, a: Word): Word {
    SetDirty(SetPresent(if shared then 0x200 else 0, a))
  }

  lemma ViewOfFresh(shared: bool, a: Word)
    requires Addressable(a)
    ensures View(Fresh(shared, a)) == Present(a, true, false, shared)
  {
    var w: Word := if shared then 0x200 else 0;
    ViewOfSetPresent(w, a);
    ViewOfSetDirty(SetPresent(w, a));
    assert IsShared(w) == shared && View(w).shared == shared;
    hide SetPresent, SetDirty;
  }

  // ----- Numbers in words -------------------------------------------------------------------

  predicate Odd(n: nat) { n % 2 == 1 }
  function Half(n: nat): nat { n / 2 }
  function One(b: bool): nat { if b then 1 else 0 }
  function Bit(b: bool, w: bv8): bv8 { if b then w else 0 }

  function Eight(b0: bool, b1: bool, b2: bool, b3: bool, b4: bool, b5: bool, b6: bool, b7: bool): bv8 {
    Bit(b0, 1) | Bit(b1, 2) | Bit(b2, 4) | Bit(b3, 8) | Bit(b4, 16) | Bit(b5, 32) | Bit(b6, 64) | Bit(b7, 128)
  }

  function Sum(o0: nat, o1: nat, o2: nat, o3: nat, o4: nat, o5: nat, o6: nat, o7: nat): nat {
    o0 + 2 * (o1 + 2 * (o2 + 2 * (o3 + 2 * (o4 + 2 * (o5 + 2 * (o6 + 2 * o7))))))
  }

  /** The lowest eight bits of n, the number they stand for, and what is left of n. */
  function Digit(n: nat): bv8 {
    var n1 := Half(n);
    var n2 := Half(n1);
    var n3 := Half(n2);
    var n4 := Half(n3);
    var n5 := Half(n4);
    var n6 := Half(n5);
    Eight(Odd(n), Odd(n1), Odd(n2), Odd(n3), Odd(n4), Odd(n5), Odd(n6), Odd(Half(n6)))
  }

  function DigitValue(b: bv8): nat {
    Sum(One(b & 1 != 0), One(b & 2 != 0), One(b & 4 != 0), One(b & 8 != 0),
        One(b & 16 != 0), One(b & 32 != 0), One(b & 64 != 0), One(b & 128 != 0))
  }

  function Above(n: nat): nat {
    Half(Half(Half(Half(Half(Half(Half(Half(n))))))))
  }

  lemma HalfOf(n: nat)
    ensures n == One(Odd(n)) + 2 * Half(n)
  {}

  lemma BitsOf(b0: bool, b1: bool, b2: bool, b3: bool, b4: bool, b5: bool, b6: bool, b7: bool)
    ensures var b := Eight(b0, b1, b2, b3, b4, b5, b6, b7);
            && (b & 1 != 0) == b0 && (b & 2 != 0) == b1 && (b & 4 != 0) == b2 && (b & 8 != 0) == b3
            && (b & 16 != 0) == b4 && (b & 32 != 0) == b5 && (b & 64 != 0) == b6 && (b & 128 != 0) == b7
  {}

  lemma SumMeans(n: nat, n1: nat, n2: nat, n3: nat, n4: nat, n5: nat, n6: nat, n7: nat, n8: nat,
                 o0: nat, o1: nat, o2: nat, o3: nat, o4: nat, o5: nat, o6: nat, o7: nat)
    requires n == o0 + 2 * n1 && n1 == o1 + 2 * n2 && n2 == o2 + 2 * n3 && n3 == o3 + 2 * n4
    requires n4 == o4 + 2 * n5 && n5 == o5 + 2 * n6 && n6 == o6 + 2 * n7 && n7 == o7 + 2 * n8
    ensures n == Sum(o0, o1, o2, o3, o4, o5, o6, o7) + 256 * n8
  {}

  lemma DigitIs(n: nat)
    ensures n == DigitValue(Digit(n)) + 256 * Above(n)
  {
    hide Half, Odd, One, Eight, Sum;
    var n1 := Half(n);
    var n2 := Half(n1);
    var n3 := Half(n2);
    var n4 := Half(n3);
    var n5 := Half(n4);
    var n6 := Half(n5);
    var n7 := Half(n6);
    HalfOf(n);
    HalfOf(n1);
    HalfOf(n2);
    HalfOf(n3);
    HalfOf(n4);
    HalfOf(n5);
    HalfOf(n6);
    HalfOf(n7);
    BitsOf(Odd(n), Odd(n1), Odd(n2), Odd(n3), Odd(n4), Odd(n5), Odd(n6), Odd(n7));
    SumMeans(n, n1, n2, n3, n4, n5, n6, n7, Half(n7), One(Odd(n)), One(Odd(n1)), One(Odd(n2)), One(Odd(n3)),
             One(Odd(n4)), One(Odd(n5)), One(Odd(n6)), One(Odd(n7)));
  }

  function Pack(b0: bv8, b1: bv8, b2: bv8, b3: bv8, b4: bv8): Word {
    (b0 as Word) | ((b1 as Word) << 8) | ((b2 as Word) << 16) | ((b3 as Word) << 24) | ((b4 as Word) << 32)
  }

  function Combine(d0: nat, d1: nat, d2: nat, d3: nat, d4: nat): nat {
    d0 + 256 * (d1 + 256 * (d2 + 256 * (d3 + 256 * d4)))
  }

  function LowDigit(w: Word): nat { DigitValue((w & 0xff) as bv8) }

  /** The word that holds the number n, and the number in a word, up to forty bits. */
  function ToWord(n: nat): Word {
    var n1 := Above(n);
    var n2 := Above(n1);
    var n3 := Above(n2);
    Pack(Digit(n), Digit(n1), Digit(n2), Digit(n3), Digit(Above(n3)))
  }

  function ToNat(w: Word): nat {
    Combine(LowDigit(w), LowDigit(w >> 8), LowDigit(w >> 16), LowDigit(w >> 24), LowDigit(w >> 32))
  }

  lemma PackDigits(b0: bv8, b1: bv8, b2: bv8, b3: bv8, b4: bv8)
    ensures var w := Pack(b0, b1, b2, b3, b4);
            && LowDigit(w) == DigitValue(b0) && LowDigit(w >> 8) == DigitValue(b1) && LowDigit(w >> 16) == DigitValue(b2)
            && LowDigit(w >> 24) == DigitValue(b3) && LowDigit(w >> 32) == DigitValue(b4)
  {
    hide DigitValue;
  }

  lemma CombineMeans(n: nat, n1: nat, n2: nat, n3: nat, n4: nat, n5: nat, d0: nat, d1: nat, d2: nat, d3: nat, d4: nat)
    requires n == d0 + 256 * n1 && n1 == d1 + 256 * n2 && n2 == d2 + 256 * n3 && n3 == d3 + 256 * n4
    requires n4 == d4 + 256 * n5 && n < 0x100_0000_0000
    ensures n == Combine(d0, d1, d2, d3, d4)
    ensures n < ID_LIMIT ==> n4 < 64
    ensures n < 0x1_0000 ==> n2 == n3 == n4 == 0
    ensures n < 0x100 ==> n1 == n2 == n3 == n4 == 0
  {}

  /** A number of up to forty bits can be read back from the word, and takes no more bits of it
      than it has. */
  lemma NumberRoundTrip(n: nat)
    requires n < 0x100_0000_0000
    ensures ToNat(ToWord(n)) == n
    ensures n < ID_LIMIT ==> ToWord(n) < 0x40_0000_0000
    ensures n < 0x1_0000 ==> ToWord(n) < 0x1_0000
    ensures n < 0x100 ==> ToWord(n) < 0x100
  {
    hide Pack, Digit, DigitValue, LowDigit, Combine, Above;
    var n1 := Above(n);
    var n2 := Above(n1);
    var n3 := Above(n2);
    var n4 := Above(n3);
    DigitIs(n);
    DigitIs(n1);
    DigitIs(n2);
    DigitIs(n3);
    DigitIs(n4);
    PackDigits(Digit(n), Digit(n1), Digit(n2), Digit(n3), Digit(n4));
    CombineMeans(n, n1, n2, n3, n4, Above(n4), DigitValue(Digit(n)), DigitValue(Digit(n1)), DigitValue(Digit(n2)),
                 DigitValue(Digit(n3)), DigitValue(Digit(n4)));
    SmallDigit(n4);
    PackSmall(Digit(n), Digit(n1), Digit(n2), Digit(n3), Digit(n4));
  }

  lemma SmallDigit(n: nat)
    ensures n < 64 ==> Digit(n) < 64
    ensures Digit(0) == 0
  {
    if n < 64 {
      HalvesOfSmall(n);
      hide Half;
    }
  }

  lemma HalvesOfSmall(n: nat)
    requires n < 64
    ensures Half(Half(Half(Half(Half(Half(n)))))) == 0 && Half(0) == 0
  {}

  lemma PackSmall(b0: bv8, b1: bv8, b2: bv8, b3: bv8, b4: bv8)
    ensures b4 < 64 ==> Pack(b0, b1, b2, b3, b4) < 0x40_0000_0000
    ensures b2 == b3 == b4 == 0 ==> Pack(b0, b1, b2, b3, b4) < 0x1_0000
    ensures b1 == b2 == b3 == b4 == 0 ==> Pack(b0, b1, b2, b3, b4) < 0x100
  {}

  lemma ZeroWord()
    ensures ToNat(0) == 0
  {}

  // ----- The metadata, with numbers for ids ----------------------------------------------------

  /** Object ids have 38 bits. */
  const ID_LIMIT: nat := 0x40_0000_0000

  /** The address of an object in the cache, and the metadata of a pointer as it is stored. */
  datatype Addr = Addr(bits: Word)

  datatype Packed = Packed(word: Word)

  function Decoded(w: Word): Meta<Addr, nat> {
    match View(w)
    case Present(a, dirty, marked, shared) => Present(Addr(a), dirty, marked, shared)
    case Absent(ds, size, id, shared) => Absent(ToNat(ds), ToNat(size), ToNat(id), shared)
  }

  /** What each operation on the word does to the metadata in it. */
  lemma DecodedSetPresent(w: Word, a: Word)
    requires Addressable(a)
    ensures Decoded(SetPresent(w, a)) == Decoded(w).SetPresent(Addr(a))
  {
    hide View, SetPresent, ToNat, Addressable;
    ViewOfSetPresent(w, a);
    SharedKept(w);
  }

  lemma DecodedMove(w: Word, a: Word)
    requires Addressable(a) && IsPresent(w)
    ensures Decoded(w).Present?
    ensures Decoded(MutatorCopy(w, a)) == Decoded(w).MoveTo(Addr(a)) == Decoded(GcCopy(w, a))
  {
    hide View, MutatorCopy, GcCopy, ToNat, IsPresent, Addressable, IsHot;
    PresentView(w);
    ViewOfMutatorCopy(w, a);
    ViewOfGcCopy(w, a);
  }

  lemma DecodedGcWriteBack(w: Word, ds: nat, size: nat, id: nat)
    requires ds < 0x100 && 0 < size < 0x1_0000 && id < ID_LIMIT
    ensures Decoded(GcWriteBack(w, ToWord(ds), ToWord(size), ToWord(id))) == Decoded(w).WriteBack(ds, size, id)
    ensures !IsNull(GcWriteBack(w, ToWord(ds), ToWord(size), ToWord(id)))
  {
    hide View, GcWriteBack, ToNat, ToWord, IsNull;
    NumberRoundTrip(ds);
    NumberRoundTrip(size);
    NumberRoundTrip(id);
    ZeroWord();
    ViewOfGcWriteBack(w, ToWord(ds), ToWord(size), ToWord(id));
    SharedKept(w);
  }

  lemma SharedKept(w: Word)
    ensures View(w).shared == Decoded(w).shared
  {}

  lemma DecodedDeref(w: Word, mut: bool)
    requires IsPresent(w) && !IsEvacuation(w)
    ensures Decoded(w).Present? && Decoded(DerefAny(w, mut)) == Decoded(w).Deref(mut)
  {
    hide View, Deref, DerefShared, ToNat, IsPresent, IsEvacuation, IsShared;
    PresentView(w);
    if IsShared(w) {
      ViewOfDerefShared(w, mut);
    } else {
      ViewOfDeref(w, mut);
    }
  }

  lemma PresentView(w: Word)
    ensures IsPresent(w) <==> View(w).Present?
    ensures IsPresent(w) <==> Decoded(w).Present?
  {}

  lemma DecodedMark(w: Word)
    requires IsPresent(w)
    ensures Decoded(w).Present? && Decoded(SetEvacuation(w)) == Decoded(w).Mark()
  {
    hide View, SetEvacuation, ToNat, IsPresent;
    PresentView(w);
    ViewOfSetEvacuation(w);
  }

  lemma DecodedClearDirty(w: Word)
    requires IsPresent(w)
    ensures Decoded(w).Present? && Decoded(ClearDirty(w)) == Decoded(w).ClearDirty()
  {
    hide View, ClearDirty, ToNat, IsPresent;
    PresentView(w);
    ViewOfClearDirty(w);
  }

  lemma DecodedFresh(shared: bool, a: Word)
    requires Addressable(a)
    ensures Decoded(Fresh(shared, a)) == Present(Addr(a), true, false, shared)
  {
    ViewOfFresh(shared, a);
    hide View, Fresh, ToNat;
  }

  /** The fields as the code reads them. */
  lemma DecodedFields(w: Word)
    ensures Decoded(w) == if IsPresent(w) then Present(Addr(ObjectAddr(w)), IsDirty(w), IsEvacuation(w), IsShared(w))
                          else Absent(ToNat(DsId(w)), ToNat(ObjectSize(w)), ToNat(ObjectId(w)), IsShared(w))
  {
    hide ToNat;
  }
}
