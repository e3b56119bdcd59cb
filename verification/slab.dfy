/**
 The slab allocator behind the local hash table (slab.cpp): blocks are carved off one
 range and recycled through free lists, one per core and size class.
 */
module Slab {
  import opened Basics

  const NUM_CLASSES: nat := 7
  const MIN_SHIFT: nat := 5
  const REPLENISH_CHUNK: nat := 512

  function ClassSize(k: nat): nat {
    Pow2(MIN_SHIFT + k)
  }

  /** round_up_power_of_two. */
  function RoundUp(n: nat): nat
    requires n > 0
  {
    if n == 1 then 1 else Pow2(Log2(n - 1) + 1)
  }

  /** get_slab_idx; None where the code gives up. */
  function ClassOf(size: nat): Option<nat>
    requires size > 0
  {
    var rounded := RoundUp(size);
    if rounded > 2048 then None
    else Some(Log2(if rounded / 32 > 1 then rounded / 32 else 1))
  }

  lemma ClassValues()
    ensures ClassSize(0) == 32 && ClassSize(1) == 64 && ClassSize(2) == 128 && ClassSize(3) == 256
    ensures ClassSize(4) == 512 && ClassSize(5) == 1024 && ClassSize(6) == 2048
    ensures Pow2(0) == 1 && Pow2(1) == 2 && Pow2(2) == 4 && Pow2(3) == 8 && Pow2(4) == 16
  {
    assert Pow2(1) == 2 * Pow2(0);
    assert Pow2(2) == 2 * Pow2(1);
    assert Pow2(3) == 2 * Pow2(2);
    assert Pow2(4) == 2 * Pow2(3);
    assert Pow2(5) == 2 * Pow2(4);
    assert Pow2(6) == 2 * Pow2(5);
    assert Pow2(7) == 2 * Pow2(6);
    assert Pow2(8) == 2 * Pow2(7);
    assert Pow2(9) == 2 * Pow2(8);
    assert Pow2(10) == 2 * Pow2(9);
    assert Pow2(11) == 2 * Pow2(10);
  }

  /** A request gets the smallest class it fits, and only requests above the largest class
      get none. */
  lemma ClassFits(size: nat)
    requires size > 0
    ensures ClassOf(size).Some? <==> size <= 2048
    ensures ClassOf(size).Some? ==>
              var k := ClassOf(size).value;
              k < NUM_CLASSES && size <= ClassSize(k) && (k > 0 ==> ClassSize(k - 1) < size)
  {
    ClassValues();
    if size > 1 {
      var e := Log2(size - 1) + 1;
      Log2Bounds(size - 1);
      assert Pow2(e) == 2 * Pow2(e - 1) && Pow2(e - 1) < size <= Pow2(e);
      RoundedClass(size, e);
    }
  }

  lemma RoundedClass(size: nat, e: nat)
    requires size > 1 && e > 0 && e == Log2(size - 1) + 1 && Pow2(e - 1) < size <= Pow2(e)
    ensures ClassOf(size).Some? <==> size <= 2048
    ensures ClassOf(size).Some? ==>
              var k := ClassOf(size).value;
              k < NUM_CLASSES && size <= ClassSize(k) && (k > 0 ==> ClassSize(k - 1) < size)
  {
    ClassValues();
    hide Pow2, Log2;
    if e >= 12 {
      Pow2Mono(11, e - 1);
    } else if e <= 5 {
      Pow2Mono(e, 5);
      Log2OfPow2(0);
    } else {
      Pow2Mono(e, 11);
      Pow2Sum(5, e - 5);
      Log2OfPow2(e - 5);
      Pow2Mono(1, e - 5);
    }
  }

  // ----- The allocator ------------------------------------------------------------------

  predicate Apart(p: nat, k: nat, q: nat, l: nat) {
    p + ClassSize(k) <= q || q + ClassSize(l) <= p
  }

  /** Where a block is: handed out, or at a position of some core's list. */
  datatype Owner = Live | Listed(core: nat, i: nat)

  lemma OneMoreBlock(n: nat, size: nat)
    ensures (n + 1) * size == n * size + size
  {}

  lemma ApartMore(blocks: map<nat, nat>, p: nat, k: nat)
    requires forall x, y :: x in blocks && y in blocks && x != y ==> Apart(x, blocks[x], y, blocks[y])
    requires forall q :: q in blocks ==> q != p && Apart(p, k, q, blocks[q]) && Apart(q, blocks[q], p, k)
    ensures var more := blocks[p := k];
            forall x, y :: x in more && y in more && x != y ==> Apart(x, more[x], y, more[y])
  {
    hide Apart;
  }

  function LiveIn(blocks: map<nat, nat>, owner: map<nat, Owner>): map<nat, nat> {
    map p | p in blocks && p in owner && owner[p].Live? :: blocks[p]
  }

  lemma LiveMore(blocks: map<nat, nat>, owner: map<nat, Owner>, p: nat, k: nat)
    requires p !in blocks && owner.Keys == blocks.Keys
    ensures LiveIn(blocks[p := k], owner[p := Live]) == LiveIn(blocks, owner)[p := k]
    ensures p !in LiveIn(blocks, owner)
  {}

  lemma LiveLess(blocks: map<nat, nat>, owner: map<nat, Owner>, p: nat, to: Owner)
    requires !to.Live?
    ensures LiveIn(blocks, owner[p := to]) == LiveIn(blocks, owner) - {p}
  {}

  /** Addresses are offsets from base_. */
  class SlabAllocator {
    const len: nat
    const lists: array2<seq<nat>>   // slabs_[core][class]
    var cur: nat
    ghost var blocks: map<nat, nat>      // every block ever carved, with its class
    ghost var owner: map<nat, Owner>

    ghost predicate InRange(p: nat)
      requires p in blocks
      reads this
    {
      blocks[p] < NUM_CLASSES && p + ClassSize(blocks[p]) <= cur
    }

    /** The block at a list position is of that class and nowhere else. */
    ghost predicate At(c: nat, k: nat, i: nat)
      requires c < lists.Length0 && k < lists.Length1 && i < |lists[c, k]|
      reads this, lists
    {
      var p := lists[c, k][i];
      p in blocks && blocks[p] == k && p in owner && owner[p] == Listed(c, i)
    }

    /** A block is live or where its owner says. */
    ghost predicate Kept(p: nat)
      requires p in blocks
      reads this, lists
    {
      && p in owner
      && (owner[p].Listed? ==>
            && owner[p].core < lists.Length0 && blocks[p] < lists.Length1
            && owner[p].i < |lists[owner[p].core, blocks[p]]| && lists[owner[p].core, blocks[p]][owner[p].i] == p)
    }

    ghost predicate Valid()
      reads this, lists
    {
      && lists.Length1 == NUM_CLASSES && cur <= len && owner.Keys == blocks.Keys
      && (forall p :: p in blocks ==> InRange(p) && Kept(p))
      && (forall p, q :: p in blocks && q in blocks && p != q ==> Apart(p, blocks[p], q, blocks[q]))
      && (forall c, k, i :: 0 <= c < lists.Length0 && 0 <= k < lists.Length1 && 0 <= i < |lists[c, k]| ==> At(c, k, i))
    }

    /** The blocks handed out, with their classes. */
    ghost function LiveBlocks(): map<nat, nat>
      requires Valid()
      reads this, lists
    {
      LiveIn(blocks, owner)
    }

    constructor (len: nat, numCores: nat)
      ensures Valid() && LiveBlocks() == map[] && this.len == len && lists.Length0 == numCores && fresh(lists)
    {
      this.len, cur, blocks, owner := len, 0, map[], map[];
      lists := new seq<nat>[numCores, NUM_CLASSES]((_, _) => []);
    }

    /** replenish: carves up to 512 blocks off the end of the range. */
    method Replenish(core: nat, k: nat)
      requires Valid() && core < lists.Length0 && k < NUM_CLASSES
      modifies this, lists
      ensures Valid() && LiveBlocks() == old(LiveBlocks())
      ensures if old(cur) + ClassSize(k) <= len then |lists[core, k]| > |old(lists[core, k])|
              else lists[core, k] == old(lists[core, k])
      ensures var n := |lists[core, k]| - |old(lists[core, k])|;
              0 <= n <= REPLENISH_CHUNK && cur == old(cur) + n * ClassSize(k) &&
              (n < REPLENISH_CHUNK ==> cur + ClassSize(k) > len)
    {
      hide ClassSize;
      var i := 0;
      while i < REPLENISH_CHUNK && cur + ClassSize(k) <= len
        invariant Valid() && LiveBlocks() == old(LiveBlocks()) && i <= REPLENISH_CHUNK
        invariant i == 0 ==> cur == old(cur) && lists[core, k] == old(lists[core, k])
        invariant i > 0 ==> old(cur) + ClassSize(k) <= len && |lists[core, k]| > |old(lists[core, k])|
        invariant |lists[core, k]| == |old(lists[core, k])| + i && cur == old(cur) + i * ClassSize(k)
      {
        OneMoreBlock(i, ClassSize(k));
        Carve(core, k);
        i := i + 1;
      }
    }

    method Carve(core: nat, k: nat)
      requires Valid() && core < lists.Length0 && k < NUM_CLASSES && cur + ClassSize(k) <= len
      modifies this, lists
      ensures Valid() && LiveBlocks() == old(LiveBlocks()) && cur == old(cur) + ClassSize(k)
      ensures |lists[core, k]| == |old(lists[core, k])| + 1
    {
      hide SlabAllocator.Valid, LiveIn, Pow2, ClassSize, Apart;
      SameKeys();
      var p := CutOff(k);
      LiveMore(old(blocks), old(owner), p, k);
      Push(core, p, k);
    }

    lemma SameKeys()
      requires Valid()
      ensures owner.Keys == blocks.Keys
    {}

    /** The next block of the range. */
    method CutOff(k: nat) returns (p: nat)
      requires Valid() && k < NUM_CLASSES && cur + ClassSize(k) <= len
      modifies this
      ensures Valid() && p !in old(blocks) && blocks == old(blocks)[p := k] && owner == old(owner)[p := Live]
      ensures cur == old(cur) + ClassSize(k)
    {
      BelowCur(k);
      hide Pow2, Apart, ClassSize;
      p := cur;
      MoveUp(ClassSize(k));
      hide SlabAllocator.At;
      Note(p, k);
    }

    /** The cut moves up. */
    method MoveUp(n: nat)
      requires Valid() && cur + n <= len
      modifies `cur
      ensures Valid() && cur == old(cur) + n
    {
      hide Pow2, Apart, ClassSize;
      cur := cur + n;
      forall q | q in blocks ensures InRange(q) && Kept(q) {
        assert old(InRange(q) && Kept(q));
      }
      forall c, l, i | 0 <= c < lists.Length0 && 0 <= l < lists.Length1 && 0 <= i < |lists[c, l]| ensures At(c, l, i) {
        assert old(At(c, l, i));
      }
    }

    /** A block below the cut, apart from all others, is handed out. */
    ghost method Note(p: nat, k: nat)
      requires Valid() && k < NUM_CLASSES && p + ClassSize(k) <= cur
      requires forall q :: q in blocks ==> q != p && Apart(p, k, q, blocks[q]) && Apart(q, blocks[q], p, k)
      modifies `blocks, `owner
      ensures Valid() && blocks == old(blocks)[p := k] && owner == old(owner)[p := Live]
    {
      hide Pow2, Apart, ClassSize;
      ApartMore(blocks, p, k);
      blocks, owner := blocks[p := k], owner[p := Live];
      forall q | q in blocks ensures InRange(q) && Kept(q) {
        assert q != p ==> old(InRange(q) && Kept(q));
      }
      hide SlabAllocator.InRange, SlabAllocator.Kept;
      forall c, l, i | 0 <= c < lists.Length0 && 0 <= l < lists.Length1 && 0 <= i < |lists[c, l]| ensures At(c, l, i) {
        assert old(At(c, l, i));
      }
    }

    lemma BelowCur(k: nat)
      requires Valid()
      ensures forall q :: q in blocks ==> q != cur && Apart(cur, k, q, blocks[q]) && Apart(q, blocks[q], cur, k)
    {
      forall q | q in blocks ensures q != cur && Apart(cur, k, q, blocks[q]) && Apart(q, blocks[q], cur, k) {
        assert InRange(q);
      }
    }

    /** allocate: the block is in range, large enough and apart from every live one; there is none
        exactly if the core's list is empty and no block of the class is left in the range. */
    method Allocate(core: nat, size: nat) returns (r: Option<nat>)
      requires Valid() && core < lists.Length0 && 0 < size <= 2048
      modifies this, lists
      ensures Valid()
      ensures ClassOf(size).Some? && ClassOf(size).value < NUM_CLASSES
      ensures var k := ClassOf(size).value;
              r.None? <==> old(lists[core, k]) == [] && old(cur) + ClassSize(k) > len
      ensures r.None? ==> LiveBlocks() == old(LiveBlocks())
      ensures r.Some? ==> r.value !in old(LiveBlocks()) && r.value + size <= len
      ensures r.Some? ==> exists k :: ClassOf(size) == Some(k) && LiveBlocks() == old(LiveBlocks())[r.value := k]
    {
      ClassFits(size);
      hide ClassOf, Pow2;
      var k := ClassOf(size).value;
      if lists[core, k] == [] {
        Replenish(core, k);
        if lists[core, k] == [] {
          return None;
        }
      }
      var p := Pop(core, k);
      return Some(p);
    }

    method Pop(core: nat, k: nat) returns (p: nat)
      requires Valid() && core < lists.Length0 && k < NUM_CLASSES && lists[core, k] != []
      modifies this, lists
      ensures Valid() && p !in old(LiveBlocks()) && p + ClassSize(k) <= len
      ensures LiveBlocks() == old(LiveBlocks())[p := k]
    {
      hide Pow2, Apart, ClassSize;
      var list := lists[core, k];
      p := list[|list| - 1];
      assert At(core, k, |list| - 1);
      lists[core, k] := list[..|list| - 1];
      owner := owner[p := Live];
      forall q | q in blocks ensures InRange(q) && Kept(q) {
        assert old(InRange(q) && Kept(q));
      }
      forall c, l, i | 0 <= c < lists.Length0 && 0 <= l < lists.Length1 && 0 <= i < |lists[c, l]| ensures At(c, l, i) {
        assert old(At(c, l, i));
      }
    }

    /** free of a live block, with a size of its class, on any core. */
    method Free(core: nat, p: nat, size: nat)
      requires Valid() && core < lists.Length0 && 0 < size <= 2048
      requires p in LiveBlocks() && ClassOf(size) == Some(LiveBlocks()[p])
      modifies this, lists
      ensures Valid() && LiveBlocks() == old(LiveBlocks()) - {p}
    {
      ClassFits(size);
      hide ClassOf, Pow2;
      Push(core, p, ClassOf(size).value);
    }

    method Push(core: nat, p: nat, k: nat)
      requires Valid() && core < lists.Length0 && k < NUM_CLASSES && p in LiveBlocks() && LiveBlocks()[p] == k
      modifies this, lists
      ensures Valid() && LiveBlocks() == old(LiveBlocks()) - {p} && cur == old(cur)
      ensures |lists[core, k]| == |old(lists[core, k])| + 1
    {
      hide Pow2, Apart, ClassSize;
      LiveLess(blocks, owner, p, Listed(core, |lists[core, k]|));
      assert p in blocks && p in owner && blocks[p] == k && owner[p].Live?;
      hide LiveIn;
      owner := owner[p := Listed(core, |lists[core, k]|)];
      lists[core, k] := lists[core, k] + [p];
      forall q | q in blocks ensures InRange(q) && Kept(q) {
        assert old(InRange(q) && Kept(q));
      }
      hide SlabAllocator.InRange, SlabAllocator.Kept;
      forall c, l, i | 0 <= c < lists.Length0 && 0 <= l < lists.Length1 && 0 <= i < |lists[c, l]| ensures At(c, l, i) {
        if c == core && l == k && i == |lists[c, l]| - 1 {
        } else {
          assert old(At(c, l, i));
        }
      }
    }

    /** Live blocks never overlap. */
    lemma LiveApart(p: nat, q: nat)
      requires Valid() && p in LiveBlocks() && q in LiveBlocks() && p != q
      ensures Apart(p, LiveBlocks()[p], q, LiveBlocks()[q])
    {}
  }
}
