/**
 Objects that move between the local cache and the remote store (manager.cpp,
 pointer.cpp, pointer.ipp).  Each method is one step under the object lock.  Pointers
 are unique pointers; local memory is a map from addresses to objects.
 */
module FarMemObject {
  import opened Basics
  import opened FarMemMeta
  import opened FarMemRemote
  import opened FarMemWord

  type Ptr = nat

  /** An object in the cache: data structure, object id and data. */
  datatype Object = Object(ds: nat, id: nat, data: seq<Byte>)

  /** The size of an object with its header and its eight-byte id. */
  function SizeOf(data: seq<Byte>): nat {
    OBJECT_HEADER + |data| + ID_SIZE
  }

  predicate Fits(o: Object) {
    o.ds < 0x100 && o.id < ID_LIMIT && |o.data| <= MAX_DATA
  }

  function ExtentOf(o: Object): Extent {
    Extent(o.id, SizeOf(o.data))
  }

  /** Everything there is to know about the memory at one time: what the machine has, and
      each pointer's object as last written with its place among the remote extents. */
  datatype Snapshot = Snapshot(
    metas: map<Ptr, Meta<Addr, nat>>,
    heap: map<Addr, Object>,
    remote: seq<Byte>,
    extents: seq<Extent>,
    objects: map<Ptr, Object>,
    slot: map<Ptr, nat>)

  /** The remote extent of each object is its own. */
  ghost predicate Placed(s: Snapshot, p: Ptr)
    requires p in s.objects
  {
    && Fits(s.objects[p]) && p in s.slot && s.slot[p] < |s.extents|
    && s.extents[s.slot[p]] == ExtentOf(s.objects[p])
    && s.objects[p].id + SizeOf(s.objects[p].data) <= |s.remote|
  }

  /** A present pointer leads to its object, and a clean one has it on the server too; an
      absent one can find it there. */
  ghost predicate Coherent(s: Snapshot, p: Ptr)
    requires p in s.metas && p in s.objects
  {
    var m, o := s.metas[p], s.objects[p];
    if m.Present? then m.addr in s.heap && s.heap[m.addr] == o && (!m.dirty ==> Stores(s.remote, o.id, o.data))
    else m.ds == o.ds && m.size == SizeOf(o.data) && m.id == o.id && Stores(s.remote, o.id, o.data)
  }

  /** p and q do not lead to the same address. */
  ghost predicate Distinct(s: Snapshot, p: Ptr, q: Ptr)
    requires p in s.metas && q in s.metas
  {
    s.metas[p].Present? && s.metas[q].Present? ==> s.metas[p].addr != s.metas[q].addr
  }

  ghost predicate Consistent(s: Snapshot) {
    && s.metas.Keys == s.objects.Keys == s.slot.Keys
    && (forall p :: p in s.metas ==> Placed(s, p) && Coherent(s, p))
    && (forall p, q :: p in s.metas && q in s.metas && p != q ==> s.slot[p] != s.slot[q] && Distinct(s, p, q))
    && (forall i, j :: 0 <= i < j < |s.extents| ==> Apart(s.extents[i], s.extents[j]))
  }

  /** What a step on p may do: rewrite its metadata, change the object at the address the
      metadata then gives, and write to its own extent on the server. */
  ghost predicate Touches(s: Snapshot, s': Snapshot, p: Ptr)
    requires p in s.metas && p in s.objects
  {
    && p in s'.metas && p in s'.objects
    && s'.metas == s.metas[p := s'.metas[p]] && s'.objects == s.objects[p := s'.objects[p]]
    && s'.slot == s.slot && s'.extents == s.extents
    && ExtentOf(s'.objects[p]) == ExtentOf(s.objects[p]) && Fits(s'.objects[p])
    && SameOutside(s.remote, s'.remote, ExtentOf(s.objects[p]))
    && (forall a :: a in s.heap && !(s'.metas[p].Present? && a == s'.metas[p].addr) ==>
          a in s'.heap && s'.heap[a] == s.heap[a])
    && (forall q :: q in s'.metas && q != p ==> Distinct(s', p, q))
  }

  /** Such a step leaves every other object alone. */
  lemma OthersKept(s: Snapshot, s': Snapshot, p: Ptr)
    requires Consistent(s) && p in s.metas && Touches(s, s', p) && Coherent(s', p)
    ensures Consistent(s')
  {
    hide Stores, SameOutside, Coherent, Placed, Distinct;
    forall q | q in s'.metas ensures Placed(s', q) && Coherent(s', q) {
      if q != p {
        OtherKept(s, s', p, q);
      } else {
        StillPlaced(s, s', p);
      }
    }
    forall q, r | q in s'.metas && r in s'.metas && q != r ensures Distinct(s', q, r) {
      StillDistinct(s, s', p, q, r);
    }
  }

  lemma StillPlaced(s: Snapshot, s': Snapshot, p: Ptr)
    requires p in s.metas && p in s.objects && Placed(s, p) && Touches(s, s', p)
    ensures Placed(s', p)
  {}

  lemma StillDistinct(s: Snapshot, s': Snapshot, p: Ptr, q: Ptr, r: Ptr)
    requires Consistent(s) && p in s.metas && Touches(s, s', p) && q in s'.metas && r in s'.metas && q != r
    ensures Distinct(s', q, r)
  {
    hide Stores, SameOutside, Coherent, Placed;
    if q == p {
      assert Distinct(s', p, r);
    } else if r == p {
      assert Distinct(s', p, q);
    } else {
      assert Distinct(s, q, r);
    }
  }

  lemma OtherKept(s: Snapshot, s': Snapshot, p: Ptr, q: Ptr)
    requires Consistent(s) && p in s.metas && Touches(s, s', p) && q in s.metas && q != p
    ensures Placed(s', q) && Coherent(s', q)
  {
    hide Stores;
    assert Placed(s, q) && Coherent(s, q) && Placed(s, p);
    assert Apart(s.extents[s.slot[p]], s.extents[s.slot[q]]);
    assert Distinct(s', p, q);
    hide Consistent;
    StillThere(s, s', p, q);
  }

  lemma StillThere(s: Snapshot, s': Snapshot, p: Ptr, q: Ptr)
    requires p in s.metas && p in s.objects && q in s.metas && q in s.objects && q != p && Touches(s, s', p)
    requires Placed(s, q) && Coherent(s, q) && Distinct(s', p, q)
    requires Apart(ExtentOf(s.objects[p]), ExtentOf(s.objects[q]))
    ensures Placed(s', q) && Coherent(s', q)
  {
    hide Stores;
    var o := s.objects[q];
    if Stores(s.remote, o.id, o.data) {
      StillStores(s.remote, s'.remote, o.id, o.data, ExtentOf(s.objects[p]));
    }
  }

  // ----- The four ways a step changes the memory -------------------------------------------

  lemma Unchanged(buf: seq<Byte>, e: Extent)
    ensures SameOutside(buf, buf, e)
  {}

  lemma Facts(s: Snapshot, p: Ptr)
    requires Consistent(s) && p in s.metas
    ensures p in s.objects && Placed(s, p) && Coherent(s, p)
  {}

  lemma DistinctFacts(s: Snapshot, p: Ptr, q: Ptr)
    requires Consistent(s) && p in s.metas && q in s.metas && p != q
    ensures Distinct(s, p, q)
  {}

  /** New metadata for an object that stays where it is, or is dropped. */
  lemma Remeta(s: Snapshot, p: Ptr, m: Meta<Addr, nat>)
    requires Consistent(s) && p in s.metas && p in s.objects && s.metas[p].Present?
    requires m.Present? ==> m.addr == s.metas[p].addr
    requires m.Absent? ==> m.ds == s.objects[p].ds && m.size == SizeOf(s.objects[p].data) && m.id == s.objects[p].id
    requires m.Absent? || !m.dirty ==> Stores(s.remote, s.objects[p].id, s.objects[p].data)
    ensures Consistent(s.(metas := s.metas[p := m]))
  {
    hide Stores, SameOutside, Consistent;
    var s' := s.(metas := s.metas[p := m]);
    Unchanged(s.remote, ExtentOf(s.objects[p]));
    Facts(s, p);
    forall q | q in s'.metas && q != p ensures Distinct(s', p, q) {
      DistinctFacts(s, p, q);
    }
    OthersKept(s, s', p);
  }

  /** A copy of the object at the new address a, to which the pointer then leads. */
  lemma Relocate(s: Snapshot, p: Ptr, m: Meta<Addr, nat>)
    requires Consistent(s) && p in s.metas && p in s.objects && m.Present?
    requires forall q :: q in s.metas && s.metas[q].Present? ==> s.metas[q].addr != m.addr
    requires !m.dirty ==> Stores(s.remote, s.objects[p].id, s.objects[p].data)
    ensures Consistent(s.(metas := s.metas[p := m], heap := s.heap[m.addr := s.objects[p]]))
  {
    hide Stores, SameOutside, Consistent;
    var s' := s.(metas := s.metas[p := m], heap := s.heap[m.addr := s.objects[p]]);
    Unchanged(s.remote, ExtentOf(s.objects[p]));
    Facts(s, p);
    OthersKept(s, s', p);
  }

  /** The object on the server. */
  lemma Restore(s: Snapshot, p: Ptr, remote: seq<Byte>)
    requires Consistent(s) && p in s.metas && p in s.objects
    requires SameOutside(s.remote, remote, ExtentOf(s.objects[p])) && Stores(remote, s.objects[p].id, s.objects[p].data)
    ensures Consistent(s.(remote := remote))
  {
    hide Stores, SameOutside, Consistent;
    var s' := s.(remote := remote);
    Facts(s, p);
    forall q | q in s'.metas && q != p ensures Distinct(s', p, q) {
      DistinctFacts(s, p, q);
    }
    OthersKept(s, s', p);
  }

  /** New data of the same length, in a dirty local copy. */
  lemma Rewrite(s: Snapshot, p: Ptr, data: seq<Byte>)
    requires Consistent(s) && p in s.metas && p in s.objects && s.metas[p].Present? && s.metas[p].dirty
    requires |data| == |s.objects[p].data|
    ensures var o := s.objects[p].(data := data);
            Consistent(s.(heap := s.heap[s.metas[p].addr := o], objects := s.objects[p := o]))
  {
    hide Stores, SameOutside, Consistent;
    var o := s.objects[p].(data := data);
    var s' := s.(heap := s.heap[s.metas[p].addr := o], objects := s.objects[p := o]);
    Unchanged(s.remote, ExtentOf(o));
    Facts(s, p);
    forall q | q in s'.metas && q != p ensures Distinct(s', p, q) {
      DistinctFacts(s, p, q);
    }
    OthersKept(s, s', p);
  }

  /** A new object, present and dirty, in the last extent. */
  ghost function WithObject(s: Snapshot, p: Ptr, o: Object, a: Addr): Snapshot {
    s.(metas := s.metas[p := Present(a, true, false, false)], heap := s.heap[a := o],
       extents := s.extents + [ExtentOf(o)], objects := s.objects[p := o], slot := s.slot[p := |s.extents|])
  }

  /** A new object in an extent of its own. */
  lemma OneMore(s: Snapshot, p: Ptr, o: Object, a: Addr)
    requires Consistent(s) && p !in s.metas && Fits(o) && o.id + SizeOf(o.data) <= |s.remote|
    requires forall q :: q in s.metas && s.metas[q].Present? ==> s.metas[q].addr != a
    requires forall i :: 0 <= i < |s.extents| ==> Apart(s.extents[i], ExtentOf(o))
    ensures Consistent(WithObject(s, p, o, a))
  {
    hide Stores, SameOutside, Apart, Placed, Coherent, Distinct;
    var s' := WithObject(s, p, o, a);
    forall q | q in s'.metas ensures Placed(s', q) && Coherent(s', q) {
      OneMorePlaced(s, s', p, q);
    }
    forall q, r | q in s'.metas && r in s'.metas && q != r ensures s'.slot[q] != s'.slot[r] && Distinct(s', q, r) {
      OneMoreDistinct(s, s', p, q, r);
    }
  }

  lemma OneMorePlaced(s: Snapshot, s': Snapshot, p: Ptr, q: Ptr)
    requires Consistent(s) && p !in s.metas && p in s'.metas && p in s'.objects && s'.metas[p].Present?
    requires s'.metas[p].dirty && Fits(s'.objects[p]) && s'.objects[p].id + SizeOf(s'.objects[p].data) <= |s.remote|
    requires s'.extents == s.extents + [ExtentOf(s'.objects[p])] && s'.slot == s.slot[p := |s.extents|]
    requires s'.metas == s.metas[p := s'.metas[p]] && s'.objects == s.objects[p := s'.objects[p]]
    requires s'.heap == s.heap[s'.metas[p].addr := s'.objects[p]] && s'.remote == s.remote
    requires forall x :: x in s.metas && s.metas[x].Present? ==> s.metas[x].addr != s'.metas[p].addr
    requires q in s'.metas
    ensures q in s'.objects && Placed(s', q) && Coherent(s', q)
  {
    hide Stores, SameOutside, Apart, Distinct;
    if q != p {
      Facts(s, q);
    }
  }

  lemma OneMoreDistinct(s: Snapshot, s': Snapshot, p: Ptr, q: Ptr, r: Ptr)
    requires Consistent(s) && p !in s.metas && q in s'.metas && r in s'.metas && q != r
    requires s'.metas.Keys == s.metas.Keys + {p} == s'.slot.Keys && s'.slot == s.slot[p := |s.extents|]
    requires s'.metas == s.metas[p := s'.metas[p]] && s'.metas[p].Present?
    requires forall x :: x in s.metas && s.metas[x].Present? ==> s.metas[x].addr != s'.metas[p].addr
    ensures s'.slot[q] != s'.slot[r] && Distinct(s', q, r)
  {
    hide Stores, SameOutside, Coherent;
    if q in s.metas {
      Facts(s, q);
    }
    if r in s.metas {
      Facts(s, r);
    }
    assert q in s.metas && r in s.metas ==> Distinct(s, q, r);
  }

  /** What swap_out makes of the metadata: a marked object moves if it is to be kept and there is
      room, and is dropped otherwise; one that is not marked stays. */
  predicate SwappedOut(was: Meta<Addr, nat>, now: Meta<Addr, nat>, keep: bool, room: Option<Addr>) {
    if was.Absent? || !was.marked then now == was
    else if keep && room.Some? then now == was.MoveTo(room.value)
    else now.Absent?
  }

  /** It writes only what is dropped and dirty. */
  predicate Writes(was: Meta<Addr, nat>, keep: bool, room: Option<Addr>) {
    was.Present? && was.marked && was.dirty && !(keep && room.Some?)
  }

  /** What an access to an object makes of its metadata: it is present and not marked, where it was
      unless it had to be fetched or moved to the new address a; and it is dirty exactly if it was
      before or is about to be written. */
  predicate Accessed(was: Meta<Addr, nat>, now: Meta<Addr, nat>, mut: bool, a: Addr) {
    now == Present(if was.Present? && !was.marked then was.addr else a, mut || (was.Present? && was.dirty), false, was.shared)
  }

  /** The word of an object that has been fetched to a, moved there, or is at hand. */
  function LocalWord(w: Word, a: Addr): Word {
    if !IsPresent(w) then SetPresent(w, a.bits) else if IsEvacuation(w) then MutatorCopy(w, a.bits) else w
  }

  class FarMemory {
    const server: Server
    const space: RemoteSpace
    var metas: map<Ptr, Packed>
    var heap: map<Addr, Object>
    ghost var objects: map<Ptr, Object>
    ghost var slot: map<Ptr, nat>

    /** The metadata in the packed words. */
    ghost function Metas(): map<Ptr, Meta<Addr, nat>>
      reads `metas
    {
      map p | p in metas :: Decoded(metas[p].word)
    }

    ghost function Snap(): Snapshot
      reads this, space, server.buf
    {
      Snapshot(Metas(), heap, server.buf[..], space.extents, objects, slot)
    }

    ghost predicate Valid()
      reads this, space, server.buf
    {
      && space.Valid() && space.numRegions * REGION_SIZE <= server.buf.Length
      && space.numRegions * REGION_SIZE < ID_LIMIT && Consistent(Snap())
    }

    /** The far memory has to be small enough for the ids to fit their field. */
    constructor (server: Server, space: RemoteSpace)
      requires space.Valid() && space.numRegions * REGION_SIZE <= server.buf.Length
      requires space.numRegions * REGION_SIZE < ID_LIMIT
      ensures Valid() && this.server == server && this.space == space && objects == map[]
    {
      this.server, this.space := server, space;
      metas, heap, objects, slot := map[], map[], map[], map[];
    }

    /** What the cache allocator guarantees of a new address: no pointer leads to it. */
    predicate Unused(a: Addr)
      reads this
    {
      Addressable(a.bits) && forall p | p in metas :: IsPresent(metas[p].word) ==> ObjectAddr(metas[p].word) != a.bits
    }

    lemma UnusedExactly(a: Addr)
      ensures Unused(a) <==> Vacant(Metas(), a)
    {
      hide Decoded, IsPresent, ObjectAddr;
      forall p | p in metas
        ensures IsPresent(metas[p].word) <==> Decoded(metas[p].word).Present?
        ensures IsPresent(metas[p].word) ==> Decoded(metas[p].word).addr == Addr(ObjectAddr(metas[p].word))
      {
        DecodedFields(metas[p].word);
      }
      assert forall p :: p in metas ==> p in Metas();
    }

    lemma UnusedMeans(a: Addr)
      requires Unused(a)
      ensures forall p :: p in Metas() && Metas()[p].Present? ==> Metas()[p].addr != a
    {
      forall p | p in Metas() && Metas()[p].Present? ensures Metas()[p].addr != a {
        DecodedFields(metas[p].word);
      }
    }

    /** The word of p is replaced. */
    method SetWord(p: Ptr, w: Word)
      requires p in metas
      modifies `metas
      ensures metas == old(metas)[p := Packed(w)] && Metas() == old(Metas())[p := Decoded(w)]
    {
      hide Decoded;
      metas := metas[p := Packed(w)];
    }

    /** swap_in: fetches an absent object to the new address a. */
    method SwapIn(p: Ptr, a: Addr)
      requires Valid() && p in metas && Unused(a)
      modifies this
      ensures Valid() && objects == old(objects) && metas.Keys == old(metas.Keys)
      ensures var was := old(Metas()); Metas() == if was[p].Present? then was else was[p := was[p].SetPresent(a)]
      ensures var w := old(metas[p].word); metas[p].word == if IsPresent(w) then w else SetPresent(w, a.bits)
    {
      hide Consistent, Stores, RemoteSpace.Valid, Decoded, ToNat, SetPresent, IsPresent, ObjectAddr;
      DecodedFields(metas[p].word);
      if IsPresent(metas[p].word) {
        return;
      }
      ghost var s := Snap();
      Facts(s, p);
      UnusedMeans(a);
      var w := metas[p].word;
      var ds, size, id := ToNat(DsId(w)), ToNat(ObjectSize(w)), ToNat(ObjectId(w));
      var data := server.ReadObject(id, objects[p].data);
      assert SizeOf(data) == size;
      Relocate(s, p, Decoded(w).SetPresent(a));
      heap := heap[a := Object(ds, id, data)];
      DecodedSetPresent(w, a.bits);
      SetWord(p, SetPresent(w, a.bits));
    }

    /** mutator_migrate_object: moves a marked object to the new address a. */
    method Migrate(p: Ptr, a: Addr) returns (ok: bool)
      requires Valid() && p in metas && Unused(a)
      modifies this
      ensures Valid() && objects == old(objects) && metas.Keys == old(metas.Keys)
      ensures var was := old(Metas());
              && ok == (was[p].Present? && was[p].marked)
              && Metas() == if ok then was[p := was[p].MoveTo(a)] else was
      ensures var w := old(metas[p].word); metas[p].word == if ok then MutatorCopy(w, a.bits) else w
    {
      hide Consistent, Stores, RemoteSpace.Valid, Decoded, MutatorCopy, IsPresent, IsEvacuation, ObjectAddr;
      DecodedFields(metas[p].word);
      if !IsPresent(metas[p].word) || !IsEvacuation(metas[p].word) {
        return false;
      }
      var w := metas[p].word;
      DecodedMove(w, a.bits);
      CopyTo(p, a, MutatorCopy(w, a.bits));
      return true;
    }

    /** A copy of the object at the new address a, and the word w that leads there. */
    method CopyTo(p: Ptr, a: Addr, w: Word)
      requires Valid() && p in metas && Unused(a) && IsPresent(metas[p].word)
      requires Decoded(metas[p].word).Present? && Decoded(w) == Decoded(metas[p].word).MoveTo(a)
      modifies this
      ensures Valid() && objects == old(objects) && metas.Keys == old(metas.Keys)
      ensures Metas() == old(Metas())[p := Decoded(w)] && metas[p].word == w
    {
      hide Consistent, Stores, RemoteSpace.Valid, Decoded, IsPresent, ObjectAddr;
      DecodedFields(metas[p].word);
      Facts(Snap(), p);
      UnusedMeans(a);
      Relocate(Snap(), p, Decoded(w));
      heap := heap[a := heap[Addr(ObjectAddr(metas[p].word))]];
      SetWord(p, w);
    }

    /** _flush: writes a dirty object back and keeps it. */
    method Flush(p: Ptr)
      requires Valid() && p in metas
      modifies this, server.buf
      ensures Valid() && objects == old(objects) && heap == old(heap) && metas.Keys == old(metas.Keys)
      ensures var was := old(Metas()); Metas() == if was[p].Present? then was[p := was[p].ClearDirty()] else was
      ensures !(old(Metas())[p].Present? && old(Metas())[p].dirty) ==> server.buf[..] == old(server.buf[..])
    {
      hide Consistent, Stores, RemoteSpace.Valid, Decoded, ClearDirty, IsPresent, IsDirty;
      DecodedFields(metas[p].word);
      if IsPresent(metas[p].word) && IsDirty(metas[p].word) {
        Facts(Snap(), p);
        Store(p);
        DecodedClearDirty(metas[p].word);
        Remeta(Snap(), p, Decoded(ClearDirty(metas[p].word)));
        SetWord(p, ClearDirty(metas[p].word));
      }
    }

    /** device_ptr_->write_object of the object p leads to. */
    method Store(p: Ptr)
      requires Valid() && p in metas && IsPresent(metas[p].word)
      modifies server.buf
      ensures Valid() && p in objects && Stores(server.buf[..], objects[p].id, objects[p].data)
    {
      hide Consistent, Stores, RemoteSpace.Valid, Decoded, IsPresent, ObjectAddr;
      ghost var s := Snap();
      Facts(s, p);
      DecodedFields(metas[p].word);
      var o := heap[Addr(ObjectAddr(metas[p].word))];
      server.WriteObject(o.id, o.data);
      Restore(s, p, server.buf[..]);
    }

    /** evacuate: flush, then drop the local copy. */
    method Evacuate(p: Ptr)
      requires Valid() && p in metas
      modifies this, server.buf
      ensures Valid() && objects == old(objects) && p in Metas() && Metas()[p].Absent?
      ensures Metas() == old(Metas())[p := Metas()[p]]
      ensures !(old(Metas())[p].Present? && old(Metas())[p].dirty) ==> server.buf[..] == old(server.buf[..])
    {
      hide Consistent, Stores, RemoteSpace.Valid, Decoded, IsPresent;
      DecodedFields(metas[p].word);
      if IsPresent(metas[p].word) {
        Flush(p);
        DecodedFields(metas[p].word);
        StoredIfClean(p);
        Drop(p);
      }
    }

    lemma StoredIfClean(p: Ptr)
      requires Valid() && p in metas && Metas()[p].Present? && !Metas()[p].dirty
      ensures p in objects && Stores(server.buf[..], objects[p].id, objects[p].data)
    {
      hide Consistent, Stores, Decoded;
      Facts(Snap(), p);
    }

    /** gc_wb on a pointer whose object is on the server. */
    method Drop(p: Ptr)
      requires Valid() && p in metas && IsPresent(metas[p].word)
      requires p in objects && Stores(server.buf[..], objects[p].id, objects[p].data)
      modifies this
      ensures Valid() && objects == old(objects) && p in Metas() && Metas()[p].Absent?
      ensures Metas() == old(Metas())[p := Metas()[p]]
    {
      hide Consistent, Stores, RemoteSpace.Valid, Decoded, IsPresent, ObjectAddr, GcWriteBack, ToWord, IsNull;
      Facts(Snap(), p);
      DecodedFields(metas[p].word);
      var o := heap[Addr(ObjectAddr(metas[p].word))];
      DecodedGcWriteBack(metas[p].word, o.ds, SizeOf(o.data), o.id);
      var w := GcWriteBack(metas[p].word, ToWord(o.ds), ToWord(SizeOf(o.data)), ToWord(o.id));
      Remeta(Snap(), p, Decoded(w));
      SetWord(p, w);
    }

    /** The marking phase of a collection. */
    method Mark(p: Ptr)
      requires Valid() && p in metas
      modifies this
      ensures Valid() && objects == old(objects)
      ensures var was := old(Metas()); Metas() == if was[p].Present? then was[p := was[p].Mark()] else was
    {
      hide Consistent, Stores, RemoteSpace.Valid, Decoded, SetEvacuation, IsPresent;
      DecodedFields(metas[p].word);
      if IsPresent(metas[p].word) {
        Facts(Snap(), p);
        DecodedMark(metas[p].word);
        Remeta(Snap(), p, Decoded(SetEvacuation(metas[p].word)));
        SetWord(p, SetEvacuation(metas[p].word));
      }
    }

    /** swap_out: a marked object moves to a new address if it is hot and there is room, and goes
        to the server otherwise, being written only if it is dirty.  calm says that the region
        and the cache allow keeping it. */
    method SwapOut(p: Ptr, calm: bool, room: Option<Addr>)
      requires Valid() && p in metas && (room.Some? ==> Unused(room.value))
      modifies this, server.buf
      ensures Valid() && objects == old(objects) && p in Metas()
      ensures Metas() == old(Metas())[p := Metas()[p]]
      ensures SwappedOut(old(Metas())[p], Metas()[p], old(IsHot(metas[p].word)) && calm, room)
      ensures !Writes(old(Metas())[p], old(IsHot(metas[p].word)) && calm, room) ==> server.buf[..] == old(server.buf[..])
    {
      hide Consistent, Stores, RemoteSpace.Valid, Decoded, IsPresent, IsEvacuation, IsDirty, IsHot, GcCopy, ObjectAddr;
      DecodedFields(metas[p].word);
      if !IsPresent(metas[p].word) || !IsEvacuation(metas[p].word) {
        return;
      }
      if IsHot(metas[p].word) && calm && room.Some? {
        var w := metas[p].word;
        DecodedMove(w, room.value.bits);
        CopyTo(p, room.value, GcCopy(w, room.value.bits));
        return;
      }
      if IsDirty(metas[p].word) {
        Store(p);
      } else {
        StoredIfClean(p);
      }
      Drop(p);
    }

    /** _deref: swaps in or migrates first, if need be, to the new address a. */
    method Deref(p: Ptr, mut: bool, a: Addr) returns (addr: Addr)
      requires Valid() && p in metas && Unused(a)
      modifies this
      ensures Valid() && objects == old(objects) && metas.Keys == old(metas.Keys)
      ensures p in Metas() && Metas() == old(Metas())[p := Metas()[p]] && Accessed(old(Metas())[p], Metas()[p], mut, a)
      ensures Metas()[p].addr == addr && addr in heap && p in objects && heap[addr] == objects[p]
      ensures metas[p].word == DerefAny(LocalWord(old(metas[p].word), a), mut)
    {
      hide Consistent, Stores, RemoteSpace.Valid, Decoded, IsPresent, IsEvacuation, DerefAny, FarMemory.Unused, LocalWord;
      MakeLocal(p, a);
      DecodedFields(metas[p].word);
      addr := Touch(p, mut);
    }

    /** _deref of an object at hand. */
    method Touch(p: Ptr, mut: bool) returns (addr: Addr)
      requires Valid() && p in metas && IsPresent(metas[p].word) && !IsEvacuation(metas[p].word)
      modifies this
      ensures Valid() && objects == old(objects) && metas.Keys == old(metas.Keys)
      ensures metas[p].word == DerefAny(old(metas[p].word), mut)
      ensures var m := old(Metas())[p]; m.Present? && m.addr == addr && Metas() == old(Metas())[p := m.Deref(mut)]
      ensures addr in heap && p in objects && heap[addr] == objects[p]
    {
      hide Consistent, Stores, RemoteSpace.Valid, Decoded, IsPresent, IsEvacuation, DerefAny, ObjectAddr;
      var w := metas[p].word;
      DecodedFields(w);
      Facts(Snap(), p);
      DecodedDeref(w, mut);
      Remeta(Snap(), p, Decoded(DerefAny(w, mut)));
      SetWord(p, DerefAny(w, mut));
      addr := Addr(ObjectAddr(w));
    }

    /** The slow path of _deref: a marked object is migrated, an absent one swapped in. */
    method MakeLocal(p: Ptr, a: Addr)
      requires Valid() && p in metas && Unused(a)
      modifies this
      ensures Valid() && objects == old(objects) && metas.Keys == old(metas.Keys)
      ensures p in Metas() && Metas() == old(Metas())[p := Metas()[p]] && Accessed(old(Metas())[p], Metas()[p], false, a)
      ensures metas[p].word == LocalWord(old(metas[p].word), a)
    {
      hide Consistent, Stores, RemoteSpace.Valid, Decoded, IsPresent, IsEvacuation, ObjectAddr, FarMemory.Unused, SetPresent,
        MutatorCopy;
      DecodedFields(metas[p].word);
      if IsPresent(metas[p].word) && IsEvacuation(metas[p].word) {
        var migrated := Migrate(p, a);
      } else {
        SwapIn(p, a);
      }
    }

    /** Reads what was last written, wherever the object is. */
    method Read(p: Ptr, a: Addr) returns (data: seq<Byte>)
      requires Valid() && p in metas && Unused(a)
      modifies this
      ensures Valid() && objects == old(objects) && metas.Keys == old(metas.Keys)
      ensures p in objects && data == objects[p].data
      ensures p in Metas() && Metas() == old(Metas())[p := Metas()[p]] && Accessed(old(Metas())[p], Metas()[p], false, a)
    {
      hide Consistent, Stores, RemoteSpace.Valid, Decoded;
      var addr := Deref(p, false, a);
      data := heap[addr].data;
    }

    /** Overwrites an object with data of the same length. */
    method Write(p: Ptr, data: seq<Byte>, a: Addr)
      requires Valid() && p in metas && Unused(a) && p in objects && |data| == |objects[p].data|
      modifies this
      ensures Valid() && metas.Keys == old(metas.Keys)
      ensures objects == old(objects)[p := old(objects[p]).(data := data)]
      ensures p in Metas() && Metas() == old(Metas())[p := Metas()[p]] && Accessed(old(Metas())[p], Metas()[p], true, a)
    {
      hide Consistent, Stores, RemoteSpace.Valid, Decoded;
      var addr := Deref(p, true, a);
      Facts(Snap(), p);
      Rewrite(Snap(), p, data);
      heap := heap[addr := heap[addr].(data := data)];
      objects := objects[p := objects[p].(data := data)];
    }

    /** allocate_generic_unique_ptr: a new object, present and dirty, in an extent of its own.
        Fails only when the remote memory is used up. */
    method Allocate(p: Ptr, ds: nat, data: seq<Byte>, a: Addr, core: nat) returns (ok: bool)
      requires Valid() && p !in metas && Unused(a) && ds < 0x100 && |data| <= MAX_DATA && core < |space.cores|
      modifies this, space
      ensures Valid() && |space.cores| == old(|space.cores|)
      ensures ok ==> p in objects && objects == old(objects)[p := objects[p]]
      ensures ok ==> objects[p] == Object(ds, objects[p].id, data)
      ensures ok ==> Metas() == old(Metas())[p := Present(a, true, false, false)]
      ensures ok ==> space.extents == old(space.extents) + [ExtentOf(objects[p])]
      ensures ok ==> slot == old(slot)[p := old(|space.extents|)]
      ensures !ok ==> objects == old(objects) && metas == old(metas) && space.free == []
    {
      hide Consistent, Stores, Decoded, IsPresent, ObjectAddr, RemoteSpace.Valid, Addressable;
      ghost var s := Snap();
      UnusedMeans(a);
      var id := space.Allocate(core, SizeOf(data));
      if id.None? {
        return false;
      }
      OneMore(s, p, Object(ds, id.value, data), a);
      AddObject(p, Object(ds, id.value, data), a, s);
      return true;
    }

    /** A new pointer to the object o, put at the address a. */
    method AddObject(p: Ptr, o: Object, a: Addr, ghost s: Snapshot)
      requires p !in metas && Addressable(a.bits)
      requires space.Valid() && space.numRegions * REGION_SIZE <= server.buf.Length
      requires space.numRegions * REGION_SIZE < ID_LIMIT
      requires Snap() == s.(extents := s.extents + [ExtentOf(o)])
      requires Consistent(WithObject(s, p, o, a))
      modifies this
      ensures Valid() && objects == old(objects)[p := o] && slot == old(slot)[p := |s.extents|]
      ensures Metas() == old(Metas())[p := Present(a, true, false, false)]
    {
      hide Consistent, Decoded, RemoteSpace.Valid;
      heap := heap[a := o];
      DecodedFresh(false, a.bits);
      metas := metas[p := Packed(Fresh(false, a.bits))];
      assert Metas() == s.metas[p := Present(a, true, false, false)];
      objects := objects[p := o];
      slot := slot[p := |s.extents|];
    }

    /** The length of an object, which never changes. */
    method DataLength(p: Ptr) returns (n: nat)
      requires Valid() && p in metas
      ensures p in objects && n == |objects[p].data|
    {
      hide Consistent, Stores, RemoteSpace.Valid, Decoded, IsPresent, ObjectAddr, ToNat, ObjectSize;
      Facts(Snap(), p);
      DecodedFields(metas[p].word);
      if IsPresent(metas[p].word) {
        n := |heap[Addr(ObjectAddr(metas[p].word))].data|;
      } else {
        n := ToNat(ObjectSize(metas[p].word)) - OBJECT_HEADER - ID_SIZE;
      }
    }

    /** One operation of a run.  One that cannot be carried out has no effect. */
    method Step(op: Op) returns (event: Option<Event>)
      requires Valid()
      modifies this, space, server.buf
      ensures Valid() && Reports(old(objects), objects, event) && Answers(old(Snap()), op, event)
    {
      hide Consistent, Stores;
      event := None;
      if op.Allocate? {
        if op.p !in metas && Unused(op.a) && op.ds < 0x100 && |op.data| <= MAX_DATA && op.core < |space.cores| {
          var ok := Allocate(op.p, op.ds, op.data, op.a, op.core);
          event := if ok then Some(Wrote(op.p, op.data)) else None;
        }
      } else if op.p in metas {
        event := StepOn(op);
      }
    }

    method StepOn(op: Op) returns (event: Option<Event>)
      requires Valid() && !op.Allocate? && op.p in metas
      modifies this, server.buf
      ensures Valid() && Reports(old(objects), objects, event) && Answers(old(Snap()), op, event)
    {
      hide Consistent, Stores, RemoteSpace.Valid, Decoded, Accessed, SwappedOut, Writes, Describes;
      if op.Read? || op.Write? {
        UnusedExactly(op.a);
      }
      event := None;
      match op
      case Read(p, a) =>
        if Unused(a) {
          var data := Read(p, a);
          event := Some(Got(p, data));
        }
      case Write(p, data, a) =>
        var n := DataLength(p);
        if Unused(a) && |data| == n {
          Write(p, data, a);
          event := Some(Wrote(p, data));
        }
      case Flush(p) => Flush(p);
      case Evacuate(p) => Evacuate(p);
      case Mark(p) => Mark(p);
      case Migrate(p, a) =>
        if Unused(a) {
          var ok := Migrate(p, a);
        }
      case SwapIn(p, a) =>
        if Unused(a) {
          SwapIn(p, a);
        }
      case SwapOut(p, calm, room) =>
        if room.None? || Unused(room.value) {
          SwapOut(p, calm, room);
        }
    }

    /** Any run of operations over any number of objects: every read and every write that can be
        carried out has its entry in the log, and a read returns the value that was last written to
        its pointer, however often the object has moved in between. */
    method Run(ops: seq<Op>) returns (log: seq<Option<Event>>, ghost seen: seq<Snapshot>)
      requires Valid() && objects == map[]
      modifies this, space, server.buf
      ensures Valid() && |log| == |ops| == |seen| && ReadsLastWritten(log)
      ensures forall i :: 0 <= i < |ops| ==> Answers(seen[i], ops[i], log[i]) && Describes(log[..i], seen[i].objects)
    {
      hide Consistent, Stores, Answers, Reports;
      log, seen := [], [];
      for i := 0 to |ops|
        invariant Valid() && |log| == i == |seen| && ReadsLastWritten(log) && Describes(log, objects)
        invariant forall j :: 0 <= j < i ==> Answers(seen[j], ops[j], log[j]) && Describes(log[..j], seen[j].objects)
      {
        ghost var before, was := Snap(), log;
        var event := Step(ops[i]);
        LogMore(log, event, before.objects, objects);
        hide ReadsLastWritten, Describes;
        log, seen := log + [event], seen + [before];
        assert forall j :: 0 <= j <= i ==> log[..j] == was[..j];
      }
    }
  }

  // ----- Runs -------------------------------------------------------------------------------

  datatype Op =
    | Allocate(p: Ptr, ds: nat, data: seq<Byte>, a: Addr, core: nat)
    | Read(p: Ptr, a: Addr)
    | Write(p: Ptr, data: seq<Byte>, a: Addr)
    | Flush(p: Ptr)
    | Evacuate(p: Ptr)
    | Mark(p: Ptr)
    | Migrate(p: Ptr, a: Addr)
    | SwapIn(p: Ptr, a: Addr)
    | SwapOut(p: Ptr, calm: bool, room: Option<Addr>)

  /** What a program sees: the writes it has made and the values it has got. */
  datatype Event = Wrote(p: Ptr, data: seq<Byte>) | Got(p: Ptr, data: seq<Byte>)

  function LastWritten(log: seq<Option<Event>>, p: Ptr): Option<seq<Byte>> {
    if log == [] then None
    else
      var e := log[|log| - 1];
      if e.Some? && e.value.Wrote? && e.value.p == p then Some(e.value.data) else LastWritten(log[..|log| - 1], p)
  }

  ghost predicate ReadsLastWritten(log: seq<Option<Event>>) {
    forall i :: 0 <= i < |log| && log[i].Some? && log[i].value.Got? ==>
      LastWritten(log[..i], log[i].value.p) == Some(log[i].value.data)
  }

  /** The log accounts for the value of every object. */
  ghost predicate Describes(log: seq<Option<Event>>, objects: map<Ptr, Object>) {
    forall p :: p in objects ==> LastWritten(log, p) == Some(objects[p].data)
  }

  /** No pointer leads to the address. */
  ghost predicate Vacant(metas: map<Ptr, Meta<Addr, nat>>, a: Addr) {
    Addressable(a.bits) && forall p :: p in metas && metas[p].Present? ==> metas[p].addr != a
  }

  /** What an operation has to say: a read of an existing object gets something, a write of the right
      length is done, an allocation may write, and nothing else is seen. */
  ghost predicate Answers(s: Snapshot, op: Op, event: Option<Event>) {
    match op
    case Read(p, a) => if p in s.metas && Vacant(s.metas, a) then event.Some? && event.value.Got? && event.value.p == p
                       else event == None
    case Write(p, data, a) =>
      event == if p in s.metas && p in s.objects && Vacant(s.metas, a) && |data| == |s.objects[p].data|
               then Some(Wrote(p, data)) else None
    case Allocate(p, _, data, _, _) => event == None || (p !in s.metas && event == Some(Wrote(p, data)))
    case _ => event == None
  }

  ghost predicate Reports(before: map<Ptr, Object>, after: map<Ptr, Object>, event: Option<Event>) {
    match event
    case None => after == before
    case Some(Wrote(p, data)) => p in after && after == before[p := after[p]] && after[p].data == data
    case Some(Got(p, data)) => after == before && p in after && after[p].data == data
  }

  lemma LogMore(log: seq<Option<Event>>, e: Option<Event>, before: map<Ptr, Object>, after: map<Ptr, Object>)
    requires ReadsLastWritten(log) && Describes(log, before) && Reports(before, after, e)
    ensures ReadsLastWritten(log + [e]) && Describes(log + [e], after)
  {
    var more := log + [e];
    assert more[..|log|] == log;
    forall i | 0 <= i < |more| && more[i].Some? && more[i].value.Got?
      ensures LastWritten(more[..i], more[i].value.p) == Some(more[i].value.data)
    {
      assert more[..i] == log[..i];
    }
  }
}
