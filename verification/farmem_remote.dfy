/**
 The remote side of far memory: bump allocation of object ids in regions (region.cpp,
 manager.cpp) and the server's flat buffer (server_ptr.cpp).
 */
module FarMemRemote {
  import opened Basics

  const REGION_SIZE: nat := 0x10_0000
  const REGION_HEADER: nat := 6
  const OBJECT_HEADER: nat := 10
  const ID_SIZE: nat := 8
  /** kMaxObjectDataSize. */
  const MAX_DATA: nat := 65270

  /** align_to(n, 8), narrowed to sixteen bits as its caller stores it. */
  function Aligned(n: nat): (r: nat)
    ensures 0 < n <= 65528 ==> n <= r < n + 8 && r % 8 == 0
  {
    if n == 0 then 0 else (n + 7 - (n - 1) % 8) % 0x1_0000
  }

  /** The narrowing loses the whole object for the seven largest sizes. */
  lemma AlignedVanishes(n: nat)
    requires n < 0x1_0000
    ensures Aligned(n) >= n <==> n <= 65528
    ensures n > 65528 ==> Aligned(n) == 0
  {}

  datatype Extent = Extent(addr: nat, size: nat)

  predicate Apart(a: Extent, b: Extent) {
    a.addr + a.size <= b.addr || b.addr + b.size <= a.addr
  }

  datatype Region = Region(idx: nat, firstFree: nat)

  /** The region has room for an object of the given size. */
  predicate Room(r: Option<Region>, size: nat) {
    r.Some? && r.value.firstFree + Aligned(size) <= REGION_SIZE
  }

  datatype Owner = FreeList | UsedList | Core(c: nat)

  /** The far-memory RegionManager: a region per core to allocate from, full regions and
      free ones. */
  class RemoteSpace {
    const numRegions: nat
    var free: seq<Region>
    var used: seq<Region>
    var cores: seq<Option<Region>>
    ghost var owner: map<nat, Owner>
    ghost var level: map<nat, nat>     // how far each region is filled
    ghost var extents: seq<Extent>     // all objects ever allocated

    ghost predicate Owned(r: Region, o: Owner)
      reads `owner, `level
    {
      r.idx in owner && owner[r.idx] == o && r.idx in level && level[r.idx] == r.firstFree
    }

    ghost predicate Within(e: Extent)
      reads `level
    {
      var k := e.addr / REGION_SIZE;
      k in level && k < numRegions && e.addr + e.size <= k * REGION_SIZE + level[k]
    }

    ghost predicate Valid()
      reads this
    {
      && (forall i :: 0 <= i < |free| ==> Owned(free[i], FreeList) && free[i].firstFree == REGION_HEADER)
      && (forall i, j :: 0 <= i < j < |free| ==> free[i].idx != free[j].idx)
      && (forall i :: 0 <= i < |used| ==> Owned(used[i], UsedList))
      && (forall c :: 0 <= c < |cores| && cores[c].Some? ==> Owned(cores[c].value, Core(c)))
      && (forall k :: k in level ==> k < numRegions && REGION_HEADER <= level[k] <= REGION_SIZE)
      && (forall i :: 0 <= i < |extents| ==> Within(extents[i]))
      && (forall i, j :: 0 <= i < j < |extents| ==> Apart(extents[i], extents[j]))
    }

    /** e is inside the far memory and apart from the extents before. */
    ghost predicate NewExtent(before: seq<Extent>, e: Extent) {
      e.addr + e.size <= numRegions * REGION_SIZE && forall i :: 0 <= i < |before| ==> Apart(before[i], e)
    }

    /** The first regions go to the cores, the others are free. */
    constructor (numRegions: nat, numCores: nat)
      requires numCores <= numRegions
      ensures Valid() && this.numRegions == numRegions && |cores| == numCores && extents == []
    {
      this.numRegions := numRegions;
      free := seq(numRegions - numCores, i requires 0 <= i => Region(numCores + i, REGION_HEADER));
      cores := seq(numCores, c requires 0 <= c => Some(Region(c, REGION_HEADER)));
      used, extents := [], [];
      ghost var owners: map<nat, Owner> := map k: nat | k < numRegions :: if k < numCores then Core(k) else FreeList;
      owner, level := owners, map k | k in owners :: REGION_HEADER;
    }

    /** Region::allocate_object on a core's region: a bump of the fill level. */
    method BumpAllocate(c: nat, size: nat) returns (addr: Option<nat>)
      requires Valid() && c < |cores| && 0 < size <= 65528
      modifies this
      ensures Valid() && |cores| == old(|cores|) && free == old(free)
      ensures addr.None? <==> !Room(old(cores[c]), size)
      ensures addr.None? ==> extents == old(extents) && cores == old(cores)
      ensures addr.Some? ==> extents == old(extents) + [Extent(addr.value, size)]
      ensures addr.Some? ==> var r := old(cores[c]).value;
                             && addr.value == r.idx * REGION_SIZE + r.firstFree
                             && cores == old(cores)[c := Some(Region(r.idx, r.firstFree + Aligned(size)))]
      ensures addr.Some? ==> NewExtent(old(extents), Extent(addr.value, size))
    {
      if cores[c].None? {
        return None;
      }
      var r := cores[c].value;
      var start := r.firstFree;
      var end := start + Aligned(size);
      if end > REGION_SIZE {
        return None;
      }
      ghost var e := Extent(r.idx * REGION_SIZE + start, size);
      InRegion(r.idx, start);
      assert forall i :: 0 <= i < |extents| ==> Within(extents[i]);
      forall i | 0 <= i < |extents| ensures Apart(extents[i], e) {
        Separate(extents[i], r.idx, start, size, level[extents[i].addr / REGION_SIZE]);
      }
      assert e.addr + e.size <= (r.idx + 1) * REGION_SIZE <= numRegions * REGION_SIZE;
      cores := cores[c := Some(Region(r.idx, end))];
      level := level[r.idx := end];
      extents := extents + [e];
      addr := Some(r.idx * REGION_SIZE + start);
    }

    /** try_refill_core_local_free_region: the full region goes to the used list, a free
        one takes its place. */
    method Refill(c: nat) returns (ok: bool)
      requires Valid() && c < |cores|
      modifies this
      ensures Valid() && |cores| == old(|cores|) && extents == old(extents)
      ensures ok == (|old(free)| > 0)
      ensures used == old(used) + if old(cores[c]).Some? then [old(cores[c]).value] else []
      ensures ok ==> free == old(free)[1..] && cores[c] == Some(old(free)[0]) && cores[c].value.firstFree == REGION_HEADER
      ensures !ok ==> free == [] && cores[c] == None
    {
      hide RemoteSpace.Valid;
      Retire(c);
      if |free| == 0 {
        return false;
      }
      TakeFree(c);
      return true;
    }

    method Retire(c: nat)
      requires Valid() && c < |cores|
      modifies this
      ensures Valid() && cores == old(cores)[c := None] && extents == old(extents) && free == old(free)
      ensures used == old(used) + if old(cores[c]).Some? then [old(cores[c]).value] else []
    {
      hide Apart, RemoteSpace.Within;
      if cores[c].Some? {
        var full := cores[c].value;
        used := used + [full];
        cores := cores[c := None];
        owner := owner[full.idx := UsedList];
      }
    }

    method TakeFree(c: nat)
      requires Valid() && c < |cores| && cores[c].None? && |free| > 0
      modifies this
      ensures Valid() && cores == old(cores)[c := Some(old(free)[0])] && extents == old(extents) && free == old(free)[1..]
      ensures used == old(used) && cores[c].value.firstFree == REGION_HEADER
    {
      hide Apart, RemoteSpace.Within;
      var next := free[0];
      free := free[1..];
      owner := owner[next.idx := Core(c)];
      cores := cores[c := Some(next)];
    }

    /** allocate_remote_object.  Every id names an extent that no other object touches; None
        when the remote memory is used up. */
    method Allocate(c: nat, size: nat) returns (addr: Option<nat>)
      requires Valid() && c < |cores| && 0 < size <= 65528
      modifies this
      ensures Valid() && |cores| == old(|cores|)
      ensures addr.None? ==> extents == old(extents) && free == []
      ensures addr.None? <==> !Room(old(cores[c]), size) && old(free) == []
      ensures addr.Some? ==> extents == old(extents) + [Extent(addr.value, size)]
      ensures addr.Some? ==> addr.value + size <= numRegions * REGION_SIZE
      ensures addr.Some? ==> forall i :: 0 <= i < |old(extents)| ==> Apart(old(extents)[i], Extent(addr.value, size))
    {
      addr := BumpAllocate(c, size);
      while addr.None?
        invariant Valid() && |cores| == old(|cores|)
        invariant addr.None? ==> extents == old(extents) && free == old(free) && !Room(old(cores[c]), size)
        invariant addr.Some? ==> extents == old(extents) + [Extent(addr.value, size)]
        invariant addr.Some? ==> Room(old(cores[c]), size) || old(free) != []
        invariant addr.Some? ==> NewExtent(old(extents), Extent(addr.value, size))
        decreases |free|, addr.None?
      {
        var ok := Refill(c);
        if !ok {
          return None;
        }
        addr := BumpAllocate(c, size);
      }
    }
  }

  lemma InRegion(k: nat, start: nat)
    requires start < REGION_SIZE
    ensures (k * REGION_SIZE + start) / REGION_SIZE == k
  {}

  /** An extent that ends at or below its region's level is apart from one that starts at
      the level of region k. */
  lemma Separate(e: Extent, k: nat, start: nat, size: nat, level: nat)
    requires level <= REGION_SIZE && e.addr + e.size <= e.addr / REGION_SIZE * REGION_SIZE + level
    requires start + size <= REGION_SIZE && (e.addr / REGION_SIZE == k ==> level == start)
    ensures Apart(e, Extent(k * REGION_SIZE + start, size))
  {}

  // ----- The server --------------------------------------------------------------------

  function Len16(lo: nat, hi: nat): nat { lo + 256 * hi }

  /** The object at id in the buffer has the bytes data. */
  ghost predicate Stores(buf: seq<Byte>, id: nat, data: seq<Byte>) {
    && |data| < 0x1_0000 && id + OBJECT_HEADER + |data| <= |buf|
    && Len16(buf[id + 6], buf[id + 7]) == |data|
    && buf[id + OBJECT_HEADER..id + OBJECT_HEADER + |data|] == data
  }

  /** Two buffers differ at most inside e. */
  ghost predicate SameOutside(a: seq<Byte>, b: seq<Byte>, e: Extent) {
    |a| == |b| && forall i :: 0 <= i < |a| && !(e.addr <= i < e.addr + e.size) ==> a[i] == b[i]
  }

  /** A write elsewhere does not disturb an object. */
  lemma StillStores(a: seq<Byte>, b: seq<Byte>, id: nat, data: seq<Byte>, e: Extent)
    requires Stores(a, id, data) && SameOutside(a, b, e) && Apart(Extent(id, OBJECT_HEADER + |data|), e)
    ensures Stores(b, id, data)
  {
    var lo, hi := id + OBJECT_HEADER, id + OBJECT_HEADER + |data|;
    forall i | lo <= i < hi ensures a[i] == b[i] {}
    assert b[lo..hi] == a[lo..hi];
  }

  /** ServerPtr: objects at their ids in one buffer, each with a header. */
  class Server {
    const buf: array<Byte>

    constructor (size: nat)
      ensures buf.Length == size && fresh(buf)
    {
      buf := new Byte[size](_ => 0);
    }

    method ReadObject(id: nat, ghost expected: seq<Byte>) returns (data: seq<Byte>)
      requires Stores(buf[..], id, expected)
      ensures data == expected
    {
      var dataLen := Len16(buf[id + 6], buf[id + 7]);
      data := buf[id + OBJECT_HEADER..id + OBJECT_HEADER + dataLen];
    }

    method WriteObject(id: nat, data: seq<Byte>)
      requires |data| < 0x1_0000 && id + OBJECT_HEADER + |data| <= buf.Length
      modifies buf
      ensures Stores(buf[..], id, data) && SameOutside(old(buf[..]), buf[..], Extent(id, OBJECT_HEADER + |data|))
    {
      forall i | 0 <= i < |data| {
        buf[id + OBJECT_HEADER + i] := data[i];
      }
      buf[id + 6], buf[id + 7] := |data| % 256, |data| / 256;
      buf[id + 9] := ID_SIZE;
    }
  }
}
