# AIFM, verified

A Dafny model of the hard parts of AIFM (application-integrated far memory) and of the
Shenango runtime and IOKernel it runs on, with proofs of what they promise. `dafny verify
dfyconfig.toml` checks everything.

## What is modelled

**Snappy codec** (`snappy_*.dfy`). `SnappyFormat` is a reference semantics of a
compressed stream, written from section 1 (preamble) and section 2 (2.1 literals, 2.2
copies) of the Snappy compressed format description, and next to it the reading with
32-bit literal lengths that the decoder has, with the exact difference. `SnappyChoice` says
which elements the compressor chooses, without its hash table. The compressor, the tag decoder with
its scratch buffer, the four writers, the overlapping copy and the word-at-a-time match
finder are imperative code over arrays and objects, proved against it. A `Source` may show
any nonempty part of what is left at every `Peek`, so each result holds for all splittings.

**Far memory** (`farmem_*.dfy`). `GcEpoch` is the reclamation protocol as a state machine
whose steps are single accesses to shared state. `FarMemWord` is the packed 64-bit pointer
word: its bit expressions, and the numbers kept in its fields. `FarMemObject` works on these
words and shows that reads return the last value written while objects move between cache
and server. `FarMemRemote` is the remote allocator and the server's byte buffer.

**Hash table, slab and grace periods** (`hopscotch.dfy`, `hopscotch_lookup.dfy`,
`slab.dfy`, `rcu_lock.dfy`, `rcu_worker.dfy`). The table in place, as a refinement of a
map; its unlocked lookup against every interleaving of the writers' stores; the allocator
behind it; the double-collect reader lock; the runtime's deferred callbacks.

**IOKernel scheduler** (`iok_*.dfy`). `IokSched` has core slots, thread lists, polling array
and reference counts with their invariant; `IokRuns` the operations as functions of that
state, the transmit path, client removal, and what holds over all runs; `IokScheduler` the
code. `IokSimple` and `IokPolicy` are the simple policy in the same two layers. `IokSystem`
puts scheduler, policy and the control plane's admission of clients together: what the policy
believes about cores agrees with who holds them after every event, and this decides when a
guarantee can fail.

## Where the code and its promises differ

- A literal tag with the four length bytes 0xff announces 2^32 bytes; the decoder's 32-bit
  sum wraps to zero and it goes on (`SnappyFormat.OverlongAccepted`). On streams below 4 GB
  this is the only difference from the format (`SnappyFormat.StreamDiffers`).
- Entering a dereference scope loads the expected status and increments a counter later. If
  a collection passes in between, the scope is not waited for by the next one and can be
  left with an address into a free region (`GcEpoch.UnsafeRun`). Between collections, runs
  without such an entry are safe if and only if no scope is stale
  (`GcEpoch.SafeExactlyWithoutStaleScopes`).
- Overwriting a key with a value of another length publishes the new block before the key
  is written to it, so a concurrent lookup can miss the key, in every table
  (`HopscotchLookup.OverwriteHides`); lookups always find a key that is not removed if and
  only if such overwrites are excluded (`HopscotchLookup.MissedExactly`).
- Keys of one length and one home bucket that agree up to a zero byte are one key to the
  table (`Hopscotch.SameName`, `Hopscotch.HopscotchTable.KeysMeet`). It refines a map of the
  keys of a set if and only if no two of them do (`Hopscotch.RefinesExactly`).
- Rounding an object size up in sixteen bits gives zero for the seven largest sizes
  (`FarMemRemote.AlignedVanishes`); objects with eight-byte ids never have them.
- `tx_burst` stops polling drained threads before its packets take their references. If that
  drops the last reference of a removed client, the client is released and then taken hold
  of, and released again later (`IokRuns.ReleasedTwice`, from boot
  `IokRuns.ReleasedTwiceFromBoot`). A run is free of this if and only if every batch leaves
  each process it has packets of a further reference (`IokRuns.RunKeeps`).
- `simple_detach` leaves the cores of the process neither owned nor marked idle, so a process
  can starve below its guarantee although `control_create_proc` (control.c:126-130) has admitted
  it. The guarantee of a removed client stays reserved until it is destroyed (control.c:243), so
  this needs removed clients that hold more cores than they were guaranteed: after every run
  from boot, a process below its guarantee gets no core exactly if no core is marked idle, nobody
  attached is above its guarantee and no ownerless core is near, and then the removed clients
  hold more cores than are reserved for them (`IokSystem.GuaranteeOverRuns`). It does happen: a
  newcomer after a removal starves exactly if no core is marked idle and nobody else is above its
  guarantee (`IokSystem.DetachStarves`, a run from boot `IokSystem.StarvesFromBoot`). It ends with
  the round of polling in which the cores left behind are seen idle (`IokSystem.StarvationEnds`).

## Assumptions

- Memory accesses are sequentially consistent, and versions, generations and timestamps do not
  wrap around.
- The hash is an arbitrary function; the kernel module's answers, preemption, allocation
  addresses in the cache and the sizes of peeked regions are arbitrary.
- A hopscotch slot that holds `kBusyPtr` matches no key, and neither does a block whose key is
  not yet written, although a reused block may still hold an old key.
- Processes and threads are named by identities that are never used again, unlike addresses.
- The number of bytes in a compressed stream is below 2^32 (`peeked_` has 32 bits), and iovec
  buffers together hold the announced length, as `aifm/snappy/snappy.h:166-169` demands.
- Addresses of cached objects fit the 47 bits the pointer word has for them.

## Model

| member | source | states |
|---|---|---|
| `SnappyRoundTrip.RoundTrip` | aifm/snappy/snappy.cc:1000-1082 | Decompressing what Compress has written succeeds and returns exactly the input, for every input whose MaxCompressedLength is below 2^32, however the two sources cut their bytes |
| `SnappyRoundTrip.SameOutput` | aifm/snappy/snappy.cc:1015-1077 | Two sources with the same remaining bytes are compressed to the same bytes, however differently they split them |
| `SnappyRoundTrip.AllWritersAgree` | aifm/snappy/snappy.cc:969-993 | On every byte stream, valid or corrupt, the validator and the array, scattered and iovec writers give one verdict, that of the format or a wrong acceptance after an overlong tag; on acceptance the string, the blocks and the iovec buffers hold the same bytes, those of the format if it accepts |
| `SnappyCompress.Compress` | aifm/snappy/snappy.cc:1000-1082 | Over any source: the output, over-wide stores included, stays inside a buffer of 32 + n + n/6 bytes; it decodes to the input exactly when n fits the 32-bit header and is rejected otherwise; and it is a function of the input alone; block by block the elements are the greedy choice (`SnappyChoice.FragmentIsGreedy`); n equal bytes take at most 5 + 17 for each block + 3 for each 64 |
| `SnappyCompress.EqualBlocks` | aifm/snappy/snappy.cc:1000-1082 | Any list of greedy choices for the blocks of equal bytes takes 3 bytes for each 64 and at most 17 for each block |
| `SnappyDecompress.InternalUncompress` | aifm/snappy/snappy.cc:969-993 | For every source, every splitting and every writer: success exactly on the streams the format accepts with the announced length and on those wrongly accepted after an overlong tag, and the writer then holds exactly the bytes the format gives where it gives any |
| `SnappyDecompress.Decompressor.DecompressAllTags` | aifm/snappy/snappy.cc:809-909 | At a clean end of input the writer holds the decoding of everything; at any other end the stream is malformed or longer than announced |
| `SnappyDecompress.Decompressor.RefillTag` | aifm/snappy/snappy.cc:912-967 | Keeps the bytes still to be decoded while making the next tag readable in one piece, across any splitting; fails exactly when the input is over or ends inside a tag |
| `SnappyDecompress.Decompressor.Stitch` | aifm/snappy/snappy.cc:935-949 | Fills the scratch buffer with the needed bytes from pieces of any size, losing none, and fails exactly when the input has too few |
| `SnappyDecompress.Decompressor.LiteralTag` | aifm/snappy/snappy.cc:854-889 | One literal tag, by the fast or the general path, takes the decoding one step forward or ends it with a reason to refuse |
| `SnappyDecompress.Decompressor.LiteralData` | aifm/snappy/snappy.cc:873-889 | A literal that straddles regions is appended completely, or its end of input or overflow is noticed |
| `SnappyDecompress.Decompressor.CopyTag` | aifm/snappy/snappy.cc:890-905 | One copy tag takes the decoding one step forward or ends it because it reaches too far back or writes too much |
| `SnappyDecompress.Decompressor.ReadUncompressedLength` | aifm/snappy/snappy.cc:780-801 | Accepts exactly the preambles of the format, whatever the splitting, and leaves the source right behind them |
| `SnappyDecompress.UncompressAllTags` | aifm/snappy/snappy.cc:980-993 | Accepts exactly when the tags decode to the announced number of bytes |
| `SnappyDecompress.RawUncompress` | aifm/snappy/snappy.cc:1355-1358 | The same verdict, and on success the decoding at the front of the array |
| `SnappyDecompress.RawUncompressToIOVec` | aifm/snappy/snappy.cc:1270-1274 | The same verdict for buffers with enough room, which snappy.h demands, and on success the decoding spread over them |
| `SnappyDecompress.IsValidCompressed` | aifm/snappy/snappy.cc:1420-1423 | The same verdict, without storing data |
| `SnappyDecompress.UncompressToBlocks` | aifm/snappy/snappy.cc:1670-1698 | The same verdict, and on success the decoding in a list of blocks |
| `SnappyDecompress.GetUncompressedLength` | aifm/snappy/snappy.cc:995-998 | The announced length, exactly when there is a preamble |
| `SnappyDecompress.Uncompress` | aifm/snappy/snappy.cc:1360-1376 | Reading the length, making room and starting over yields exactly the decoding |
| `SnappyFormat.StreamDiffers` | aifm/snappy/snappy.cc:864-871 | For every stream below 4 GB: the 32-bit reading accepts exactly what the format accepts and what it goes on with after an overlong literal tag, and gives the bytes of the format wherever there are any |
| `SnappyFormat.DecodeDiffers` | aifm/snappy/snappy.cc:864-871 | Tag streams decode alike in both readings unless they meet an overlong literal tag, which the format rejects |
| `SnappyFormat.OverlongAccepted` | aifm/snappy/snappy.cc:864-871 | Such a stream: it announces a 4 GB literal, ends, is rejected by the format and accepted as empty |
| `SnappyFormat.CopyFromConcat` | aifm/snappy/snappy.cc:401-429 | Two copies at one distance are one longer copy |
| `SnappyFormat.CopyFromUnique` | aifm/snappy/snappy.cc:140-162 | A sequence that extends the output and repeats itself at the offset is the copy, overlapping or not |
| `SnappyTable.CharTable` | aifm/snappy/snappy-internal.h:193-226 | All 256 table constants agree with the layout of opcodes in the format |
| `SnappyDecompress.EntryFields` | aifm/snappy/snappy.cc:890-905 | Shifting and masking a table entry gives the tag length, the copy length and the high offset bits of the format |
| `SnappyDecompress.LoadLow` | aifm/snappy/snappy.cc:718-729 | An unaligned 32-bit load cut to n bytes is the little-endian number in those n bytes |
| `SnappyEmit.DecodeOfEncode` | aifm/snappy/snappy.cc:336-429 | Decoding the bytes of any list of writable elements, whatever follows, runs exactly that list |
| `SnappyEmit.EncodeParses` | aifm/snappy/snappy.cc:336-399 | Tag encoding and tag parsing are inverse for every writable literal and copy |
| `SnappyEmit.RunPieces` | aifm/snappy/snappy.cc:401-429 | The pieces a long copy is cut into together are that copy |
| `SnappyEmit.EmitLiteral` | aifm/snappy/snappy.cc:336-376 | Writes exactly the encoding of the literal and changes nothing before op, and nothing behind it except up to seventeen bytes from op on the fast path |
| `SnappyEmit.EmitCopyAtMost64` | aifm/snappy/snappy.cc:379-398 | Writes exactly the encoding of the copy in two or three bytes |
| `SnappyEmit.EmitCopy` | aifm/snappy/snappy.cc:401-429 | Writes exactly the encodings of the pieces, in a bounded number of bytes |
| `SnappyFragment.CompressFragment` | aifm/snappy/snappy.cc:539-671 | The bytes written encode elements that append exactly the fragment to any earlier output; they take at most 7/6 of its size (plus one byte for a tiny one), no store passes that bound, and the elements are a function of the fragment and the table size; the elements are the greedy choice and tight, and 17 or more equal bytes take at most 2 + 3 * (n / 64 + 1) |
| `SnappyFragment.ScanForMatch` | aifm/snappy/snappy.cc:592-608 | A candidate always lies before ip in the same fragment and matches four bytes; every table slot stays before the next position |
| `SnappyFragment.EmitMatches` | aifm/snappy/snappy.cc:625-659 | Every copy emitted reproduces the matched input, and its cost is paid for by what it covers |
| `SnappyFragment.MatchIsCopy` | aifm/snappy/snappy.cc:630-641 | Repeating what lies ip - candidate bytes back reproduces the matched input |
| `SnappyChoice.HashInTable` | aifm/snappy/snappy.cc:91-97 | Every hash is a slot of the table |
| `SnappyChoice.HashLosesNothing` | aifm/snappy/snappy.cc:91-97 | Before it is shifted, the hash determines the four bytes |
| `SnappyChoice.FragmentIsGreedy` | aifm/snappy/snappy.cc:539-671 | Without a table: behind each literal start the positions looked at are those of the widening steps, each is compared with the last position entered that has its hash, the literal ends at the first one found, and copies go on as far as the bytes match and again wherever the position behind one matches |
| `SnappyChoice.GreedyTight` | aifm/snappy/snappy.cc:592-659 | In every greedy list a literal passes over no position that repeats the one looked at before it and is followed by a copy unless it is the last element; pieces at one distance have 64 or 60 bytes up to the last, and together they end only where the input stops repeating itself or ends |
| `SnappyChoice.FiveEqual` | aifm/snappy/snappy.cc:592-612 | In 17 bytes or more that begin with five equal ones, the list begins with a literal of one byte and a copy at distance one |
| `SnappyChoice.EqualBytes` | aifm/snappy/snappy.cc:539-671 | 17 or more equal bytes become a literal of one byte and the pieces of one copy at distance one |
| `SnappyChoice.EqualBytesSize` | aifm/snappy/snappy.cc:401-429 | They take two bytes and three for each 64 |
| `SnappyCompress.NextBlock` | aifm/snappy/snappy.cc:1015-1043 | The block handed to the compressor is the next bytes of the source, however they were peeked |
| `SnappyCompress.CalculateTableSize` | aifm/snappy/snappy.cc:443-457 | A power of two between the limits, at least the input size unless that is above the maximum |
| `SnappySource.Source.Peek` | aifm/snappy/snappy-sinksource.h:129-142 | A region of the bytes not yet skipped, empty exactly at the end, its length left open |
| `SnappyCopy.IncrementalCopy` | aifm/snappy/snappy.cc:184-331 | Leaves [op, op_limit) as the byte-by-byte copy does, changes nothing before op and nothing at or past buf_limit, in the shuffle and the pattern-doubling version |
| `SnappyCopy.IncrementalCopySlow` | aifm/snappy/snappy.cc:140-162 | The byte-by-byte copy |
| `SnappyCopy.FillPatterns` | aifm/snappy/snappy.cc:166-177 | The rows of the shuffle table repeat their pattern |
| `SnappyWriters.ArrayWriter.AppendFromSelf` | aifm/snappy/snappy.cc:1328-1342 | Succeeds exactly when the copy starts inside the output and fits, and then appends the copy of the format |
| `SnappyWriters.ArrayWriter.TryFastAppend` | aifm/snappy/snappy.cc:1315-1326 | If it accepts, sixteen bytes were copied in range and exactly the literal was appended |
| `SnappyWriters.ScatteredWriter.SlowAppend` | aifm/snappy/snappy.cc:1564-1592 | Appends across block boundaries, exactly when the expected length allows it |
| `SnappyWriters.ScatteredWriter.SlowAppendFromSelf` | aifm/snappy/snappy.cc:1595-1616 | Copies a byte at a time from any block, exactly when the copy is in range and fits |
| `SnappyWriters.ScatteredWriter.AppendFromSelf` | aifm/snappy/snappy.cc:1545-1556 | The verdict and the bytes of the format, by either path |
| `SnappyWriters.Validator.AppendFromSelf` | aifm/snappy/snappy.cc:1404-1410 | The same verdict from counts alone |
| `SnappyIOVec.IOVecWriter.AppendNoCheck` | aifm/snappy/snappy.cc:1151-1173 | Writes across buffers, empty ones included, exactly the given bytes |
| `SnappyIOVec.IOVecWriter.AppendFromSelf` | aifm/snappy/snappy.cc:1190-1259 | The verdict and the bytes of the format, from earlier buffers and inside the current one |
| `SnappyIOVec.IOVecWriter.Locate` | aifm/snappy/snappy.cc:1201-1216 | Walks back to the buffer and offset the copy starts at |
| `SnappyBits.FindMatchLength64` | aifm/snappy/snappy-internal.h:95-143 | Exactly the longest common prefix up to the limit, and whether it is below 8 |
| `SnappyBits.FindMatchLength32` | aifm/snappy/snappy-internal.h:144-168 | The same, four bytes at a time |
| `SnappyBits.FirstDifference` | aifm/snappy/snappy-internal.h:109-129 | The lowest differing bit of two little-endian words sits in their first differing byte |
| `SnappyBits.Log2FloorNonZero` | aifm/snappy/snappy-stubs-internal.h:454-469 | The portable scan computes the position of the highest set bit |
| `SnappyBits.FindLSBSetNonZero` | aifm/snappy/snappy-stubs-internal.h:475-488 | The portable scan computes the position of the lowest set bit |
| `SnappyBits.FindLSBSetNonZero64` | aifm/snappy/snappy-stubs-internal.h:490-503 | The position of the lowest set bit of 64, from two scans of 32 |
| `SnappyBits.Encode32` | aifm/snappy/snappy-stubs-internal.h:552-578 | The base-128 form of the number, in one to five bytes |
| `SnappyBits.Parse32WithLimit` | aifm/snappy/snappy-stubs-internal.h:530-550 | Accepts and reads exactly what the preamble of the format says, on every input |
| `SnappyBits.VarintThenRest` | aifm/snappy/snappy-stubs-internal.h:530-578 | The length header round-trips whatever follows it |
| `GcEpoch.PromptRunsAreSafe` | aifm/src/manager.cpp:541-608 | In every interleaving of scopes with collections in which no thread counts itself in under a status that has changed since it loaded it, no live scope ever holds an address into a free region |
| `GcEpoch.NothingLeftAtReclaim` | aifm/src/manager.cpp:600-608 | When the picked regions go to the free list, no scope holds an address into them and no pointer leads there |
| `GcEpoch.SafeExactlyWithoutStaleScopes` | aifm/inc/internal/deref_scope.ipp:20-59 | Between collections, all prompt continuations are safe if and only if no scope has a status other than the expected one |
| `GcEpoch.StaleEntryHappens` | aifm/inc/internal/deref_scope.ipp:29-38 | From every initial state with a region to collect, loading the status, a whole collection, and only then the increment is a possible run, and it leaves such a scope |
| `GcEpoch.UnsafeRun` | aifm/inc/internal/deref_scope.ipp:29-38 | A run of one thread, one core and two regions in which a scope ends up with an address into a free region |
| `GcEpoch.Drained` | aifm/src/manager.cpp:461-475 | A zero sum of the per-core counters, read one after the other, means that no scope of the old status is left |
| `GcEpoch.StepKeepsInv` | aifm/src/manager.cpp:414-608 | Every prompt step keeps the counters, marks, places and holders consistent |
| `GcEpoch.CollectionEnds` | aifm/src/manager.cpp:414-608 | From every reachable point of a collection there is a continuation that ends it, and then exactly the picked regions have become free |
| `GcEpoch.WriteBackRedirects` | aifm/src/manager.cpp:478-520 | A pointer that still leads into a picked region when it is written back is marked, and then leads to the new copy or nowhere |
| `FarMemWord.ViewOfSetPresent` | aifm/src/pointer.cpp:10-20 | The packed word becomes a clean, unmarked pointer to the address; the shared bit stays |
| `FarMemWord.ViewOfMutatorCopy` | aifm/src/pointer.cpp:22-33 | The packed word keeps dirty, hot and shared bits, loses the mark, and has the new address |
| `FarMemWord.ViewOfGcCopy` | aifm/src/pointer.cpp:35-44 | The packed word keeps dirty and shared bits, loses the mark, has the new address and is cold |
| `FarMemWord.ViewOfGcWriteBack` | aifm/src/pointer.cpp:46-55 | Data structure id, size and object id can be read back from the packed word, which is absent and not null |
| `FarMemWord.ViewOfDeref` | aifm/inc/internal/pointer.ipp:169-218 | The byte stores of a dereference leave the pointer dirty if it is mutable and otherwise as it was |
| `FarMemWord.ViewOfDerefShared` | aifm/inc/internal/pointer.ipp:169-218 | The same for a shared pointer |
| `FarMemWord.HotAfterTwo` | aifm/inc/internal/pointer.ipp:169-218 | A fetched object and one moved by the collector are cold and become hot with the second dereference |
| `FarMemWord.HotReadIsFree` | aifm/inc/internal/pointer.ipp:169-218 | Reading through a hot pointer does not change the word |
| `FarMemWord.ViewOfSetEvacuation` | aifm/inc/internal/pointer.ipp:117-120 | The mark changes nothing else |
| `FarMemWord.ViewOfSetDirty` | aifm/inc/internal/pointer.ipp:80-82 | The dirty bit changes nothing else |
| `FarMemWord.ViewOfClearDirty` | aifm/inc/internal/pointer.ipp:84-86 | Clearing the dirty bit changes nothing else |
| `FarMemWord.ViewOfFresh` | aifm/inc/internal/pointer.ipp:31-38 | The word of a new object is present, dirty and unmarked |
| `FarMemWord.NumberRoundTrip` | aifm/inc/internal/pointer.ipp:59-74 | A number of up to forty bits is read back from a word unchanged and takes no more bits than it has |
| `FarMemWord.DecodedGcWriteBack` | aifm/src/pointer.cpp:46-55 | With 38-bit ids the absent word gives back data structure, size and id as numbers, and is not null |
| `FarMemObject.FarMemory.Run` | aifm/src/manager.cpp:255-377 | In any run of allocations, reads, writes, flushes, evacuations, marks, migrations, swap-ins and swap-outs over any number of objects, every read returns the value last written; the metadata is the packed words, changed by their bit expressions; each operation has its entry in the log, a value exactly for the reads and writes that can be carried out |
| `FarMemObject.FarMemory.Read` | aifm/inc/internal/pointer.ipp:316-319 | Returns the value last written, wherever the object is, and leaves a clean object clean |
| `FarMemObject.FarMemory.Write` | aifm/inc/internal/pointer.ipp:321-328 | Replaces the value and keeps local and remote copies coherent, and changes the metadata of this pointer only |
| `FarMemObject.FarMemory.SwapIn` | aifm/src/manager.cpp:255-292 | An absent object is fetched whole; a present one is left alone |
| `FarMemObject.FarMemory.SwapOut` | aifm/src/manager.cpp:294-377 | A marked object moves if it is hot and may be kept, and is dropped otherwise, written only if dropped and dirty; values and other pointers stay as they are |
| `FarMemObject.FarMemory.Migrate` | aifm/src/pointer.cpp:61-111 | Moves a marked object and nothing else |
| `FarMemObject.FarMemory.Flush` | aifm/src/pointer.cpp:113-144 | Makes a present object clean without losing a value, and writes to the server only if it is dirty |
| `FarMemObject.FarMemory.Evacuate` | aifm/src/pointer.cpp:223-244 | Makes an object absent without losing a value, and writes to the server only if it is dirty |
| `FarMemObject.FarMemory.Mark` | aifm/src/manager.cpp:414-446 | Marks a present pointer and nothing else |
| `FarMemObject.FarMemory.Deref` | aifm/inc/internal/pointer.ipp:169-218 | The object is present and unmarked, at its address unless it was absent or marked, and dirty exactly if it was or the dereference is mutable; the word is the one the byte stores leave, and no other pointer changes |
| `FarMemObject.FarMemory.Allocate` | aifm/src/manager.cpp:114-134 | A new object is present and dirty in an extent of its own; it fails only when no free region is left, and then changes no object |
| `FarMemObject.OthersKept` | aifm/src/manager.cpp:255-377 | A step on one pointer leaves the value of every other object alone |
| `FarMemRemote.RemoteSpace.Allocate` | aifm/src/manager.cpp:707-725 | Every id names an extent in range that no other object touches; None exactly when the current region has no room and none is free |
| `FarMemRemote.RemoteSpace.BumpAllocate` | aifm/src/region.cpp:25-59 | The extent at the fill level of the region, which moves up by the aligned size and is apart from all others; None exactly when there is no room |
| `FarMemRemote.RemoteSpace.Refill` | aifm/src/manager.cpp:175-202 | Full regions are retired and free ones taken, each owned once |
| `FarMemRemote.AlignedVanishes` | aifm/src/region.cpp:26-28 | The 16-bit rounding gives an object its size if and only if the size is at most 65528; above it the object gets no bytes at all |
| `FarMemRemote.Server.ReadObject` | aifm/src/server_ptr.cpp:22-31 | Reads back exactly what is stored at the id |
| `FarMemRemote.Server.WriteObject` | aifm/src/server_ptr.cpp:33-43 | Stores the data at the id and changes nothing outside its extent |
| `RcuLock.SyncSawNoReader` | aifm/src/rcu_lock.cpp:5-32 | When writer_sync returns, there was an instant during the call at which no reader held the lock, although readers may lock on one core and unlock on another |
| `RcuLock.SyncEnds` | aifm/src/rcu_lock.cpp:5-32 | Without readers, two passes over the counters end writer_sync, whatever the single counters are |
| `RcuLock.SyncWaits` | aifm/src/rcu_lock.cpp:5-32 | With a reader and unchanged counters, no number of its own steps gets the writer out of the first pass |
| `RcuLock.BetweenKept` | aifm/src/rcu_lock.cpp:24-29 | A version that still agrees in the second pass has agreed since the first |
| `RcuLock.StepKeepsInv` | aifm/src/rcu_lock.cpp:34-54 | The per-core counters together always count the readers, and a version tells whether its counter has changed |
| `RcuWorker.GracePeriod` | shenango/runtime/rcu.c:39-94 | A callback runs only when every read section open at its rcu_free has been left, whatever kthreads start meanwhile and however many workers run |
| `RcuWorker.ExactlyOnce` | shenango/runtime/rcu.c:39-115 | Every callback is at all times pending, in one worker's hands or run, exactly once |
| `RcuWorker.GraceEnds` | shenango/runtime/rcu.c:66-83 | If every kthread is parked or has moved since it was sampled, one pass over them releases the batch |
| `RcuWorker.GraceWaits` | shenango/runtime/rcu.c:66-83 | If one is running and has not moved, no number of passes does |
| `RcuWorker.CallbackRuns` | shenango/runtime/rcu.c:39-94 | After any run, every callback handed in has a continuation in which it runs, once, that begins no read section and ends none if none is open |
| `Slab.ClassFits` | aifm/inc/internal/slab.ipp:5-14 | A request gets the smallest class it fits, and none exactly above the largest class |
| `Slab.SlabAllocator.Allocate` | aifm/src/slab.cpp:21-36 | The block is in range, large enough, was not live, and is the only change to the live blocks; there is none exactly if the list of the class is empty and the rest of the range is smaller than a block of the class |
| `Slab.SlabAllocator.Free` | aifm/src/slab.cpp:38-44 | Removes exactly that block from the live ones, on any core |
| `Slab.SlabAllocator.Replenish` | aifm/src/slab.cpp:9-19 | Carves new blocks off the range without touching live ones, at least one exactly if one fits; as many as fit, up to 512 |
| `Slab.SlabAllocator.LiveApart` | aifm/src/slab.cpp:9-44 | Live blocks are pairwise disjoint |
| `Hopscotch.HopscotchTable.Run` | aifm/src/local_concurrent_hopscotch.cpp:39-287 | Any sequence of put, get and remove with any keys answers like a finite map of their names, until a put gives up; and like a map of the keys if no two of them share a name |
| `Hopscotch.HopscotchTable.Put` | aifm/src/local_concurrent_hopscotch.cpp:122-257 | For any key: says whether its name was there and maps it to the value; it gives up if and only if no slot from the home bucket on is empty or displacement cannot bring the first empty one within reach, never with one of the 32 slots from there on empty, and loses no item |
| `Hopscotch.HopscotchTable.Reserve` | aifm/src/local_concurrent_hopscotch.cpp:166-180 | Reserves the first empty slot from the home bucket on, if there is one |
| `Hopscotch.HopscotchTable.Displace` | aifm/src/local_concurrent_hopscotch.cpp:182-237 | The reserved slot moves strictly towards the home bucket until it is within reach, at once if it already is, and no item is lost; it fails exactly if displacement gets stuck, with no bucket that could move an item into the slot |
| `Hopscotch.HopscotchTable.Victim` | aifm/src/local_concurrent_hopscotch.cpp:188-212 | Finds a bucket if and only if one has an item in front of the slot that may move there, and then the farthest one with its nearest item |
| `Hopscotch.HopscotchTable.MoveItem` | aifm/src/local_concurrent_hopscotch.cpp:212-228 | A displacement keeps every item claimed and within reach |
| `Hopscotch.HopscotchTable.Get` | aifm/src/local_concurrent_hopscotch.cpp:39-106 | For any key: the value of its name, or nothing |
| `Hopscotch.HopscotchTable.Remove` | aifm/src/local_concurrent_hopscotch.cpp:259-287 | For any key: removes exactly its name and says whether it was there |
| `Hopscotch.ClaimedOnce` | aifm/src/local_concurrent_hopscotch.cpp:28-37 | Each occupied slot is claimed by exactly one bit, that of its home bucket |
| `Hopscotch.MoveGood` | aifm/src/local_concurrent_hopscotch.cpp:212-228 | Moving an item to a reserved slot within 31 of its home keeps the table well formed |
| `Hopscotch.SameStringMeans` | aifm/src/local_concurrent_hopscotch.cpp:141-145 | The comparison identifies two keys of one length if and only if they are equal or agree up to a zero byte |
| `Hopscotch.SameName` | aifm/src/local_concurrent_hopscotch.cpp:141-145 | Two keys share a name if and only if they have one home and one length and are equal or agree up to a zero byte |
| `Hopscotch.RefinesExactly` | aifm/src/local_concurrent_hopscotch.cpp:39-287 | The answers are those of a map of keys, for all sequences over a set of keys, if and only if no two of the set share a name |
| `Hopscotch.HopscotchTable.KeysMeet` | aifm/src/local_concurrent_hopscotch.cpp:122-164 | In a fresh table a put of a key succeeds, a put of another one with the same name then says it was there, and a get of the first returns the value of the second |
| `HopscotchLookup.NeverMissed` | aifm/src/local_concurrent_hopscotch.cpp:49-105 | Under any interleaving with displacements, overwrites and insertions and removals of other keys, a lookup never reports a key missing that stays present, unless a probe meets its new block before the key is in it |
| `HopscotchLookup.OverwriteHides` | aifm/src/local_concurrent_hopscotch.cpp:146-161 | In every table, an overwrite with a value of another length can hide the key from a lookup while the timestamp stands still |
| `HopscotchLookup.MissedExactly` | aifm/src/local_concurrent_hopscotch.cpp:49-105 | For every table: all lookups of a key that is not removed find it if and only if such overwrites are excluded |
| `HopscotchLookup.StepKeeps` | aifm/src/local_concurrent_hopscotch.cpp:216-225 | The key stays readable in one slot until the timestamp of its bucket changes |
| `HopscotchLookup.LookupEnds` | aifm/src/local_concurrent_hopscotch.cpp:49-105 | When no writer is at work in the bucket, a lookup of a key that is there finds it by its own steps, wherever it has got to, at the latest on the slow path under the lock |
| `IokRuns.RunKeeps` | shenango/iokernel/sched.c:138-452 | Every sequence of events, with any answers of the kernel module, keeps core slots, lists, polling array and reference counts consistent; it takes hold of a released process if and only if some batch of packets leaves a process in it without a further reference |
| `IokRuns.ReleasedOnce` | shenango/iokernel/dp_clients.c:52-103 | In runs from boot without such a batch a process is released at most once, and exactly when it is detached with no packet in transmission, no thread on a core and none polled |
| `IokRuns.ReleasedUntouched` | shenango/iokernel/defs.h:160-173 | In such runs no event changes a process or its threads once it is released |
| `IokRuns.TransmitLate` | shenango/iokernel/tx.c:183-265 | A batch takes hold of a released process exactly if one of its processes has no reference besides those of the threads the batch stops polling |
| `IokRuns.ReleasedTwice` | shenango/iokernel/tx.c:183-265 | A batch that drains the last reference of a detached process with a packet of it, and the completion of the packet, release the process twice |
| `IokRuns.ReleasedTwiceFromBoot` | shenango/iokernel/tx.c:183-265 | A run from boot in which this happens |
| `IokRuns.NextKeeps` | shenango/iokernel/sched.c:138-452 | Each event keeps the invariant, leaves released processes alone, and is late exactly as a careless batch |
| `IokSched.ActiveAreSeated` | shenango/iokernel/sched.c:89-114 | The active threads are exactly those in core slots, each in one slot of the core it was given |
| `IokSched.ListsPartition` | shenango/iokernel/sched.c:89-114 | Active and idle lists partition the threads of a process |
| `IokSched.ReleasedMeansUnused` | shenango/iokernel/defs.h:160-173 | The reference count of a process is zero if and only if it is detached with no packet in transmission, no thread on a core and none polled |
| `IokSched.EnableInv` | shenango/iokernel/sched.c:89-100 | A thread becomes active and counted once |
| `IokSched.DisableInv` | shenango/iokernel/sched.c:102-114 | The last active thread fills the gap and its index follows |
| `IokSched.UnpollInv` | shenango/iokernel/defs.h:199-207 | The last polled thread fills the gap and its index follows; the reference is dropped |
| `IokSched.PollInv` | shenango/iokernel/defs.h:186-193 | A thread is polled and counted at most once |
| `IokScheduler.Scheduler.Run` | shenango/iokernel/sched.c:138-452 | The code goes through exactly the states of the run, releases included |
| `IokScheduler.Scheduler.SchedRun` | shenango/iokernel/sched.c:138-165 | While a run is under way the thread becomes the pending one, otherwise the running one; exactly the thread it displaces goes inactive, to the front of its idle list, its process loses its reference, and that of the polling array if the thread has nothing to send, and is released exactly if none is left; nothing else changes |
| `IokRuns.DropMeans` | shenango/iokernel/sched.c:102-114 | What disabling a thread and dropping its reference changes, and that it changes nothing else |
| `IokScheduler.Scheduler.FinishRun` | shenango/iokernel/sched.c:412-430 | The pending thread follows and exactly the running one leaves, as above; without a pending request only the waiting ends |
| `IokScheduler.Scheduler.RunOnCore` | shenango/iokernel/sched.c:176-197 | Fails exactly on the invalid inputs and then changes nothing; otherwise the nearest idle thread of the process gets the core |
| `IokScheduler.Scheduler.IdleOnCore` | shenango/iokernel/sched.c:208-223 | The core is asked to idle, exactly when it may be scheduled |
| `IokScheduler.Scheduler.PickKthread` | shenango/iokernel/sched.c:116-136 | The choice of `IokRuns.Pick`, by two scans of the idle list |
| `IokRuns.PickIsNearest` | shenango/iokernel/sched.c:116-136 | The chosen thread is idle; it last ran on this core if any idle one did, else on the sibling if any idle one did |
| `IokRuns.PickIsOldest` | shenango/iokernel/sched.c:134-135 | After any run, the thread picked when no idle one was on the core or its sibling has been idle for at least as long as any other |
| `IokRuns.BackIsOlder` | shenango/iokernel/sched.c:89-114 | In any run, a thread further back in the idle list of a process has been idle for at least as long |
| `IokRuns.TransmitHolds` | shenango/iokernel/tx.c:183-265 | A batch adds to the packets that hold a process exactly its own |
| `IokScheduler.Scheduler.PollCore` | shenango/iokernel/sched.c:409-444 | A finished run starts the pending one, an idle core is rewoken or vacated, with exactly the releases that follow |
| `IokScheduler.Scheduler.GoIdle` | shenango/iokernel/sched.c:432-443 | A thread with work waiting is woken again and nothing else changes; otherwise the core is idle and reported, and exactly its thread leaves, as above |
| `IokScheduler.Scheduler.AttachProc` | shenango/iokernel/sched.c:471-484 | A new process has all its threads idle and one reference |
| `IokScheduler.Scheduler.DetachProc` | shenango/iokernel/dp_clients.c:68-103 | The attachment ends, its reference goes, and the process is released if it was the last |
| `IokScheduler.Scheduler.TxBurst` | shenango/iokernel/tx.c:214-285 | Draining all queues and then preparing all packets goes to exactly the state of the batch |
| `IokScheduler.SteerFlows` | shenango/iokernel/sched.c:62-87 | An active thread's own flow goes to itself, and the k-th of the others to the active thread whose turn it is; of these, active threads get equally many, up to one |
| `IokSimple.NoCoreExactly` | shenango/iokernel/simple.c:146-199 | A process below its guarantee gets no core if and only if no core is marked idle, nobody has more than its guarantee, and no core without owner is among those it used or beside its own |
| `IokSimple.GuaranteedCore` | shenango/iokernel/simple.c:146-199 | If guarantees fit the allowed cores and ownerless allowed cores are marked idle, a process below its guarantee gets a core, and never one of a process at or below its own guarantee |
| `IokSimple.UnmarkedIfNoCore` | shenango/iokernel/control.c:126-130 | The counting argument behind it, over all processes and cores: if the guarantees of attached processes and a reserve fit the allowed cores and no core can be had, more allowed cores than the reserve have neither owner nor mark |
| `IokSimple.NewcomerExactly` | shenango/iokernel/simple.c:80-98 | A process just attached with a guarantee gets no core if and only if none is marked idle and nobody has more than its guarantee |
| `IokSimple.OrphansAreUnmarked` | shenango/iokernel/simple.c:80-331 | In every run of the policy the ownerless cores without mark are exactly those left by detached processes and not seen idle or taken since |
| `IokSystem.RunKnown` | shenango/iokernel/simple.c:80-331 | In every run of scheduler, policy and control plane: owners are exactly the attached processes whose thread a core was last given to, idle marks are exactly on the allowed cores nobody holds, threads have been on allowed cores only, and the reserved guarantees are those of the clients and fit the allowed cores |
| `IokSystem.PollsKnown` | shenango/iokernel/sched.c:404-451 | A round of polling keeps this, whatever the kernel module answers: cores found idle are reported, and the policy gives each to a congested process or marks it |
| `IokSystem.PollsExactly` | shenango/iokernel/sched.c:404-451 | Exactly the cores that the kernel module shows to have gone idle are given away or marked; the policy keeps its view of all others |
| `IokSystem.ServedKnown` | shenango/iokernel/simple.c:119-214 | So does a request for a core, which may take one from another process |
| `IokSystem.DepartedKnown` | shenango/iokernel/dp_clients.c:68-103 | So does removing a client: its cores keep their holder and lose their owner |
| `IokSystem.DestroyedKnown` | shenango/iokernel/control.c:400-420 | So does destroying a released client, which gives its reserved guarantee back |
| `IokSystem.UnmarkedAreLeft` | shenango/iokernel/simple.c:100-117 | The cores with neither owner nor mark are exactly those held by processes no longer attached |
| `IokSystem.GuaranteeOverRuns` | shenango/iokernel/control.c:126-130 | After every run from boot in which clients are admitted as control.c does: a process below its guarantee gets no core if and only if none is marked idle, nobody is above its guarantee and no ownerless core is near; and then the clients not attached hold more cores than are reserved for them, one removed client more than it was guaranteed |
| `IokSystem.RefusedMeans` | shenango/iokernel/control.c:126-130 | The counting argument behind it: with no core marked idle, nobody above its guarantee and one process below, the clients not attached hold more cores than are reserved for them |
| `IokSystem.NewcomerExactly` | shenango/iokernel/simple.c:80-98 | A client admitted with a guarantee is offered no core on arrival if and only if it has no thread, or none is marked idle and nobody is above its guarantee |
| `IokSystem.DetachStarves` | shenango/iokernel/simple.c:100-117 | After the removal of a client, a newcomer that control.c admits is offered no core if and only if none is marked idle and nobody but the removed one is above its guarantee |
| `IokSystem.StarvesFromBoot` | shenango/iokernel/simple.c:100-117 | A run from boot on one core: a client without guarantee takes it and is removed; the next client is admitted with a guarantee of one, and its request for a core changes nothing |
| `IokSystem.StarvationEnds` | shenango/iokernel/simple.c:307-331 | Once all cores held by removed clients have been seen idle in a round of polling, every process below its guarantee gets a core |
| `IokSystem.DestroyedFrees` | shenango/iokernel/control.c:235-247 | After a released client is destroyed, a new one with the same guarantee is admitted |
| `IokSimple.ChoiceIsFair` | shenango/iokernel/simple.c:146-199 | A chosen core is allowed and has no owner, or one other than the process and above its guarantee while the process is below its own |
| `IokSimple.ChosenExactly` | shenango/iokernel/simple.c:146-199 | A core is chosen if and only if the process may have one among those used before, marked idle, beside its own, or owned |
| `IokSimple.ChoiceOrder` | shenango/iokernel/simple.c:146-199 | The choice comes from the foremost idle thread that has a core to offer, else it is the lowest core marked idle, else one beside its own, else the lowest it may take from its owner |
| `IokSimple.SurplusExactly` | shenango/iokernel/simple.c:34-39 | A process at or above its guarantee gets a core if and only if one is marked idle or one without owner is near |
| `IokSimple.AddedIsFair` | shenango/iokernel/simple.c:201-214 | One more core for the process or no change, nobody pushed below its guarantee, and no ownerless core loses its mark; more exactly if it is below its maximum, a thread and the scheduler are available and a core can be chosen |
| `IokSimple.GivenInv` | shenango/iokernel/simple.c:119-144 | Ownership moves, every process is counted active once per core it owns, and no other core loses its mark |
| `IokSimple.WentIdleInv` | shenango/iokernel/simple.c:307-331 | The core goes to a congested process other than its last owner if and only if one has a thread available and the scheduler agrees, and is marked otherwise; other cores keep owner and mark |
| `IokSimple.WantingIsFound` | shenango/iokernel/simple.c:277-305 | A congested process with an available thread is found whenever there is one |
| `IokSimple.WantingOrder` | shenango/iokernel/simple.c:277-305 | The order in which processes are asked: the one on the sibling, both histories by age, the congested list |
| `IokSimple.DetachInv` | shenango/iokernel/simple.c:100-117 | Cores, histories and the congested list forget the process, the marks stay, and its cores become exactly the new ownerless cores without mark |
| `IokPolicy.SimplePolicy.Run` | shenango/iokernel/simple.c:34-331 | The code goes through exactly the states of the run |
| `IokPolicy.SimplePolicy.ChooseCore` | shenango/iokernel/simple.c:146-199 | The first available core in the order of the code: used before or their hyperthreads, marked idle, beside an own one, owned |
| `IokPolicy.SimplePolicy.ChooseKthread` | shenango/iokernel/simple.c:277-305 | The first congested process with a thread available in the order of the code: the sibling's, those of both histories in turn, any |
| `IokPolicy.SimplePolicy.CleanupCore` | shenango/iokernel/simple.c:48-62 | The owner loses the core and one active thread, and leads the history of the core |

## Left out

- Sources whose `Peek` shows more than `Available` bytes; the two sources of the repository never do.
- Sinks other than a flat buffer and blocks.
- `SnappyIOVec.IOVecWriter.AppendFromSelf`: requires the buffers together to hold the announced length, as aifm/snappy/snappy.h:166-169 demands of callers; the same holds for AppendNoCheck, RawUncompressToIOVec and AllWritersAgree.
- Shared pointers as rings of pointers: the packed word keeps their bit, but the objects are modelled with unique pointers only. Freeing and moving a pointer are left out with them.
- `FarMemObject.FarMemory.Run`: takes a dereference and the access through it as one step; two threads that use raw addresses of one object at the same time are not covered.
- Copy and evacuation notifiers of data structures, the cost estimator and the prefetchers.
- The cache allocator's choice of addresses in `FarMemObject`: an address no pointer leads to is assumed, and that freed regions are not in use is what `GcEpoch` proves.
- The local skip list, the RPC varints and the linear trend predictor.
- `get` with removal in one call, and the slab blocks behind the items in the table model.
- The back-off with `sync_barrier_` in the reader lock, which only delays readers.
- `IokRuns.RunKeeps`: the failure of a packet buffer allocation in tx_burst, after which packets pulled before are not prepared, is not modelled.
- Failures of `control_create_proc` after its admission check and of `simple_attach` for want of memory. The `waking` flag of `simple_notify_congested`, which only skips events that runs may have or not.
- Congestion detection from hardware queues, and the `mis`, `ias` and `numa` policies, which score with floating point.
- Prioritised scheduling of lagging threads during a collection, which is about time.
- Termination of retry loops under contention.
