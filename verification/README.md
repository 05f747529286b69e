# NoobKernel: verified models of eight kernel components

NoobKernel is a small RISC-V kernel.  This project models the components whose
correctness rests on invariants rather than on a single line of code, and proves what
each of them promises.  Code that changes memory in place is modelled by classes and
methods over arrays and nodes; next to each stands a module on values that defines what
the data structure means and proves its laws.

| component | modules | what is proved |
|---|---|---|
| buddy page allocator | `MathLib`, `BuddyBlocks`, `Buddy`, `BuddyProperties` | blocks tile the arena in every state, a request fails only when no aligned run of free pages exists, no page is lost or handed out twice in any run |
| VirtIO split virtqueue | `VirtqProtocol`, `Virtq` | every interleaving of driver and device keeps descriptors partitioned, rings are never overrun although indices wrap at 16 bits, each request is delivered exactly once |
| LZ4 codec | `Lz4Format`, `Lz4Decoding`, `Lz4Search`, `Lz4Output`, `Lz4` | decompress inverts compress on every input, the exact bytes written and the exact condition of failure are known for every capacity, the decoder accepts exactly the blocks of the format and equals a byte-by-byte decoder on every byte string |
| radix tree | `RadixSpec`, `Radix` | the tree is a function of the stored map alone; insert, lookup and delete implement a map on 64-bit keys |
| Sv39 page table | `PageTableSpec`, `PageTable`, `PageTableTeardown` | the three-level tree behaves as a flat map from virtual pages to entries; teardown frees each table once |
| block cache | `BcacheSpec`, `BcacheOrder`, `Bcache` | in every interleaving of threads, one buffer per block, exclusive access, and `bread` returns the last bytes written; which buffer is evicted, and that a sequential reader uses only one |
| slab allocator and `kmalloc` dispatch | `Bitmap`, `SlabLayout`, `SlabSpec`, `SlabCaches`, `Kalloc`, `KallocRuns`, `KallocOverlap` | counters, lists and bitmaps agree, objects in use do not overlap, a request fails only when the buddy allocator has no blob; over every run of `kmalloc` and `kfree` on several caches callers hold exactly what they were given and as much as they asked for, and their memory never overlaps if and only if every object size fits its blobs |
| SHA-2 streaming | `Sha2Spec`, `Sha2` | the digest is that of the FIPS 180-4 padded message however the input was cut up |

`Bits`, `Memory`, `LinkedLists` and `Options` hold the shared arithmetic of shifts and
masks, the C library's block copies, linked lists as sequences, and optional values.

Findings about the code, each with the exact condition under which it does what it should,
and an input for which it does not:

- `virtq_create` accepts every queue size, and `src/hal/virtio/virtio_mmio.c:145-157` may pass
  on the maximum that the device reports.  With 16-bit indices no two unread ring entries ever share a
  slot if and only if the size divides 2^16 (`Virtq.WrapKeepsApart`); with size 3 the entries
  65535 and 0 do (`Virtq.ThreeCollides`).  That condition is about ring slots alone: the token
  array has `VIRTQ_SIZE` = 32 entries and is indexed by descriptors (`src/hal/virtio/virtq.c:113`),
  so a queue must not be larger than that either.
- Both range checks of `mappages` add in 64 bits (`src/mm/pagetable.c:87-90`).  A range that
  passes ends at or below the limit if and only if the sum did not wrap, and the check is
  wrong if and only if the sum wraps and what is left of it passes (`PageTable.RangeCheckExact`);
  2^52 pages from address 0 pass both checks (`PageTable.RangeCheckWraps`).
- The end address of `unmappages` wraps too (`src/mm/pagetable.c:107`).  It visits all the
  pages it is asked for if and only if it does not (`PageTable.UnmapExact`); of 2^52 pages
  from address 0 it visits none and still returns 0 (`PageTable.UnmapWraps`).
- `object_num` does not plan for the bytes that `ALIGN_UP` inserts before the first object
  (`src/mm/slab.c:53-54`).  All objects of a slab end inside its blob if and only if that
  padding fits into what `object_num` leaves over (`SlabLayout.AllEndInside`), and only the
  last object can run past it (`SlabLayout.OnlyLastOverruns`).  The `kmalloc` pools of 24 and
  48 bytes overrun and the other sixteen do not (`SlabLayout.KmallocFits`); the caches of
  inodes (176 bytes) and directory entries (168) overrun, those of files and super blocks do
  not (`SlabLayout.FileSystemCaches`).  Objects of one cache never overlap each other, whether
  or not they fit (`SlabLayout.ObjectsDisjoint`).  A live object and a live block right
  behind its blob are apart if and only if the object ends inside the blob (`Kalloc.BehindExact`),
  and only the last object of a slab of a size that does not fit does not (`Kalloc.InsideUnlessLast`).
  Over whole runs the memory of two callers never overlaps if and only if every object size fits,
  or the arena has no page besides one slab (`KallocOverlap.ApartExact`).  A run that shows it,
  on 32 pages with a cache of 24-byte objects: the cache gets its first slab at page 0,
  `buddy_alloc` hands out page 16, and 2714 requests take the objects of the slab; the last of
  them reaches 16 bytes into page 16 (`KallocOverlap.PoolOverlap`).
- `object_num` multiplies by 8 in 32 bits (`src/mm/slab.c:36`).  The objects that it counts, if
  any, have room in the blob if and only if the object size stays below 2^29
  (`SlabLayout.RoomExact`); of objects of 2^29 bytes it counts 523833 (`SlabLayout.WideObjects`).
- `bitmap_find_next_clear` counts the bit offset of its start twice for a bit found in the
  start's own byte, and does not mask that byte at the end of the map
  (`include/misc/bitmap.h:111-120`).  From a start inside the map it is right if and only if
  that byte has no clear bit from the start on, or the start is a byte boundary and the byte's
  first clear bit is not behind the end of the map (`Bitmap.FoundExact`).  From bit 1 of an
  empty byte it returns 2 (`Bitmap.FoundTwice`); on a map of length 3 whose byte is 0x0F, from
  bit 0, it returns 4 (`Bitmap.FoundBehind`).
- `kmem_cache_free` raises the cache's counter even when it finds the object already free:
  the cache stays in a valid state if and only if the object was in use
  (`SlabCaches.SlabCache.Give`, `SlabSpec.DoubleReturn`); the first object of a fresh slab of
  8-byte objects is an instance (`SlabSpec.DoubleReturnLoses`).
- `kmem_cache_flush` moves empty slabs to the spare list but leaves them in the counters, so
  the counters stay right if and only if it moves nothing (`SlabSpec.FlushExact`); two fresh
  slabs of 8-byte objects are an instance (`SlabSpec.FlushLoses`).  Reusing such a slab counts
  its objects a second time (`SlabSpec.ReuseKeepsExcess`).  Below the high-water mark it
  returns with its lock held (`SlabCaches.SlabCache.Flush`).
- `lz4_compress_generic` writes token and literal length before it tests the capacity
  (`src/misc/lz4.c:109-112`).  For every input, acceleration and capacity the bytes that it
  writes past the capacity are known (`Lz4Output.Spill`, `Lz4.CompressGeneric`).  There are
  none if and only if the header of the first sequence that does not fit, if any, still does
  (`Lz4Output.SpillExact`), and never any when the capacity is at least the bound of the
  input's length (`Lz4Output.BoundSuffices`).  The call on 40 zero bytes with acceleration 20 and
  capacity 1 returns -1 and has written a 5 into the byte behind the capacity (`Lz4.WritesPast`).
- `lz4_compress_generic` overestimates the closing literals by one byte for most runs of more than
  15 (`src/misc/lz4.c:146-151`): they are refused although they fit if and only if the run is
  longer than 15, the rest of its length is no multiple of 255, and they would fill the capacity
  exactly (`Lz4Output.EstimateExact`); 16 equal bytes at acceleration 4 and capacity 18 are an
  instance (`Lz4Output.RefusedFit`).
- `brelse` puts a buffer that nobody uses any more to the tail of the LRU list, where the scan of
  `bcache_evict` begins (`src/mm/bcache.c:61-77`, `src/mm/bcache.c:145-148`).  So the cache evicts
  the buffer that was released last (`BcacheOrder.ReleasedIsVictim`), and in every run the scan
  takes the tail itself or finds every buffer in use (`BcacheOrder.EvictsTail`).  Whoever releases
  each block before asking for the next one never has more than one block cached, in 128
  buffers (`BcacheOrder.OneBlockCached`).
- `slab_init` aligns the first object by masking with the object size (`src/mm/slab.c:53-54`), not
  with the 8 bytes that `kmem_cache_init` rounds the size up to.  Objects start at multiples of 8
  if and only if the offset of the first one is a multiple of 8, which holds for sizes divisible by 8
  (`SlabLayout.ObjectsAligned`); objects of 12 bytes start 4 bytes off (`SlabLayout.TwelveOff`).

One branch is dead: a radix node is never left without children by a deletion, so the case
of no children at `src/misc/radix_tree.c:165-168` cannot occur (`RadixSpec.CollapseCanon`).

## Model

| member | source | states |
|---|---|---|
| `MathLib.Log2Ceil` | include/misc/math.h:10-49 | the binary search over shifts yields the least r with size <= 2^r for every 64-bit size, and -1 for 0 |
| `Buddy.Size2Order` | src/mm/buddy.c:31-34 | the order of the smallest block that holds the size, never above the largest order |
| `Buddy.OrderUnique` | src/mm/buddy.c:31-34 | that order is unique |
| `Bits.XorBuddy` | src/mm/buddy.c:36-39 | exclusive-or with the block size is the other half of the parent block |
| `BuddyBlocks.BuddyFacts` | src/mm/buddy.c:36-39 | the buddy of an aligned block lies in the arena, is aligned, has the block as its own buddy, and together they fill the aligned parent |
| `Buddy.BuddyAllocator.constructor` | src/mm/buddy.c:58-80 | afterwards the whole arena is free, nothing is allocated, and the invariant holds |
| `BuddyBlocks.InitialTiled` | src/mm/buddy.c:58-80 | the initial page table is a tiling into largest blocks, all free |
| `Buddy.BuddyAllocator.FindPair` | src/mm/buddy.c:91-105 | the scan stops at a block whose buddy is free, or proves that the level has no free buddies |
| `Buddy.BuddyAllocator.JoinPair` | src/mm/buddy.c:106-122 | one merge keeps the tiling, the set of free pages and the live blocks, shortens its list by two and creates no buddies at smaller orders |
| `Buddy.BuddyAllocator.MergeBlocks` | src/mm/buddy.c:82-128 | terminates, keeps the free pages, the live blocks and the lists of larger orders, and leaves no two free buddies at any order below the requested one |
| `BuddyBlocks.JoinedTiled` | src/mm/buddy.c:106-122 | joining two free buddies turns a tiling into a tiling with the same free pages and live blocks |
| `BuddyBlocks.JoinedNoBuddies` | src/mm/buddy.c:82-128 | a merge at one order cannot create buddies at a smaller one |
| `Buddy.BuddyAllocator.CutFirst` | src/mm/buddy.c:144-170 | one split keeps tiling, free pages and live blocks; the first block leaves its list and its halves are appended to the next smaller one |
| `Buddy.BuddyAllocator.SplitBlocks` | src/mm/buddy.c:130-173 | keeps free pages and live blocks; the nearest non-empty larger list gives its first block, of which the upper half stays at every order on the way and two halves reach the target list; nothing else changes, and nothing at all when every larger list is empty |
| `BuddyBlocks.CutTiled` | src/mm/buddy.c:144-170 | cutting a free block turns a tiling into a tiling with the same free pages and live blocks |
| `Buddy.BuddyAllocator.AllocInner` | src/mm/buddy.c:175-193 | takes the first block of its list, an aligned free run, out of the free pages, records it as a live block, and lowers the page counter by its size |
| `Buddy.BuddyAllocator.AllocNolock` | src/mm/buddy.c:195-212 | succeeds if and only if the state before the call has an aligned run of free pages of the order of the request; a non-empty list of that order gives its first block and no other list changes |
| `BuddyBlocks.Completeness` | src/mm/buddy.c:195-212 | when no free buddies are left below order k, an available run of order k lies inside one free block of order at least k |
| `BuddyBlocks.NoSmallBlock` | src/mm/buddy.c:195-212 | by descent on the order: in such a state no page of a wholly free aligned run is in a smaller free block |
| `Buddy.NoneLeft` | src/mm/buddy.c:195-212 | after merging and a failed split, no available run of that order exists |
| `Buddy.BuddyAllocator.Alloc` | src/mm/buddy.c:214-227 | sizes outside one page to one blob are refused; otherwise NULL exactly when no suitable aligned free run exists, and free pages and live blocks change by exactly the granted block |
| `Buddy.BuddyAllocator.Free` | src/mm/buddy.c:229-243 | exactly the pages of the returned block become free and were not free before; the block is no longer live and heads the list of its order |
| `BuddyProperties.Partition` | src/mm/buddy.c:58-243 | every page of the arena is in exactly one block; blocks are aligned and inside the arena |
| `BuddyProperties.BlocksDisjoint` | src/mm/buddy.c:58-243 | two different blocks, free or live, share no page |
| `BuddyProperties.HeadsListed` | src/mm/buddy.c:58-243 | a page has a non-NULL `private` and order k if and only if it starts a block on free list k, and that block is aligned and wholly free |
| `BuddyProperties.FreePageCount` | src/mm/buddy.c:175-193 | the number of free pages is the sum of 2^order over the blocks on the free lists |
| `BuddyProperties.StepAccounted` | src/mm/buddy.c:214-243 | every request and return keeps each page either free or in exactly one live block |
| `BuddyProperties.RunAccounted` | src/mm/buddy.c:214-243 | after any sequence of requests and returns no page is lost and none is in two live blocks |
| `BuddyProperties.NoLastingFragmentation` | src/mm/buddy.c:195-243 | once every block has been returned, no request for a run that fits the arena can fail |
| `BuddyProperties.FreeDetermined` | src/mm/buddy.c:214-243 | the live blocks alone determine which pages are free |
| `BuddyProperties.BalancedRun` | src/mm/buddy.c:82-243 | every run that ends with the live blocks it began with has restored the free pages too, however blocks were cut and joined in between |
| `BuddyProperties.TiledAccounted` | src/mm/buddy.c:58-243 | the page table of the allocator always accounts for every page |
| `VirtqProtocol.StepKeeps` | src/hal/virtio/virtq.c:106-193 | every driver or device step keeps free descriptors and outstanding chains a partition of all descriptors, and every added request outstanding or returned exactly once |
| `VirtqProtocol.RunInv` | src/hal/virtio/virtq.c:54-193 | the partition holds after every interleaving of driver and device steps |
| `VirtqProtocol.ExactlyOnce` | src/hal/virtio/virtq.c:106-193 | over every run no request is returned twice or both returned and outstanding, and every added request is in one of the two places |
| `VirtqProtocol.FreeListSound` | src/hal/virtio/virtq.c:83-104 | the free list has no repetition and stays below the queue size |
| `VirtqProtocol.ChainSound` | src/hal/virtio/virtq.c:106-158 | an outstanding chain visits no descriptor twice and no free descriptor |
| `VirtqProtocol.ChainsDisjoint` | src/hal/virtio/virtq.c:106-158 | two outstanding chains share no descriptor |
| `VirtqProtocol.DescriptorCount` | src/hal/virtio/virtq.c:210-216 | descriptors in use equal the total length of outstanding chains, so neither ring holds more than the queue size |
| `Virtq.DistinctSlots` | src/hal/virtio/virtq.c:150-153 | entries of a window no longer than the ring occupy different slots |
| `Virtq.RingPush` | src/hal/virtio/virtq.c:150-153 | publishing into a ring that is not full overwrites no unread entry |
| `Virtq.RingPop` | src/hal/virtio/virtq.c:171-187 | the slot at the read index holds the oldest unread entry |
| `Virtq.WrapKeepsApart` | src/hal/virtio/virtq.c:150-172 | with 16-bit indices, no window the ring can hold ever has two entries in one slot if and only if the queue size divides 2^16 |
| `Virtq.ThreeCollides` | src/hal/virtio/virtq.c:150-153 | in a queue of size 3 the entries with indices 65535 and 0 share slot 0 |
| `Virtq.EmptyTests` | src/hal/virtio/virtq.c:160-199 | comparing wrapped indices for equality is a correct emptiness test in every reachable state, for both rings |
| `Virtq.VirtQueue.constructor` | src/hal/virtio/virtq.c:11-72 | the new memory represents the queue with descriptors 0 to size - 1 free in order and nothing outstanding |
| `Virtq.VirtQueue.AllocDesc` | src/hal/virtio/virtq.c:83-94 | unlinks the head of the free list; 65535 when it is empty |
| `Virtq.VirtQueue.FreeDesc` | src/hal/virtio/virtq.c:96-104 | the cleared descriptor becomes the head of the free list |
| `Virtq.VirtQueue.FillChain` | src/hal/virtio/virtq.c:115-148 | the first descriptors of the free list become one chain that describes the readable and then the writable buffers, and no other descriptor changes |
| `Virtq.VirtQueue.AddBuf` | src/hal/virtio/virtq.c:106-158 | refuses exactly when too few descriptors are free; otherwise the first free descriptors, linked through `next`, show the first buffers read-only and the second ones writable, each with its address and length, the chain head is published and returned, and the token stored |
| `Virtq.AddRepresents` | src/hal/virtio/virtq.c:106-158 | the memory written by an add represents the queue after the add |
| `Virtq.VirtQueue.GetBuf` | src/hal/virtio/virtq.c:160-193 | nothing happens when nothing is done; otherwise the oldest finished request is reaped, with its token and length |
| `Virtq.PushedLinked` | src/hal/virtio/virtq.c:180-185 | the walk of the reaped chain puts exactly its descriptors, reversed, in front of the free list |
| `Virtq.GetRepresents` | src/hal/virtio/virtq.c:160-193 | the memory after a reap represents the queue after the reap |
| `Virtq.VirtQueue.HasBuf` | src/hal/virtio/virtq.c:195-199 | true exactly when a finished request waits |
| `Virtq.VirtQueue.DescCount` | src/hal/virtio/virtq.c:210-216 | the total length of all outstanding chains |
| `Virtq.WalkReads` | src/hal/virtio/virtq.c:115-148 | following the chain as the device does ends by itself and yields exactly the posted buffers in order |
| `Virtq.ChainShown` | src/hal/virtio/virtq.c:115-148 | a written chain shows each buffer with its own address, length and direction |
| `Lz4Format.DecodeSequence` | src/misc/lz4.c:196-262 | decoding the bytes of one sequence appends its literals and its match and goes on behind them |
| `Lz4Format.DecodeLast` | src/misc/lz4.c:143-165 | the closing literals decode to themselves and end the block |
| `Lz4Format.DecodeAll` | src/misc/lz4.c:196-262 | decoding the bytes of a list of sequences yields what the sequences expand to |
| `Lz4Format.ReadLenExt` | src/misc/lz4.c:203-212 | a nibble and extension bytes read back as the length they were written for |
| `Lz4Format.SequenceLayout` | src/misc/lz4.c:108-138 | every byte of an encoded sequence: both nibbles of the token, literal length, literals, little-endian offset, match length |
| `Lz4Format.LastLayout` | src/misc/lz4.c:143-165 | every byte of the closing literals |
| `Lz4Decoding.ReadExtFails` | src/misc/lz4.c:203-212 | a length is refused if and only if its extension bytes are all 255 to the end of the block |
| `Lz4Decoding.DecodeExact` | src/misc/lz4.c:189-265 | the decoder returns an output exactly when its input is sequences and closing literals that stand for it, with offsets inside the output so far, and the output fits; everything else is refused |
| `Lz4Output.SequenceCost` | include/misc/lz4.h:8-9 | a sequence costs at most its literals plus match plus one byte in 255 literals |
| `Lz4Output.PotentialStep` | include/misc/lz4.h:8-9 | one more sequence keeps the output within input consumed plus one in 255 |
| `Lz4.OrNibbles` | src/misc/lz4.c:118-121 | or-ing the match nibble into the token joins the two nibbles |
| `Lz4.WriteLiteral` | src/misc/lz4.c:15-33 | writes the literal nibble and the extension bytes of the length, and returns their number |
| `Lz4.WriteMatchExt` | src/misc/lz4.c:128-138 | writes the extension bytes of the match length, or -1 exactly when they do not fit |
| `Lz4Output.EncodedCost` | include/misc/lz4.h:8-9 | any list of sequences is encoded within the input it covers plus one in 255 |
| `Lz4Output.EstimateExact` | src/misc/lz4.c:146-151 | closing literals that fit are refused if and only if there are more than 15, what exceeds 15 is no multiple of 255, and they fill the capacity exactly |
| `Lz4Output.RefusedFit` | src/misc/lz4.c:146-151 | 16 equal bytes at acceleration 4 need 18 bytes and are refused 18 |
| `Lz4Search.TurnMatches` | src/misc/lz4.c:76-142 | a candidate 1 to 65535 bytes back whose four bytes agree is used: one sequence of the literals since the anchor and a match to the first byte that differs, then the search goes on behind it |
| `Lz4Search.TableIndex` | src/misc/lz4.c:10-11 | the table is indexed by bits 16 to 27 of the little-endian word times 2654435761 |
| `Lz4Search.TurnSkips` | src/misc/lz4.c:80-89 | any other candidate is not used: the search goes on as many bytes further as the acceleration says, at least 1, with the table updated |
| `Lz4Search.PlanCovered` | src/misc/lz4.c:76-142 | the sequences found never cover more than the input |
| `Lz4Search.UniformPlan` | src/misc/lz4.c:56-142 | any number of copies of one byte at any acceleration: one sequence of as many literals as the acceleration and a match to the end, or none when the step leaves less than 13 bytes or exceeds 65535 |
| `Lz4Output.SpillExact` | src/misc/lz4.c:109-115 | nothing is written past the capacity if and only if token and literal length of the first sequence that does not fit, if any, still do |
| `Lz4Output.SpillBound` | src/misc/lz4.c:109-112 | for every input of that length, no more than a token and the length bytes of one run are written past the capacity |
| `Lz4Output.BoundSuffices` | include/misc/lz4.h:8-9 | with a capacity of at least the bound of the input's length, or up to 13 bytes less, compression succeeds and writes nothing past the capacity |
| `Lz4Output.ZeroSpill` | src/misc/lz4.c:109-115 | 40 zero bytes at acceleration 20 and capacity 1 fail, with the single byte 5 past the capacity |
| `Lz4.EmitLiterals` | src/misc/lz4.c:109-119 | token, length and literals, or -1 exactly when the literals do not fit; the header is written in either case, and nothing behind header and capacity |
| `Lz4.EmitMatch` | src/misc/lz4.c:123-138 | appends offset and match length bytes, or -1 exactly when they do not fit; nothing past the capacity changes |
| `Lz4.EmitSequence` | src/misc/lz4.c:109-138 | appends the bytes of one sequence, or -1 exactly when they do not fit the capacity; a header that does not fit has been written all the same, and nothing behind it |
| `Lz4.MatchRound` | src/misc/lz4.c:91-139 | one match of the main loop keeps the run invariant, or returns -1 exactly when its sequence does not fit; the bytes written past the capacity are exactly the end of its header |
| `Lz4.MatchTurn` | src/misc/lz4.c:76-142 | a turn with a match goes on along the compressor's plan, or fails exactly where the plan fails |
| `Lz4Search.ExtendMatch` | src/misc/lz4.c:97-107 | the match found repeats the earlier bytes at every position and cannot be extended |
| `Lz4.CopyRepeats` | src/misc/lz4.c:97-107 | a repeating stretch is reproduced by the decoder's byte-by-byte copy |
| `Lz4.EncodedStep` | src/misc/lz4.c:76-142 | each turn of the main loop keeps: the bytes written are the encoding of sequences that expand to the input consumed, within the size potential |
| `Lz4.EmitLast` | src/misc/lz4.c:143-165 | appends the closing literals, or -1 exactly when there are some and their estimate does not fit, which the bound rules out |
| `Lz4.EncodedLast` | src/misc/lz4.c:143-167 | the finished output decodes to the whole input in any buffer that can hold it |
| `Lz4.CompressGeneric` | src/misc/lz4.c:56-168 | for every input, acceleration and capacity: -1 exactly when the plan does not fit, else the encoding of the plan, which decodes to the input; behind the capacity exactly the spill of the plan is written, and nothing on success |
| `Lz4.WritesPast` | src/misc/lz4.c:56-168 | compressing 40 zero bytes at acceleration 20 into capacity 1 returns -1 and leaves a 5 behind the capacity |
| `Lz4.CompressesZeros` | src/misc/lz4.c:170-173 | 40 zero bytes at acceleration 1 become the five bytes 0x1F 0 1 0 20 |
| `Lz4.CompressFast` | src/misc/lz4.c:175-187 | the same with the argument checks, for every input; never -1 when the capacity is at least the bound |
| `Lz4.ReadLength` | src/misc/lz4.c:203-212 | reads a length like the functional decoder, or fails where it fails |
| `Lz4.MatchCopyBlock` | src/misc/lz4.c:253-260 | a byte-by-byte copy no longer than the offset is one block copy |
| `Lz4.CopyOverlap` | src/misc/lz4.c:253-259 | the byte loop leaves a rest that no longer overlaps, with the same final result |
| `Lz4.CopyMatch` | src/misc/lz4.c:244-262 | the split copy equals the byte-by-byte copy; its block copy never overlaps itself and bytes behind the match are untouched |
| `Lz4.Decompress` | src/misc/lz4.c:189-265 | on every byte string and capacity: terminates, stays inside both buffers, and returns exactly what the functional decoder returns, -1 for its failures |
| `Lz4.RoundTrip` | src/misc/lz4.c:170-265 | for every input up to the length for which the bound is defined, and every acceleration, decompressing the compressed input into a buffer of the input's size gives back the input |
| `RadixSpec.AgreeNext` | src/misc/radix_tree.c:62-80 | keys that share all digits so far and differ, differ in a later one |
| `RadixSpec.SplitDepth` | src/misc/radix_tree.c:62-80 | a leaf is split only above the last digit, so the shift is never negative and recursion stops within 32 levels |
| `RadixSpec.CanonUnique` | src/misc/radix_tree.c:42-172 | a map has exactly one canonical tree |
| `RadixSpec.InsertCanon` | src/misc/radix_tree.c:42-103 | insertion turns the canonical tree of a map into the canonical tree of the updated map |
| `RadixSpec.LookupCanon` | src/misc/radix_tree.c:111-127 | lookup in a canonical tree is the map's value, 0 for absent keys |
| `RadixSpec.CollapseCanon` | src/misc/radix_tree.c:150-169 | after a deletion that leaves keys the node has a child left, and replacing it by a lone leaf is canonical |
| `RadixSpec.DeleteCanon` | src/misc/radix_tree.c:130-172 | deletion reports whether the key was there and yields the canonical tree of the map without it |
| `RadixSpec.HistoryCanon` | src/misc/radix_tree.c:42-177 | after any history of inserts and deletes the tree is the canonical tree of the resulting map |
| `RadixSpec.HistoryIndependent` | src/misc/radix_tree.c:42-177 | two histories that leave the same map leave the same tree |
| `Radix.InsertNode` | src/misc/radix_tree.c:42-103 | the in-place rewrite keeps the nodes apart and changes the subtree as the functional insert does |
| `Radix.SplitLeaf` | src/misc/radix_tree.c:62-86 | a leaf with another key becomes the inner nodes and leaves that separate the two keys |
| `Radix.DeleteNode` | src/misc/radix_tree.c:130-172 | the in-place delete changes the subtree as the functional delete does and returns 0 or -EINVAL accordingly |
| `Radix.CollapseNode` | src/misc/radix_tree.c:148-170 | counting the children yields the collapsed subtree |
| `Radix.RxTree.Insert` | src/misc/radix_tree.c:106-108 | the stored map is updated at the key |
| `Radix.RxTree.Lookup` | src/misc/radix_tree.c:111-127 | the stored value, or null for an absent key |
| `Radix.RxTree.Delete` | src/misc/radix_tree.c:175-177 | succeeds exactly on present keys and removes exactly that key |
| `PageTableSpec.TablePteFacts` | src/mm/pagetable.c:22-22 | an entry made for a table is valid and leads back to that table |
| `PageTableSpec.LeafPteFacts` | src/mm/pagetable.c:98-98 | a leaf entry is marked mapped, points at its page, and carries exactly the six permission bits |
| `PageTableSpec.PteLayout` | include/mm/pagetable.h:9-25 | the bits of an entry: valid, mapped, permissions, page number |
| `PageTableSpec.HardwareWalk` | src/mm/pagetable.c:9-26 | the entry of an address is the one that the Sv39 walk of the hardware reaches, nine bits of the address at each level |
| `PageTableSpec.SamePage` | src/mm/pagetable.c:9-26 | addresses use the same three indices if and only if they are on the same virtual page |
| `PageTableSpec.HungShaped` | src/mm/pagetable.c:17-22 | hanging a fresh zeroed table below an invalid entry keeps every table reachable through exactly one valid parent entry |
| `PageTableSpec.HungEntry` | src/mm/pagetable.c:17-22 | and changes no leaf entry of any address |
| `PageTableSpec.StoredEntry` | src/mm/pagetable.c:98-98 | writing a leaf slot changes the entries of exactly one virtual page |
| `PageTable.AddressSpace.constructor` | src/mm/pagetable.c:45-45 | a new table maps nothing |
| `PageTable.AddressSpace.Va2Pte` | src/mm/pagetable.c:9-26 | the slot of the address's page; allocating changes no leaf entry, and NULL means that the entry is empty |
| `PageTable.AddressSpace.WalkAddr` | src/mm/pagetable.c:28-43 | the page's physical address if the address is below VM_END and mapped, else 0 |
| `PageTable.RangeCheckExact` | src/mm/pagetable.c:87-90 | for the virtual and the physical check: a range that passes ends by the limit if and only if the sum did not wrap, and the check is right exactly unless the sum wraps and its rest passes |
| `PageTable.RangeCheckWraps` | src/mm/pagetable.c:87-90 | 2^52 pages from address 0 pass both checks; another wrapping count is refused |
| `PageTable.AddressSpace.MapPages` | src/mm/pagetable.c:78-101 | each result code exactly when its condition holds, and 0 only when all pages are mapped; a range that does not wrap is in use if and only if the arguments pass and one of its pages was mapped before; on success all, on -EADDRINUSE exactly the pages before the conflict are mapped with the masked permissions, everything else keeps its entry |
| `PageTable.MappedFlat` | src/mm/pagetable.c:78-101 | below VM_END, mapping changes exactly the requested addresses, to consecutive physical pages |
| `PageTable.AddressSpace.UnmapPages` | src/mm/pagetable.c:103-118 | the entries of exactly the pages its loop visits become 0 if they were mapped, and all others stay; that is the whole range if and only if the end address does not wrap |
| `PageTable.UnmapExact` | src/mm/pagetable.c:106-108 | the loop visits all requested pages if and only if the end address does not wrap |
| `PageTable.UnmapWraps` | src/mm/pagetable.c:106-108 | of 2^52 pages from address 0 it visits none |
| `PageTable.ClearedFlat` | src/mm/pagetable.c:103-118 | the same as a change of the flat map: 0 for mapped addresses of the range, everything else unchanged |
| `PageTable.MapThenUnmap` | src/mm/pagetable.c:78-118 | unmapping what was mapped restores every translation |
| `PageTableTeardown.TablesListed` | src/mm/pagetable.c:47-69 | the recursion visits every table at or below a node exactly once |
| `PageTable.AddressSpace.Destroy` | src/mm/pagetable.c:71-76 | frees every table of the tree exactly once and no other page |
| `BcacheSpec.HitKeeps` | src/mm/bcache.c:84-94 | a second user shares the cached buffer and the invariant holds |
| `BcacheSpec.MissKeeps` | src/mm/bcache.c:96-112 | giving an unused buffer to an uncached block keeps one buffer per block, bucket membership, the LRU permutation and coherence |
| `BcacheSpec.InUseStep` | src/mm/bcache.c:61-150 | no step of any thread changes the block of a buffer in use or takes it out of its bucket |
| `BcacheSpec.InUseData` | src/mm/bcache.c:61-150 | a buffer in use stays valid once filled, only the holder of its lock changes its data, and no other thread ends a hold |
| `BcacheOrder.HitBuffers` | src/mm/bcache.c:84-94 | a request for a cached block changes nothing but one reference count, the LRU list and the threads |
| `BcacheOrder.MissBuffers` | src/mm/bcache.c:96-112 | any other request gives the block an unused buffer, invalid, and leaves the other buffers alone |
| `BcacheOrder.StepBuffers` | src/mm/bcache.c:115-150 | exactly what locking, filling, changing, writing, unlocking and releasing do to buffer and disk |
| `BcacheOrder.StepOrder` | src/mm/bcache.c:84-150 | a request moves its buffer to the front of the LRU list, the last release moves it to the tail, and the others keep their order |
| `BcacheOrder.EvictsTail` | src/mm/bcache.c:61-77 | in every run buffers in use come before the others, so the victim is always the tail |
| `BcacheOrder.ReleasedIsVictim` | src/mm/bcache.c:139-150 | the buffer released last is the next victim |
| `BcacheOrder.OneBlockCached` | src/mm/bcache.c:61-150 | in every run in which nobody asks for a block while somebody has one, at most one block is cached, the one asked for last |
| `BcacheSpec.HashSpread` | src/mm/bcache.c:14-17 | 17 consecutive blocks of a device go to 17 different buckets |
| `BcacheSpec.FillKeeps` | src/mm/bcache.c:115-125 | after filling, the buffer is valid and shows what the disk holds for the requested block |
| `BcacheSpec.WriteKeeps` | src/mm/bcache.c:127-137 | a write keeps buffers and disk in agreement and leaves nothing dirty |
| `BcacheSpec.DropKeeps` | src/mm/bcache.c:139-150 | the released reference existed, and the invariant holds with one user less |
| `BcacheSpec.RunInv` | src/mm/bcache.c:19-150 | in every interleaving of threads: at most one buffer per block, each hashed buffer in exactly its own bucket, the LRU list a permutation of all buffers, every reference count equal to the number of threads between get and release, no dirty buffer, and valid buffers equal to the disk unless their lock holder is changing them |
| `BcacheSpec.SharedBuffer` | src/mm/bcache.c:79-113 | two threads share a buffer if and only if they asked for the same block |
| `BcacheSpec.MutualExclusion` | src/mm/bcache.c:115-150 | at most one thread is inside the lock of a block |
| `BcacheSpec.DiskIsLastWritten` | src/mm/bcache.c:61-137 | in every run the disk holds the bytes of the last `bwrite` to each block, or the initial contents |
| `BcacheSpec.ReadsLastWritten` | src/mm/bcache.c:115-137 | in every run `bread` shows the bytes last written to that block |
| `Bcache.BufferCache.constructor` | src/mm/bcache.c:19-44 | the initial cache satisfies the invariant, with every buffer unused and invalid and buffer 0 at the LRU tail |
| `Bcache.BufferCache.Lookup` | src/mm/bcache.c:46-59 | finds the buffer of the block if there is one, else no hashed buffer holds it |
| `Bcache.BufferCache.Evict` | src/mm/bcache.c:61-77 | unhashes the unused buffer nearest the LRU tail, or changes nothing because every buffer is in use |
| `Bcache.BufferCache.Get` | src/mm/bcache.c:79-113 | shares the cached buffer or replaces the eviction victim, and moves it to the LRU front; fails exactly when the block is not cached and all buffers are in use |
| `Bcache.BufferCache.Fill` | src/mm/bcache.c:115-125 | the returned buffer is valid, is of that block, and equals the disk |
| `Bcache.BufferCache.Write` | src/mm/bcache.c:127-137 | the in-place code performs the write transition |
| `Bcache.BufferCache.Drop` | src/mm/bcache.c:139-150 | the in-place code performs the release transition; the last release moves the buffer to the LRU tail and the others keep their order, any other leaves the list alone |
| `Bitmap.SetBit` | include/misc/bitmap.h:21-28 | setting changes exactly one bit |
| `Bitmap.ClearBit` | include/misc/bitmap.h:31-38 | clearing changes exactly one bit |
| `Bitmap.FindNextClear` | include/misc/bitmap.h:101-143 | for every map and start: the length from a start past the end; else the lowest clear bit from there on in the start's own byte, moved up by the start's bit offset and not checked against the length; else the lowest clear bit behind that byte, or the length |
| `Bitmap.ScanLater` | include/misc/bitmap.h:122-142 | the scan of the later bytes yields the lowest clear bit of the map from there on, or the length, with the tail of the last byte masked |
| `Bitmap.FoundExact` | include/misc/bitmap.h:101-143 | from a start inside the map the result is the lowest clear bit, or the length, if and only if the start's byte is full from there on, or the start is a byte boundary and the byte's first clear bit is not behind the map's end |
| `Bitmap.FoundTwice` | include/misc/bitmap.h:111-120 | from bit 1 of an empty byte the result is 2 |
| `Bitmap.FoundBehind` | include/misc/bitmap.h:111-120 | on a map of 3 set bits the result from bit 0 is 4 instead of the length, because the bit behind the map's end is set too |
| `SlabLayout.AlignUpAligned` | src/mm/slab.c:53-54 | `ALIGN_UP` yields a multiple when the unit is a power of two |
| `SlabLayout.Room` | src/mm/slab.c:34-39 | below 2^29 bytes, header, bitmap and all objects that are counted fit the blob before alignment |
| `SlabLayout.RoomExact` | src/mm/slab.c:34-39 | they fit if and only if the size is below 2^29, for every size of which any object is counted; the product is 32 bits wide |
| `SlabLayout.WideObjects` | src/mm/slab.c:34-39 | of objects of 2^29 bytes 523833 are counted |
| `SlabLayout.StartsInBlob` | src/mm/slab.c:104-118 | for every object size, objects start behind the metadata and inside the blob, aligning down finds the header, and dividing finds the index |
| `SlabLayout.ObjectsDisjoint` | src/mm/slab.c:87-101 | for every object size, objects never overlap, within a slab or across slabs |
| `SlabLayout.AllEndInside` | src/mm/slab.c:34-56 | for every object size, all objects of a slab end inside its blob if and only if the padding of `ALIGN_UP` fits into what `object_num` leaves over |
| `SlabLayout.OnlyLastOverruns` | src/mm/slab.c:34-56 | for every object size, every object but the last ends inside the blob |
| `SlabLayout.ObjectsAligned` | src/mm/slab.c:53-54 | objects are multiples of 8 bytes apart; they start at multiples of 8 if and only if the first one does, which it does for sizes divisible by 8 |
| `SlabLayout.TwelveOff` | src/mm/slab.c:53-54 | objects of 12 bytes start at 564, 4 bytes off a multiple of 8 |
| `SlabLayout.FileSystemCaches` | src/fs/inode.c:21-21 | objects of 176 and 168 bytes overrun their blobs by 32 and 88 bytes, those of 96 and 128 do not |
| `SlabLayout.PowerOfTwoFits` | src/mm/slab.c:51-54 | objects of every power-of-two size up to half a blob end inside the blob |
| `SlabLayout.KmallocFits` | src/mm/kalloc.c:17-19 | of the pool sizes exactly 24 and 48 have a last object that ends past the blob |
| `SlabSpec.RoomInFront` | src/mm/slab.c:207-213 | when the cache counts a free object, the first partial slab has one |
| `SlabSpec.TakeKeeps` | src/mm/slab.c:87-101 | taking an object keeps lists, counters and bitmaps in agreement and adds exactly that object, not in use before, to those in use |
| `SlabSpec.GiveKeeps` | src/mm/slab.c:104-132 | returning an object keeps them in agreement and removes exactly that object |
| `SlabSpec.GrowKeeps` | src/mm/slab.c:44-69 | a new slab keeps them in agreement and brings no object into use |
| `SlabSpec.ReuseKeeps` | src/mm/slab.c:171-178 | so does putting a spare slab back into service, when its objects are not counted already |
| `SlabSpec.ReuseKeepsExcess` | src/mm/slab.c:171-178 | whatever the cache counts beyond its slabs in service stays counted |
| `SlabSpec.DoubleReturn` | src/mm/slab.c:234-247 | raising the counter without freeing an object always breaks the invariant |
| `SlabSpec.DoubleReturnLoses` | src/mm/slab.c:234-247 | so does returning the first object of a fresh slab, which nobody was given |
| `SlabSpec.FlushExact` | src/mm/slab.c:249-262 | flushing keeps the invariant if and only if it is below the high-water mark or finds no empty slab |
| `SlabSpec.FlushMoves` | src/mm/slab.c:249-262 | past the high-water mark exactly the empty partial slabs become spare, and no counter changes |
| `SlabSpec.FlushLoses` | src/mm/slab.c:249-262 | flushing a cache of two fresh slabs of 8-byte objects breaks it |
| `SlabSpec.ObjectCount` | src/mm/slab.c:134-247 | objects in use plus objects free equal the objects of the slabs in service |
| `SlabCaches.SlabCache.constructor` | src/mm/slab.c:134-152 | the empty cache satisfies the invariant |
| `SlabCaches.KmemCacheInit` | src/mm/slab.c:134-163 | a valid cache with no object in use; with an initial slab it holds the objects of one slab, or -ENOMEM exactly when no blob is available |
| `SlabCaches.SlabCache.Refill` | src/mm/slab.c:169-205 | below the low-water mark a spare slab is reused exactly when there is one, else a slab is added exactly when the buddy allocator has a run for it; no object is left exactly when none was free and neither was possible |
| `SlabCaches.SlabCache.Expand` | src/mm/slab.c:181-203 | adds a slab exactly when the buddy allocator has an aligned 16-page run, and that run becomes the slab |
| `SlabCaches.SlabCache.Alloc` | src/mm/slab.c:165-216 | fails exactly when no object is free, no spare slab is left and no blob is available; otherwise one object that was not in use comes into use and at most one blob is taken |
| `SlabCaches.SlabCache.Take` | src/mm/slab.c:87-101 | the lowest free object of the first partial slab, not in use before, comes into use; a slab that becomes full changes lists |
| `SlabCaches.SlabCache.Give` | src/mm/slab.c:234-247 | exactly the object at that address goes out of use, and a full slab goes back to the partial list; the state stays valid if and only if the object was in use |
| `SlabCaches.SlabCache.Flush` | src/mm/slab.c:249-262 | the empty partial slabs move to the head of the spare list one by one and the counters stay; below the high-water mark nothing changes and the lock is not released |
| `SlabCaches.ServedKeeps` | src/mm/slab.c:165-216 | a request served by the low-water test and the lowest free object of the first partial slab keeps the cache in order and backed by live blocks and brings exactly that object, not in use before, into use |
| `SlabCaches.SlabCache.Find` | src/mm/slab.c:104-121 | the address of any object leads to its slab and index, and none of the checks panics |
| `SlabCaches.LiveObjectsApart` | src/mm/slab.c:87-132 | for every object size, objects in use do not overlap each other, of one slab or of different slabs, nor their own slab's metadata; each ends inside its blob if the size fits |
| `Kalloc.Size2Index` | src/mm/kalloc.c:24-32 | the smallest pool whose objects hold the size, for every size that some pool holds |
| `Kalloc.Choose` | src/mm/kalloc.c:48-60 | a request goes to the smallest pool that holds it, else to the buddy allocator with a size that allocator accepts; only 0 and sizes above the largest block are refused |
| `Kalloc.ObjectFlagged` | src/mm/slab.c:46-49 | every object in use, of any cache, starts on a page with the slab flag |
| `Kalloc.BlockNotFlagged` | src/mm/kalloc.c:99-103 | no other live block of the buddy allocator starts on a page with the slab flag |
| `Kalloc.ObjectPlace` | src/mm/slab.c:104-118 | in any of several caches, aligning an object's address down finds its header and dividing its index |
| `Kalloc.FreeRoute` | src/mm/kalloc.c:81-104 | `kfree` of any address that is held returns the object to the cache it came from, or the block to the buddy allocator |
| `Kalloc.FreeSucceeds` | src/mm/kalloc.c:81-104 | and it never fails on such an address: there is a state that it leads to |
| `Kalloc.StepKeeps` | src/mm/kalloc.c:48-104 | every `kmalloc` and `kfree`, served by any cache or by the buddy allocator, keeps all caches in order, backed by live blocks and without a common slab, and every page accounted for |
| `Kalloc.ServeHandles` | src/mm/kalloc.c:53-55 | an object handed out was held by nobody, and nothing else changes hands |
| `Kalloc.BlockHandles` | src/mm/kalloc.c:56-57 | likewise for a block |
| `Kalloc.FreeHandles` | src/mm/kalloc.c:81-104 | a return takes exactly what was at its address from its holder |
| `Kalloc.InsideUnlessLast` | src/mm/slab.c:34-56 | a live object ends inside its blob if and only if it is not the last of its slab or its size fits |
| `Kalloc.HandlesApart` | src/mm/kalloc.c:48-104 | the memory of two callers never overlaps: objects of one cache always, objects and blocks of any origin if each object ends inside its own blob |
| `Kalloc.BehindExact` | src/mm/slab.c:34-56 | an object and the live block right behind its blob are apart if and only if the object ends inside the blob |
| `KallocRuns.RunKeeps` | src/mm/kalloc.c:34-104 | every sequence of requests and returns, and of the slabs that new caches start with, keeps the system invariant, from an empty system |
| `KallocRuns.HeldIsLive` | src/mm/kalloc.c:34-104 | over every run, what is live is exactly what was handed out and not returned |
| `KallocRuns.HandedOut` | src/mm/kalloc.c:48-60 | the object or block that a request gets is as large as the request |
| `KallocRuns.HeldSpans` | src/mm/kalloc.c:34-104 | over every run, what a caller holds spans at least the bytes that the caller asked for |
| `KallocOverlap.ApartExact` | src/mm/kalloc.c:34-104 | no run, on any caches and any number of pages, leads to two callers whose memory overlaps if and only if every object size fits or there is no page besides one slab |
| `KallocOverlap.ReachOverlap` | src/mm/slab.c:87-101 | for every cache there is a run in which the last object of a slab and the page behind it are held by two callers; they overlap if and only if the size does not fit |
| `KallocOverlap.SmallArena` | src/mm/kalloc.c:48-104 | with at most 16 pages the memory of two callers never overlaps, for all object sizes |
| `KallocOverlap.PoolOverlap` | src/mm/kalloc.c:17-19 | on 32 pages with 24-byte objects there is a run in which object 2713 reaches 16 bytes into page 16, which another caller holds |
| `Sha2Spec.FoldConcat` | src/misc/sha2.c:200-229 | folding over whole blocks splits at block boundaries |
| `Sha2Spec.BigEndianAt` | src/misc/sha2.c:252-264 | the shifts of the code extract the big-endian bytes |
| `Sha2Spec.BigEndianConcat` | src/misc/sha2.c:352-362 | two words written one after the other are the double word |
| `Sha2.AbsorbBlock` | src/misc/sha2.c:213-221 | data that completes the buffered block is folded in and nothing stays buffered |
| `Sha2.Absorb` | src/misc/sha2.c:200-229 | after an update, whole blocks of the message so far are folded and the rest is buffered, whatever the chunk |
| `Sha2.Mark` | src/misc/sha2.c:237-249 | both branches of the padding produce the marker and the zeros that the message length calls for |
| `Sha2.Finish` | src/misc/sha2.c:231-258 | the final state is the fold over message, marker, zeros and length |
| `Sha2.CountStep` | src/misc/sha2.c:297-302 | the 64-bit count, its carry test and its block position follow the true message length |
| `Sha2.LengthField` | src/misc/sha2.c:332-362 | the two shifted count words are the bit length modulo 2^128 in big-endian order |
| `Sha2.FinishDigest` | src/misc/sha2.c:231-258 | message, marker, zeros and field are the padded message of FIPS 180-4, sections 5.1.1 and 5.1.2 |
| `Sha2.Sha256Ctx.Update` | src/misc/sha2.c:200-229 | appends the chunk to the message absorbed |
| `Sha2.Sha256Ctx.Final` | src/misc/sha2.c:231-265 | each byte of the digest is cut by shifting, most significant first, from its word of the fold of the padded message, for any way the message was cut into chunks |
| `Sha2.Sha512Ctx.Update` | src/misc/sha2.c:293-325 | appends the chunk to the message absorbed, with the carry between the count words |
| `Sha2.Sha512Ctx.Final` | src/misc/sha2.c:327-374 | the same for 128-byte blocks and the 128-bit length |

## Left out

Assumptions and simplifications, by component:

- Buddy: `alloc_mem_block` succeeds and does not re-enter the allocator (in the code it may call `kmalloc`); a block descriptor is represented by the start page it stores; page numbers count from the aligned arena base.
- Buddy: each operation is atomic. `buddy_free` sets `page->private` before it takes the lock, so concurrent harts are not covered; freeing a block that is not allocated is excluded.
- Virtq: memory allocation succeeds, ring publication is an atomic step, `virtq_kick` and `virtq_destroy` are not modelled; queue sizes divide 2^16 and are at most 32 and a request has at least one buffer (VirtIO 1.1, section 2.6); the device completes only chains it has taken, each once.
- Virtq.VirtQueue.constructor: requires a queue size that divides 2^16, which the code does not check; `Virtq.WrapKeepsApart` shows that it is needed.
- LZ4: read-only input buffers are sequences, hash-table entries are unbounded numbers, `lz4_write_matchlen` is not called by the code. The block format's rule about the end of a block is not claimed, because matches may run to the end of the input (`src/misc/lz4.c:102`).
- Lz4.RoundTrip: inputs longer than `LZ4_MAX_INPUT_SIZE` have no bound to compress within; what compression of them does is stated for every capacity by `Lz4.CompressFast`. Sizes are unbounded numbers where the code has `int`.
- LZ4: the output memory must reach as far as the code writes, which is the capacity and `Lz4Output.Spill` behind it.
- Radix: allocation succeeds; the leaf leaked in the else-branch, the unused `prefix` of inner nodes and `rxtree_free` are not modelled.
- Page table: `kzalloc` succeeds with a fresh zeroed page; the NULL-table argument checks, `satp` and the kernel's own mappings are not modelled.
- Bcache: block I/O succeeds, a holder writes its changes before it releases the buffer, `bwrite` is one step, `bcache_flush` and `bcache_sync` are not modelled.
- Bcache: `t` names one session from `bread` to `brelse`; a kernel thread that holds several buffers is several sessions.
- Bcache.BufferCache.Get: an exhausted cache is a `None` result where the code panics.
- Slab: expansion does not re-enter the cache, and the magic number is not modelled; the other methods are stated for valid caches, so they say nothing after a flush that moved slabs or a double return.
- SlabCaches.SlabCache.constructor: object sizes of which not even one fits a blob are excluded, and with them those whose product with 8 wraps 32 bits.
- SlabCaches.KmemCacheInit: the same.
- SHA-2: the compression function is a parameter, so round constants, message schedule, the truncation of SHA-224 and SHA-384 and the one-shot wrappers are not modelled.
- Kalloc: the per-hart pools and the other caches are one list of cache values on one buddy allocator, so a request goes to some cache of the object size that `kmalloc` chooses; the buddy allocator grants any aligned run of free pages; memory is counted with the rounding of objects to 8 bytes and of blocks to a power of two pages; returns are of addresses that are held, and caches are not flushed; `kfree`'s checks for invalid pointers, `kzalloc`, `kcalloc` and `krealloc` are not modelled.
- The VFS layer, virtual memory areas, scheduler and threads, traps, drivers below the virtqueue, `printf`, strings and the hash table: plumbing, or too easy beside the components above.
