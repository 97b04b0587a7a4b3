# The memory stack of a small x86_64 kernel

These Dafny modules model how the kernel hands out memory, from the frame list at the bottom to `malloc`
at the top, with the smaller parts beside it (spinlock, growable array, byte copies, clock arithmetic).
Machine words are integers below 2^64; an addition, subtraction, mask or cast that can wrap or cut off bits
is written out as such. Memory that the code reaches through pointers is a map from addresses to words, or
an array, that the methods update in place. Ghost fields hold the abstract value of a structure, and each
class has a `Valid` that ties the two together.

| file | models |
|---|---|
| `Machine.dfy` | 64-bit arithmetic, bit masks, alignment |
| `Segments.dfy`, `SegmentLaws.dfy`, `SegmentTheorems.dfy` | lists of page segments as values, and the page bitmap they stand for |
| `NodePool.dfy`, `VAddrAllocator.dfy`, `NodeSupply.dfy` | `vma.hpp`: nodes, pool, linked list; the two calls as functions of list and number of nodes |
| `LockedRanges.dfy`, `AllocatorRuns.dfy` | any number of threads around that allocator, one atomic step at a time; whole runs of the linked list |
| `PhysicalMemory.dfy` | `pma.cpp`: the intrusive free list of frames |
| `PageTables.dfy`, `VirtualMapping.dfy` | the hardware's page walk; `map_virtual` |
| `KernelHeap.dfy` | `heap.cpp`: `mmap` and `sbrk` over the three allocators |
| `HeapSizes.dfy`, `HeapChunks.dfy`, `BinLists.dfy`, `BinContents.dfy`, `BinMap.dfy` | `malloc.c` in parts: sizes and bin numbers, chunks and tags, links, contents of the bins, bin map |
| `ArenaGaps.dfy`, `FreedRuns.dfy` | free memory as the gaps between callers' chunks; what a freed chunk merges with |
| `BoundaryTagHeap.dfy`, `HeapCheckers.dfy` | the heap state and its operations; the debug assertions of `malloc.c` |
| `KernelMalloc.dfy` | `malloc`, `free`, `realloc`, `memalign`, `independent_calloc` on top of the kernel heap |
| `Vector.dfy`, `Bytes.dfy`, `Clock.dfy` | `vector.hpp`, `memory.cpp`, `clocksource.cpp`/`.hpp` |

The heap's ghost map `Owned` holds the chunks in callers' hands with their sizes, and `mapped` the chunks that
were mapped for one request; every entry point says exactly how the two change, and `Valid` says that the
chunks tile the arena, that size words, PREV_INUSE bits and footers are right, that no two consolidated free
chunks (or one and the top) touch, that each free chunk is on exactly one list, that large bins are sorted,
that a clear map bit means an empty bin, and that the tags of mapped chunks tell their regions. The theorem
that goes through all layers is `CallersShareNoMemory`: bytes that two callers hold, in chunks or in mapped
ranges, are never the same byte of physical memory.

Where the code does not do what it is meant to do, the model follows the code, a lemma gives an input, and a
contract or a lemma says exactly when it happens, in terms of the state before the call:

- `sbrk` reports failure as 0 and `malloc` expects -1: a failure is taken for memory at address 0. The model
  stops there with `TopAtNull`. `SystemOutcome` and `MallocOutcome`, which `Grow` and `Malloc` ensure, decide
  every outcome from callers' chunks, the break and its limit, and the free address ranges with two nodes to
  spare; with fewer nodes a request that could be mapped may not be, and whether frames run out is left to the
  state afterwards (`NoHeapServesNull`, `LargeRequestServesNull`). `realloc`, `memalign` and
  `independent_calloc` ensure the same of the memory they ask for (`RequestOutcome`).
- The limit test of `sbrk` adds in 64 bits. A heap top near 2^64 lets a request through that wraps
  (`LimitCheckExactIff`, `WrappedRequestsPass`); the model stops there with `HeapEscaped`, a case of the same
  outcomes.
- A request of 4 GiB or more is binned by its low 32 bits, so a bin can be searched whose chunks are all too
  small (`FourGibTakenForSmall`, `LaterBinsSufficeIff`). The model stops there with `Overrun`: exactly if some
  gap between callers' chunks is binned later than the request (`MallocOutcome`, `HugeRequestOverruns`).
- `free` halts the machine if it then calls `sbrk` with a negative argument: exactly if the chunk is none for a
  fastbin, makes 128 KiB or more of free memory in one piece, and no other chunk in use reaches into the last
  256 KiB of the arena (`FreeTrims`; `FreeTrimsSmallArena`). The same goes for what `realloc` leaves over
  (`RestTrims`, `MoveTrims`; `ShrinkTrimsSmallArena`) and for what `memalign` cuts off (`CutsTrim`;
  `LeaderTrimsSmallArena`). A region mapped for one request always halts it, because `munmap` is not implemented
  (`Free`), and so does a `realloc` that moves one (`Realloc`).
- `memalign` pads the request with an unchecked sum, `independent_calloc` adds sizes unchecked. Exactly if a
  sum wraps, whatever is allocated is too small: `Wrapped` (`MemalignOutcome`, `RequestOutcome`;
  `HalfOfMemoryAligned`). The loop of `memalign` that rounds the alignment up ends exactly if that is at most
  2^63 (`RoundingEndsIff`); else the outcome is `Hangs`.
- `independent_calloc` sets PREV_INUSE in the first piece whatever stands in front of it. The heap stays valid
  exactly if the chunk is not the head of a fastbin behind free memory (`IAlloc`, `ForceBit`;
  `RecycledBehindFree`).
- `map_virtual` takes a large page on its way for a table. It is misled exactly if a large page covers the
  address (`MapVirtual`), and then nothing written outside the tables maps what was asked for
  (`LargePageStays`; `GigabyteMisleads`).
- `FreeListAllocator::free` subtracts the direct-map offset a second time (`FreeFindsBlockIff`,
  `FreeMissesBlock`). `FreeListAllocator.Free` therefore takes the address whose subtraction gives the block.
- `FreeListAllocator::coalesce` leaves neighbours unmerged (`CoalesceLeavesNeighbours`): it merges all exactly
  if touching blocks stand in address order in the list (`CoalesceMergesAllIff`, `FreeMergesAllIff`).
- `FreeListAllocator::alloc` of the largest page multiple "succeeds" without room (`ServedFitsIff`).
- `compute_ms` cuts the multiplier down to 32 bits, so with the default shift it is right only above 1 GHz
  (`DefaultShiftNeedsGigahertz`, `SlowClockCounterexample`, `MultExactIff`).
- An aligned `alloc_pages` that runs out of nodes between its two splits leaves two adjacent free nodes. Unless
  the heap supplies one, that is exactly if one node was left and the first segment that fits needs both splits
  (`Outcome`, which `AllocPages` ensures; `OneNodeIsTooFew`).
- A `free` of `vma.hpp` that is refused may have cut the allocation in two by then, so that it cannot be given
  back at once any more: exactly if the 64-bit sum that ends the range lies inside the allocation and there was
  a node to cut it there (`RefusedFreeCutsIff`; `RefusedFreesCut`).

## Model

| member | source | states |
|---|---|---|
| Machine.PowerOfTwoTest | kernel/mm/vma.hpp:57 | the test `(a & (a - 1)) == 0` with a >= 1 accepts exactly the powers of two |
| Machine.AlignUpIsMask | kernel/kernel/helpers.hpp:26-34 | for powers of two, rounding up by mask is addition that may wrap followed by dropping the remainder |
| Machine.AlignUpIsCeiling | kernel/kernel/helpers.hpp:26-34 | without wrap-around the result is the least multiple of the alignment that is not below the value |
| Machine.PageMask | kernel/kernel/helpers.hpp:11-14 | `addr & (PAGE_SIZE - 1)` is the remainder |
| NodePools.NodePool.constructor | kernel/mm/vma.hpp:31-40 | all nodes of the static pool are on the index stack |
| NodePools.NodePool.Allocate | kernel/mm/vma.hpp:208-234 | a node that was not live, blank; null only with an empty stack; no other live node changes |
| NodePools.NodePool.HeapNode | kernel/mm/vma.hpp:222-233 | the heap fallback: a new node or nothing, the stack unchanged |
| NodePools.NodePool.Release | kernel/mm/vma.hpp:236-251 | exactly this node stops being live; the stack never overflows |
| NodePools.NodePool.PoolPartitioned | kernel/mm/vma.hpp:184-186 | live static nodes and stacked indices partition the pool |
| NodePools.NodePool.StaticCount | kernel/mm/vma.hpp:184-186 | while no heap node is live, the live nodes and the stacked ones are the pool |
| VirtualRanges.VAddrAllocator.Init | kernel/mm/vma.hpp:27-51 | one free node covers all whole pages of the range |
| VirtualRanges.VAddrAllocator.SplitNodeLeft | kernel/mm/vma.hpp:253-280 | the list with segment k cut in two; unchanged if there is nothing to cut or no node, and no other reason |
| VirtualRanges.VAddrAllocator.InsertRight | kernel/mm/vma.hpp:267-279 | the pointer updates insert one node; `prev` and `next` stay inverse |
| VirtualRanges.VAddrAllocator.Coalesce | kernel/mm/vma.hpp:282-304 | the node is fused with a free predecessor, then with a free successor |
| VirtualRanges.VAddrAllocator.FuseInto | kernel/mm/vma.hpp:287-291 | unlinking one node adds its pages to the predecessor; the list stays doubly linked |
| VirtualRanges.VAddrAllocator.Visit | kernel/mm/vma.hpp:60-101 | one node of the search: the run is cut out of it, or the search resumes behind it with no page changed |
| VirtualRanges.VAddrAllocator.AllocPages | kernel/mm/vma.hpp:53-104 | exactly an aligned free run of the bitmap becomes used, or no page changes; if the heap grants no node, list and answer are those of `AllocFrom` for the nodes there are; with two spare nodes first fit, failure only if nothing fits, and no heap fallback; normal form is lost only for want of a node between two cuts, and, without heap nodes, exactly if one node was left and first fit needed two; without alignment the list stays a carve even when nodes run out |
| VirtualRanges.VAddrAllocator.PageOfVAddr | kernel/mm/vma.hpp:110-116 | `free` finds the page that `alloc_pages` returned, also when the address wraps |
| VirtualRanges.VAddrAllocator.Isolate | kernel/mm/vma.hpp:122-150 | splitting leaves one node with exactly the requested pages, so the assertion on the middle piece holds; no page changes |
| VirtualRanges.VAddrAllocator.Free | kernel/mm/vma.hpp:106-160 | list and answer are those of `FreeWith` for the nodes there are and those the heap grants, wrapped ends and refused calls included |
| VirtualRanges.VAddrAllocator.FreePagesTotal | kernel/mm/vma.hpp:162-171 | the number of free pages in the bitmap |
| VirtualRanges.VAddrAllocator.OccursOnce | kernel/mm/vma.hpp:174-188 | no node occurs twice on the list |
| VirtualRanges.VAddrAllocator.LiveNodesAreListed | kernel/mm/vma.hpp:184-188 | no node is lost: the live nodes are those on the list |
| VirtualRanges.VAddrAllocator.StaticPoolSuffices | kernel/mm/vma.hpp:208-234 | with u allocated ranges there are at most 2u + 1 nodes, so a pool of 2u + 3 keeps two spare nodes (over whole runs: `AllocatorRuns.Serve`) |
| NodeSupply.RunsOut | kernel/mm/vma.hpp:66-97 | where the nodes run out, before the first cut or between the two, decides whether two free neighbours stay |
| NodeSupply.FoundNone | kernel/mm/vma.hpp:100-103 | without heap nodes, a search that finds no run leaves normal form exactly unless one node was left and first fit needed two |
| NodeSupply.FoundRun | kernel/mm/vma.hpp:66-97 | the same for a search that carves a run |
| NodeSupply.OneNodeIsTooFew | kernel/mm/vma.hpp:66-97 | a list from which an aligned run needs two cuts, the first of which leaves two free neighbours |
| NodeSupply.AmpleIsFirstFit | kernel/mm/vma.hpp:59-103 | with two spare nodes `alloc_pages` is first fit |
| NodeSupply.NoNodeTakesSnug | kernel/mm/vma.hpp:59-103 | with no spare node the first free node of exactly the requested pages at an aligned page serves, and nothing else does |
| NodeSupply.OneNodeServes | kernel/mm/vma.hpp:59-103 | with one, first fit; if that takes two cuts, the first such node behind it |
| NodeSupply.AllocOutcome | kernel/mm/vma.hpp:59-103 | an allocation costs the list its normal form exactly if one node is left and first fit takes two cuts |
| NodeSupply.AllocKeepsTiles | kernel/mm/vma.hpp:59-103 | with any number of nodes the list stays a tiling, no longer than the nodes allow |
| NodeSupply.AmpleIsFreeList | kernel/mm/vma.hpp:106-160 | with two spare nodes and no wrap-around `free` gives back the range or changes nothing |
| NodeSupply.FreeRefusedIff | kernel/mm/vma.hpp:106-160 | `free` of no pages changes nothing; else it is refused exactly for a range that is not inside one allocation, that wraps, or that takes more splits than there are nodes |
| NodeSupply.RefusedFreeCutsIff | kernel/mm/vma.hpp:122-150 | a refused `free` changes the list exactly if the 64-bit sum that ends the range lies inside the allocation and there is a node to cut it there, and then cuts the allocation in two at that sum |
| NodeSupply.RefusedFreeKeepsPages | kernel/mm/vma.hpp:122-150 | no page changes then, and normal form stays |
| NodeSupply.RefusedFreesCut | kernel/mm/vma.hpp:122-150 | a call that wraps, and one with one node left, after which the allocation cannot be given back at once |
| NodeSupply.FreeUndoesCarve | kernel/mm/vma.hpp:53-160 | giving back what was just allocated restores the list, and takes no node |
| NodeSupply.FreeKeepsList | kernel/mm/vma.hpp:106-160 | refused or not, `free` keeps the list a tiling in normal form |
| Segments.CarveRefinesBitmap | kernel/mm/vma.hpp:64-97 | carving turns exactly the requested pages from free to used |
| Segments.ReleaseRefinesBitmap | kernel/mm/vma.hpp:123-154 | releasing turns exactly the given pages from used to free |
| Segments.CoalesceKeepsPages | kernel/mm/vma.hpp:282-304 | coalescing keeps the tiling and changes no page |
| SegmentLaws.CarveInSteps | kernel/mm/vma.hpp:66-97 | the two splits and the mark together are one carve |
| SegmentLaws.ReleaseInSteps | kernel/mm/vma.hpp:129-151 | the two splits and the mark of `free` isolate exactly the given pages |
| SegmentLaws.FirstFitIsLowestRun | kernel/mm/vma.hpp:59-98 | first fit over a list without adjacent free nodes finds the lowest aligned free run of the bitmap |
| SegmentLaws.NoFitMeansNoRun | kernel/mm/vma.hpp:100-103 | if no node fits, the bitmap has no aligned free run of that length |
| SegmentLaws.VAlignUpIsCeiling | kernel/mm/vma.hpp:195-199 | `align_up` is the ceiling for every power of two |
| SegmentLaws.PowersAreAlignments | kernel/mm/vma.hpp:57 | every 64-bit power of two, which is what the assertion lets through, is at most 2^63, so that rounding up is defined |
| SegmentLaws.OwnersDetermineSegments | kernel/mm/vma.hpp:174-182 | a list in normal form is determined by who owns each page |
| SegmentLaws.CoalesceOwners | kernel/mm/vma.hpp:282-304 | coalescing repairs normal form at both ends of the freed node and changes no owner |
| SegmentLaws.ReleaseOwners | kernel/mm/vma.hpp:123-154 | releasing hands exactly the given pages to nobody, in normal form |
| SegmentTheorems.CarveOwners | kernel/mm/vma.hpp:53-104 | an allocation gives exactly its pages to a new owner and keeps normal form |
| SegmentTheorems.FreeUndoesAllocate | kernel/mm/vma.hpp:53-160 | freeing what was allocated restores the list, segment by segment |
| SegmentTheorems.FreeInPiecesIsFreeAtOnce | kernel/mm/vma.hpp:106-160 | freeing an allocation in pieces, in any order of any partition, ends in the list that freeing it at once gives |
| SegmentTheorems.PiecesUndoAllocate | kernel/mm/vma.hpp:53-160 | allocating and freeing in pieces restores the list |
| SegmentTheorems.FreeListOnBitmap | kernel/mm/vma.hpp:106-160 | a refused `free` returns the same list, an accepted one flips exactly its pages; normal form is kept |
| SegmentTheorems.NodeBound | kernel/mm/vma.hpp:282-304 | in normal form the list has at most 2u + 1 nodes for u allocated ranges |
| LockedRanges.SectionIsApply | kernel/mm/vma.hpp:58-103 | the accesses between `lock` and `unlock`, one after the other, have the effect and the answer of the sequential call, whatever the number of nodes, splits that find none included |
| LockedRanges.EarlyIsApply | kernel/mm/vma.hpp:55-56 | a call that returns before the lock does what the sequential call does |
| LockedRanges.ExecutionKeepsInv | kernel/lib/spinlock.cpp:7-13 | every interleaving of any number of threads keeps the invariant of lock, list and log |
| LockedRanges.MutualExclusion | kernel/lib/spinlock.cpp:7-13 | at most one thread is between `lock` and `unlock`, in every state of every run |
| LockedRanges.HistoriesAreSequential | kernel/mm/vma.hpp:53-160 | with any number of nodes, every run's answers are those of a sequential run that respects each thread's order; with the lock free the list is that run's, in normal form if no call ran short of a node between two cuts, and every `lock` had one `unlock` |
| LockedRanges.ApplyKeepsList | kernel/mm/vma.hpp:53-160 | sequential calls keep tiling, and normal form exactly but for those that run short |
| AllocatorRuns.Perform | kernel/mm/vma.hpp:53-160 | unless the heap grants a node, a call on the linked list has the effect and the answer of the sequential call on list values with the same number of nodes; with two spare nodes the heap is not asked |
| AllocatorRuns.Serve | kernel/mm/vma.hpp:31-251 | over any run in which the heap grants no node, the list is that of the sequential run with the pool's nodes, and the answers are those that threads got in a concurrent run; with at most u live ranges and a pool of 2u + 3 nodes the heap is never asked and normal form stays |
| AllocatorRuns.EndedCallsStayFirst | kernel/mm/vma.hpp:53-160 | the log only grows, so a call that ended before another began stands before it |
| PhysicalMemory.FreeListAllocator.Init | kernel/mm/pma.cpp:15-30 | a byte is in free memory exactly if a usable entry covers it, and the number of free bytes is the sum of the usable lengths; the last usable entry stands first |
| PhysicalMemory.BlocksAreUsable | kernel/mm/pma.cpp:15-30 | the list built entry by entry covers exactly the bytes of usable entries, and its sizes add up to their lengths |
| PhysicalMemory.LaterStandsFirst | kernel/mm/pma.cpp:24-28 | of two usable entries the later one stands first |
| PhysicalMemory.FreeListAllocator.Alloc | kernel/mm/pma.cpp:32-61 | first fit; the block behind its header's page is handed out, the rest stays; 0 exactly if no block holds the request and its header's page |
| PhysicalMemory.FreeListAllocator.AllocPage | kernel/mm/pma.cpp:117-119 | a page-aligned frame that was free memory and is not any more; 0 only if no block holds a page besides its header's |
| PhysicalMemory.FreeListAllocator.Detach | kernel/mm/pma.cpp:43-52 | the header words written describe the list with the front of the block cut off, or without the block |
| PhysicalMemory.FreeListAllocator.Free | kernel/mm/pma.cpp:63-74 | all or part of an outstanding range is pushed and the list coalesced; the rest stays outstanding, the byte count stays balanced, and no two free blocks touch exactly under the condition of `FreeMergesAllIff` |
| PhysicalMemory.FreeListAllocator.SweepFrom | kernel/mm/pma.cpp:78-88 | the inner loop makes the block swallow every later block that starts where it ends |
| PhysicalMemory.FreeListAllocator.Coalesce | kernel/mm/pma.cpp:76-90 | the loops end, and compute the sweep from each block in turn |
| PhysicalMemory.CarveIsExact | kernel/mm/pma.cpp:39-54 | what is handed out is aligned, apart from free and outstanding memory, never 0, and costs exactly one page |
| PhysicalMemory.CoalesceKeepsMemory | kernel/mm/pma.cpp:76-90 | exactly the same free bytes, blocks sound and disjoint, no more blocks than before |
| PhysicalMemory.CoalesceLeavesNeighbours | kernel/mm/pma.cpp:76-90 | a list whose coalescing leaves two touching blocks |
| PhysicalMemory.CoalesceMergesAllIff | kernel/mm/pma.cpp:76-90 | no two blocks touch after coalescing exactly if touching blocks stood in address order in the list |
| PhysicalMemory.FreeMergesAllIff | kernel/mm/pma.cpp:63-90 | after `free` no two blocks touch exactly if touching blocks stood in order and none ended where the returned one begins |
| PhysicalMemory.AddressesDiffer | kernel/mm/pma.cpp:24-28 | block headers never overlap |
| PhysicalMemory.ServedFitsIff | kernel/mm/pma.cpp:39-43 | the chosen block holds the request exactly if header page plus request does not wrap |
| PhysicalMemory.ServedIsFirst | kernel/mm/pma.cpp:36-54 | the block served from is the first that holds its header's page and the request, or the first of all if that sum wraps; none is exactly if there is no such block |
| PhysicalMemory.OutsidersStayApart | kernel/mm/pma.cpp:43-54 | memory apart from the free list stays apart, also from what is handed out |
| PhysicalMemory.FreeFindsBlockIff | kernel/mm/pma.cpp:54-67 | `free` finds the block that `alloc` returned exactly if twice the direct-map offset is 0 modulo 2^64 |
| PhysicalMemory.FreeMissesBlock | kernel/mm/pma.cpp:54-67 | with the usual higher-half offset the header is written elsewhere |
| PageTables.FrameIsMask | kernel/mm/vmm.hpp:33 | masking with `ppn_mask` takes bits 12 to 51 |
| PageTables.IndexFields | kernel/mm/vmm.cpp:58-61 | the four indices are the shifted and masked fields of the address |
| PageTables.IndicesDeterminePage | kernel/mm/vmm.cpp:27-41 | pages with the same four indices are one page |
| PageTables.CanonicalPages | kernel/mm/vmm.cpp:43-45 | canonical page addresses with the same indices are equal |
| PageTables.EntryIsOr | kernel/mm/vmm.cpp:98-101 | frame and flags have no bit in common, so `\|` adds them |
| PageTables.LeafBits | kernel/mm/vmm.cpp:122-137 | the flags of a leaf have bit 0 set, bits 1, 2, 3 and 4 exactly if write, user, write-through and cache-disable are asked for, bit 63 exactly if execute is not, and no other bit |
| PageTables.TableBits | kernel/mm/vmm.cpp:98-104 | the entries for new tables are present, writable and for the user, and do not forbid execution |
| PageTables.OpenWay | kernel/mm/vmm.cpp:91-120 | where all tables are open in this way, every entry on the way to a page grants writing and executing, so the leaf alone decides |
| PageTables.PathsAreUnique | kernel/mm/vmm.cpp:92-107 | in an unshared forest a table is reached from one root over one sequence of indices |
| PageTables.InstallKeepsWalks | kernel/mm/vmm.cpp:81-104 | clearing and linking a new table changes no translation |
| PageTables.SetLeafChangesOnePage | kernel/mm/vmm.cpp:136-137 | writing a leaf entry changes the translation of one page under one root |
| VirtualMapping.CheckAligned | kernel/kernel/helpers.hpp:11-14 | the mask test accepts exactly the multiples of the page size |
| VirtualMapping.LargePageStays | kernel/mm/vmm.cpp:91-120 | whatever is written outside the tables, a large page keeps translating its addresses |
| VirtualMapping.GigabyteMisleads | kernel/mm/vmm.cpp:91-120 | tables in which a large page covers an address |
| VirtualMapping.PageMapper.LinkTable | kernel/mm/vmm.cpp:80-104 | a new empty table below the entry, on a frame that was free memory, linked by an entry that is present, writable and for the user; nothing if there is no frame |
| VirtualMapping.PageMapper.EnsureTable | kernel/mm/vmm.cpp:91-107 | what is present is taken for the table below; otherwise a new empty table is linked by an open entry, or there is no frame; no translation changes |
| VirtualMapping.PageMapper.Descend | kernel/mm/vmm.cpp:109-120 | each step reaches the table of the next level on the way to the page, or a large page |
| VirtualMapping.PageMapper.Finalize | kernel/mm/vmm.cpp:122-143 | the leaf with bits 0, 1, 2, 3, 4 and 63 as the flags ask; the cached translations of the root in use stay right |
| VirtualMapping.PageMapper.MapVirtual | kernel/mm/vmm.cpp:55-144 | on success the hardware walk of the page gives the frame, with bit 1 exactly for write, bit 2 for user, 3 for write-through, 4 for cache-disable and 63 for no execute, and every other walk is unchanged; otherwise no walk changes; tables stay an unshared forest, and open if they were; a well-formed call is misled exactly by a large page, and fails otherwise only for want of frames |
| KernelHeaps.LimitCheckExactIff | kernel/mm/heap.cpp:101-104 | the limit test lets a request leave the heap exactly if its end wraps to or below the limit |
| KernelHeaps.WrappedRequestsPass | kernel/mm/heap.cpp:97-104 | in the upper half every request that wraps passes the test |
| KernelHeaps.SlotsDiffer | kernel/mm/vma.cpp:13-21 | different pages of the managed range have different table indices |
| KernelHeaps.StaysOnFrame | kernel/mm/heap.cpp:48-66 | a live page stays mapped to its frame while tables grow and other frames are handed out |
| KernelHeaps.SbrkRangesAreConsecutive | kernel/mm/heap.cpp:95-125 | successive `sbrk` ranges have no gap and stay between base and break |
| KernelHeaps.ConsecutiveCovers | kernel/mm/heap.cpp:95-125 | what `sbrk` handed out covers everything below the break |
| KernelHeaps.KernelHeap.InitHeap | kernel/mm/heap.cpp:132-145 | 32 MiB of addresses that were free, or a stop |
| KernelHeaps.KernelHeap.BackPage | kernel/mm/heap.cpp:50-66 | one page gets a frame of its own and a mapping for reading and writing by the kernel, or memory is exhausted and nothing becomes live |
| KernelHeaps.KernelHeap.BackPages | kernel/mm/heap.cpp:106-122 | all pages of the range become live, or none does |
| KernelHeaps.KernelHeap.Mmap | kernel/mm/heap.cpp:24-69 | a mapped page-aligned range disjoint from all live ones; each failure has its cause and what it leaves behind |
| KernelHeaps.KernelHeap.Sbrk | kernel/mm/heap.cpp:80-126 | the pages between old and new break, within the heap; when it returns 0, halts or lets a wrapping request through, exactly |
| KernelHeaps.KernelHeap.LiveBytesAreMapped | kernel/mm/heap.cpp:24-126 | every byte of a live page is mapped, bit 1 (write) set, bit 2 (user) clear and bit 63 (no execute) set, to a frame that is neither free memory nor a page table |
| KernelHeaps.KernelHeap.TablesGrantWriting | kernel/mm/vmm.cpp:91-120 | if the tables granted writing when the heap was made, every entry on the way to a live page does |
| KernelHeaps.KernelHeap.DistinctBytesDistinctMemory | kernel/mm/heap.cpp:24-126 | different live bytes are different bytes of physical memory |
| HeapSizes.RequestFits | kernel/lib/dlmalloc/malloc.c:1977-1980 | requests are refused exactly from 2^64 - 64 on; else the least legal chunk size with room for request and tag, less than 32 bytes of slack |
| HeapSizes.RequestIsMask | kernel/lib/dlmalloc/malloc.c:1977-1980 | the mask in the macro is rounding down to 16 |
| HeapSizes.RequestOfSize | kernel/lib/dlmalloc/malloc.c:2900 | `request2size(nb - MALLOC_ALIGN_MASK)` is nb for every legal nb |
| HeapSizes.TopBitIsLog2 | kernel/lib/dlmalloc/malloc.c:2162-2202 | the branch-free shifts find the highest set bit |
| HeapSizes.LargeBinIndexIs | kernel/lib/dlmalloc/malloc.c:2162-2202 | 32 + 4 floor(log2(sz/256)) plus the next two bits, capped at 95, for all 32-bit sizes from 256 |
| HeapSizes.BinIndexMonotone | kernel/lib/dlmalloc/malloc.c:2159-2205 | bin numbers grow with sizes, small and large bins together |
| HeapSizes.BinIndexInRange | kernel/lib/dlmalloc/malloc.c:2204-2205 | legal sizes have bins 4 to 95, the large ones from 32 on |
| HeapSizes.LaterBinsSuffice | kernel/lib/dlmalloc/malloc.c:3635-3636 | every chunk of a later bin is large enough |
| HeapSizes.LaterBinsSufficeIff | kernel/lib/dlmalloc/malloc.c:3452-3453 | that claim holds exactly for requests below 4 GiB or in the last bin |
| HeapSizes.FourGibTakenForSmall | kernel/lib/dlmalloc/malloc.c:3452-3453 | a request of 4 GiB and 256 bytes is binned as one of 256 bytes |
| HeapSizes.AnyBinIndexInRange | kernel/lib/dlmalloc/malloc.c:3452-3453 | whatever the request, the bin number is within the array |
| HeapChunks.ChunkOfByte | kernel/lib/dlmalloc/malloc.c:2548-2592 | every byte of the arena lies in exactly one chunk |
| HeapChunks.FuseTagged | kernel/lib/dlmalloc/malloc.c:3765-3815 | fusing neighbours with these words written keeps every size word, bit and footer right |
| HeapChunks.CutTagged | kernel/lib/dlmalloc/malloc.c:3662-3664 | so does splitting a chunk |
| HeapChunks.MoveTopTagged | kernel/lib/dlmalloc/malloc.c:4042-4044 | so does growing a chunk over the top |
| ArenaGaps.FreeIsGap | kernel/lib/dlmalloc/malloc.c:2598-2632 | with empty fastbins a free chunk is a gap between callers' chunks |
| ArenaGaps.GapIsFree | kernel/lib/dlmalloc/malloc.c:2598-2632 | and a gap is one free chunk |
| ArenaGaps.TailIsOne | kernel/lib/dlmalloc/malloc.c:2246-2264 | there is one tail behind the last chunk in a caller's hands |
| ArenaGaps.NothingFitsNoRoom | kernel/lib/dlmalloc/malloc.c:3596-3699 | if neither a free chunk nor the top chunk serves, callers' chunks leave no room |
| ArenaGaps.BestFitIsBestGap | kernel/lib/dlmalloc/malloc.c:3556-3585 | the smallest free chunk that fits is the smallest gap that fits |
| ArenaGaps.LaterChunkIsLaterGap | kernel/lib/dlmalloc/malloc.c:3596-3636 | a chunk in a later bin is a gap whose size is binned later |
| FreedRuns.MergedIsFreedRun | kernel/lib/dlmalloc/malloc.c:3765-3815 | what consolidation builds is the freed chunk with its free neighbours in the old arena |
| FreedRuns.TopFollowsUse | kernel/lib/dlmalloc/malloc.c:3834-3842 | with empty fastbins the top chunk has n bytes exactly if no chunk in use reaches into the last n bytes |
| FreedRuns.FreeTrimsSmallArena | kernel/lib/dlmalloc/malloc.c:3834-3842 | an arena with one 64 KiB allocation whose `free` asks for less memory |
| FreedRuns.FreeTrimsIff | kernel/lib/dlmalloc/malloc.c:3741-3842 | of n bytes in front of a top chunk of t: exactly if n is above 80 and both together reach 256 KiB |
| FreedRuns.FreeBehindFastTrimsIff | kernel/lib/dlmalloc/malloc.c:3741-3842 | with a fastbin chunk between them: exactly if n reaches 128 KiB and all three 256 KiB |
| FreedRuns.RestIsFreed | kernel/lib/dlmalloc/malloc.c:4118-4134 | freeing what was cut off the end of a run asks for less memory exactly if `RestTrims` holds of the arena before the cut |
| FreedRuns.FrontIsFreed | kernel/lib/dlmalloc/malloc.c:4278-4284 | freeing what was cut off the front of a chunk, exactly if `FrontTrims` holds of the arena before the cut |
| FreedRuns.ShrinkTrimsSmallArena | kernel/lib/dlmalloc/malloc.c:4118-4134 | an arena whose only allocation must not be shrunk by more than what goes to a fastbin |
| FreedRuns.LeaderTrimsSmallArena | kernel/lib/dlmalloc/malloc.c:4278-4284 | an arena in which the leader of an aligned chunk must not be given back |
| BinLists.UnlinkKeeps | kernel/lib/dlmalloc/malloc.c:2129-2134 | `unlink` takes one chunk off its ring and leaves all other lists alone |
| BinLists.InsertKeeps | kernel/lib/dlmalloc/malloc.c:3540-3544 | linking between two neighbours enters one chunk and leaves all other lists alone |
| BinLists.PushKeeps | kernel/lib/dlmalloc/malloc.c:3752-3755 | pushing onto a fastbin keeps all lists threaded and every chunk on one list |
| BinContents.SmallBinSize | kernel/lib/dlmalloc/malloc.c:3418-3424 | chunks of one small bin have one size, so fits there are exact |
| BinContents.DescendsWith | kernel/lib/dlmalloc/malloc.c:3522-3537 | a chunk entered where it fits keeps the bin sorted |
| BinMaps.MarkBinMarks | kernel/lib/dlmalloc/malloc.c:2280-2285 | `mark_bin` sets the bit of one bin and no other |
| BinMaps.UnmarkBinUnmarks | kernel/lib/dlmalloc/malloc.c:3625-3627 | clearing through the cached word clears the bit of one bin and no other |
| BinMaps.RestOfBlock | kernel/lib/dlmalloc/malloc.c:3604-3605 | `bit > map` or a shifted-out bit means that no bin of the rest of the block is marked |
| BinMaps.SomeBitAbove | kernel/lib/dlmalloc/malloc.c:3615-3620 | otherwise there is a set bit, so the search for it ends before the bit is shifted out |
| BoundaryTagHeap.MallocState.constructor | kernel/lib/dlmalloc/malloc.c:2458-2495 | empty circular bins and no top chunk |
| BoundaryTagHeap.MallocState.Unlink | kernel/lib/dlmalloc/malloc.c:2129-2134 | exactly this chunk leaves its list |
| BoundaryTagHeap.MallocState.PopFast | kernel/lib/dlmalloc/malloc.c:3409-3415 | the first chunk leaves its fastbin |
| BoundaryTagHeap.MallocState.ReadTags | kernel/lib/dlmalloc/malloc.c:1997-2062 | what the macros read is the chunk's size, its neighbour and whether that is in use |
| BoundaryTagHeap.MallocState.FreeBefore | kernel/lib/dlmalloc/malloc.c:2026-2027 | a clear PREV_INUSE bit means a free chunk in front whose size is in the footer |
| BoundaryTagHeap.MallocState.TakeWhole | kernel/lib/dlmalloc/malloc.c:3566-3571 | a chunk handed out whole leaves a valid heap |
| BoundaryTagHeap.MallocState.SplitOff | kernel/lib/dlmalloc/malloc.c:3572-3582 | the front is handed out, the rest is the one unsorted chunk |
| BoundaryTagHeap.MallocState.SplitLast | kernel/lib/dlmalloc/malloc.c:3478-3496 | the last remainder is split for a small request |
| BoundaryTagHeap.MallocState.SplitTop | kernel/lib/dlmalloc/malloc.c:3690-3699 | the front of the top chunk is handed out, the rest is the top chunk |
| BoundaryTagHeap.MallocState.JoinPrev | kernel/lib/dlmalloc/malloc.c:3768-3774 | a free chunk in front leaves its list and joins the run; without one nothing changes |
| BoundaryTagHeap.MallocState.JoinNext | kernel/lib/dlmalloc/malloc.c:3776-3785 | a free chunk behind leaves its list and joins the run; the bit behind is cleared |
| BoundaryTagHeap.MallocState.Coalesce | kernel/lib/dlmalloc/malloc.c:3762-3816 | the chunk and the free memory around it become one unsorted chunk, or the top chunk, and nothing else changes |
| BoundaryTagHeap.MallocState.FreeFast | kernel/lib/dlmalloc/malloc.c:3741-3756 | a small chunk goes to its fastbin and keeps counting as in use for the tags |
| BoundaryTagHeap.MallocState.Consolidate | kernel/lib/dlmalloc/malloc.c:3877-3972 | no fastbin chunk is left, the heap is valid, and callers' chunks are untouched |
| BoundaryTagHeap.MallocState.FindSpot | kernel/lib/dlmalloc/malloc.c:3512-3538 | the insertion loop stops before the bin header, at the front of a small bin, else behind all chunks if none is smaller, else before the first that is not larger; the bin stays sorted |
| BoundaryTagHeap.MallocState.BinChunk | kernel/lib/dlmalloc/malloc.c:3510-3545 | the unsorted chunk is in the bin of its size at that place; no other list changes |
| BoundaryTagHeap.MallocState.ProcessUnsorted | kernel/lib/dlmalloc/malloc.c:3466-3545 | the last remainder is split if it is the only unsorted chunk and large enough for a small request; else an unsorted chunk of exactly the size is used, or all of them are in their bins |
| BoundaryTagHeap.MallocState.TakeFast | kernel/lib/dlmalloc/malloc.c:3405-3416 | a fastbin chunk of exactly the requested size is handed out, or nothing changes |
| BoundaryTagHeap.MallocState.TakeSmall | kernel/lib/dlmalloc/malloc.c:3426-3439 | the chunk that has been longest in the small bin of exactly the requested size is handed out, or the bin is empty |
| BoundaryTagHeap.MallocState.ScanBin | kernel/lib/dlmalloc/malloc.c:3556-3585 | the smallest free chunk that fits, and of several the last in the bin, is handed out, or the whole bin is too small |
| BoundaryTagHeap.MallocState.NextBin | kernel/lib/dlmalloc/malloc.c:3596-3630 | the first non-empty bin behind the given one; bits are cleared only for empty bins |
| BoundaryTagHeap.MallocState.LaterFits | kernel/lib/dlmalloc/malloc.c:3635-3636 | the assertion on the found chunk fails exactly for requests of 4 GiB or more |
| BoundaryTagHeap.MallocState.TakeBest | kernel/lib/dlmalloc/malloc.c:3556-3669 | best fit: the chunk served is the smallest free one that holds the request, nothing is served only if none does, and `TooSmall` exactly for huge requests with a later bin in use |
| BoundaryTagHeap.MallocState.SortLarge | kernel/lib/dlmalloc/malloc.c:3466-3669 | for large requests the chunk served is the smallest gap that fits, none is served only if no gap fits, and `TooSmall` exactly for huge requests with a gap binned later |
| BoundaryTagHeap.MallocState.FromBins | kernel/lib/dlmalloc/malloc.c:3405-3669 | a chunk of nb to nb + 31 bytes is new in callers' hands and nothing else changed there; a large request takes the smallest gap between callers' chunks that fits, a small one the head of its fastbin if there is one, else the last remainder exactly if `Remaindered` holds, else the smallest free chunk that fits; the top chunk is looked at only if no free chunk is large enough; `TooSmall` exactly as in `SortLarge` |
| BoundaryTagHeap.MallocState.SettleSplit | kernel/lib/dlmalloc/malloc.c:4124-4129 | the held run becomes two chunks in use |
| BoundaryTagHeap.MallocState.GrowOverTop | kernel/lib/dlmalloc/malloc.c:4038-4046 | the chunk grows over the front of the top chunk |
| BoundaryTagHeap.MallocState.CutInUse | kernel/lib/dlmalloc/malloc.c:4290-4297 | a chunk in use becomes two, with all bits in front unchanged |
| BoundaryTagHeap.RecycledBehindFree | kernel/lib/dlmalloc/malloc.c:3405-3416 | a heap whose next fastbin chunk of 32 bytes stands behind free memory |
| HeapCheckers.FreeChunkPasses | kernel/lib/dlmalloc/malloc.c:2598-2632 | `do_check_free_chunk` passes on every free chunk |
| HeapCheckers.ChunkInUsePasses | kernel/lib/dlmalloc/malloc.c:2638-2672 | `do_check_inuse_chunk` passes on every chunk in use or in a fastbin |
| HeapCheckers.NewChunkPasses | kernel/lib/dlmalloc/malloc.c:2679-2728 | the assertions on a chunk about to be returned pass; the last one for chunks that follow memory in use |
| HeapCheckers.ValidStatePasses | kernel/lib/dlmalloc/malloc.c:2736-2833 | in every valid state `do_check_malloc_state` passes |
| KernelMallocs.NoHeapServesNull | kernel/mm/heap.cpp:80-82 | before the heap is initialised a request for 64 bytes ends in `TopAtNull` |
| KernelMallocs.TailCounts | kernel/lib/dlmalloc/malloc.c:2999-3018 | with 4000 bytes left in the top chunk, one page below the limit is enough for a request of 4072; at the limit it ends in `TopAtNull` |
| KernelMallocs.LargeRequestServesNull | kernel/mm/heap.cpp:101-104 | so does one for 64 MiB of the 32 MiB heap, if there are no addresses to map it at; with the break near 2^64 it ends in `HeapEscaped`; with addresses, nodes and frames it is mapped |
| KernelMallocs.MappedFrom | kernel/lib/dlmalloc/malloc.c:2913-2914 | with addresses, nodes and frames, what finds no room in the arena is mapped exactly from 256 KiB on |
| KernelMallocs.HugeRequestOverruns | kernel/lib/dlmalloc/malloc.c:3452-3453 | a request for 4 GiB and 248 bytes is misled by a gap of 1 KiB |
| KernelMallocs.TagAdded | kernel/lib/dlmalloc/malloc.c:2931-2951 | a chunk at any place of a newly mapped region is new, and its tag tells the region |
| KernelMallocs.StaysIff | kernel/lib/dlmalloc/malloc.c:4028-4055 | `realloc` finds room in place exactly if the new size is no larger, or ends, with a minimal chunk behind it, within the arena and ends before the next chunk that is in use or on a fastbin |
| KernelMallocs.ExactFitStays | kernel/lib/dlmalloc/malloc.c:4048-4054 | a chunk of 32 bytes grows to 128 into a free chunk of 96, and to no more |
| KernelMallocs.KernelMalloc.UseTop | kernel/lib/dlmalloc/malloc.c:3687-3699 | the top chunk serves exactly if the request and a minimal chunk fit |
| KernelMallocs.KernelMalloc.Morecore | kernel/lib/dlmalloc/malloc.c:3026-3027 | `sbrk` moves the break by the whole pages asked for; from the state before it is decided whether it does, fails or wraps, up to the supply of frames |
| KernelMallocs.KernelMalloc.MoreSizeIs | kernel/lib/dlmalloc/malloc.c:2999-3018 | whole pages, and no more of them than the request and a minimal chunk need beyond the old top; `sbrk` is asked exactly if less than 2^63 bytes are missing |
| KernelMallocs.KernelMalloc.Grow | kernel/lib/dlmalloc/malloc.c:2973-3250 | on success the top chunk holds the request and a minimal chunk with less than a page to spare, whatever it held before; otherwise nothing changes for callers, and which of the two failures it is, or none, is decided from the break, its limit and the old top |
| KernelMallocs.KernelMalloc.RegionIsLeast | kernel/lib/dlmalloc/malloc.c:2924 | the fewest pages that hold the chunk, a second size word and 15 bytes for aligning |
| KernelMallocs.KernelMalloc.MapDirect | kernel/lib/dlmalloc/malloc.c:2913-2969 | a region of the fewest pages that do, mapped for the request alone and aligned to 16, or nothing; it is mapped only if there are addresses, and with two spare nodes and frames left it is; the tag tells the region |
| KernelMallocs.KernelMalloc.MapBackup | kernel/lib/dlmalloc/malloc.c:3038-3069 | in this kernel the `mmap` backup never succeeds |
| KernelMallocs.KernelMalloc.FromSystem | kernel/lib/dlmalloc/malloc.c:2903-3281 | with empty fastbins: what the system gives, mapped or from the break, and exactly when it does not |
| KernelMallocs.KernelMalloc.SysMalloc | kernel/lib/dlmalloc/malloc.c:2862-3281 | exactly one chunk of nb to nb + 31 bytes, or a region, is handed out, or nothing changes for callers; the outcome is that of `MallocOutcome` for the state before |
| KernelMallocs.KernelMalloc.Malloc | kernel/lib/dlmalloc/malloc.c:3359-3705 | one new aligned chunk of the normalised size up to 31 bytes more, or a region, and no other allocation changes; the outcome is decided from callers' chunks, the break, the free address ranges and the frames; a large request takes the smallest gap that fits; a small one the head of its fastbin if there is one, else the last remainder if that is the only unsorted chunk, large enough to split, and no binned chunk has the exact size, else the smallest free chunk that fits, and other memory only if none does |
| KernelMallocs.KernelMalloc.TheTail | kernel/lib/dlmalloc/malloc.c:3687-3699 | every arena has exactly one tail, so the outcome asked for there is one |
| KernelMallocs.KernelMalloc.Release | kernel/lib/dlmalloc/malloc.c:3741-3816 | exactly this chunk leaves callers' hands; a small one is then the head of its fastbin |
| KernelMallocs.KernelMalloc.FreeChunk | kernel/lib/dlmalloc/malloc.c:3712-3842 | exactly the given chunk of the arena leaves callers' hands; it halts exactly if `FreeTrims` holds of the arena before |
| KernelMallocs.KernelMalloc.Trim | kernel/lib/dlmalloc/malloc.c:3295-3351 | memory does end at the top chunk, so the negative `sbrk` is reached and the machine halts |
| KernelMallocs.KernelMalloc.Free | kernel/lib/dlmalloc/malloc.c:3712-3860 | exactly the given chunk leaves callers' hands, and a small one is what the next request of its size gets; `free(0)` does nothing; it halts exactly for a mapped chunk, or if `FreeTrims` holds of the arena before |
| KernelMallocs.KernelMalloc.MappedNotOwned | kernel/lib/dlmalloc/malloc.c:3741-3850 | a mapped chunk is none of the arena's, and too large for a fastbin |
| KernelMallocs.KernelMalloc.CopyWords | kernel/lib/dlmalloc/malloc.c:4080-4105 | the unrolled copy and the block copy move all words and write nowhere else |
| KernelMallocs.KernelMalloc.Settle | kernel/lib/dlmalloc/malloc.c:4114-4134 | the held run becomes one chunk within 31 bytes of the request; the rest is freed; it halts exactly if `RestTrims` holds of the arena before |
| KernelMallocs.KernelMalloc.ReallocInPlace | kernel/lib/dlmalloc/malloc.c:4028-4055 | the chunk stays exactly if it need not grow, or if what it grows by lies, with a minimal chunk behind, within the arena and, alone, before the next chunk in use or on a fastbin; then it shrinks or grows where it is, else nothing changes; whether what is left over halts the machine is told from the arena before |
| KernelMallocs.KernelMalloc.ReallocMove | kernel/lib/dlmalloc/malloc.c:4057-4111 | the chunk is exchanged for a larger one that has its contents, also when the new one lies right behind it; the outcome is that of asking for the memory, and it halts exactly if `MoveTrims` holds of the arena in between |
| KernelMallocs.KernelMalloc.ChunksApart | kernel/lib/dlmalloc/malloc.c:4086-4087 | source and target of the copy do not overlap |
| KernelMallocs.KernelMalloc.RegionApart | kernel/lib/dlmalloc/malloc.c:4086-4087 | nor do the chunk and a mapped region |
| KernelMallocs.KernelMalloc.Realloc | kernel/lib/dlmalloc/malloc.c:3980-4199 | a chunk of the arena stays in place exactly if its new size fits before the next chunk in use or on a fastbin and, with a minimal chunk behind, within the arena (`FitsInPlace`), else it is exchanged with the outcome of asking for new memory; its contents come along, no other allocation changes, and failure changes nothing; a mapped chunk stays exactly if it holds the request and one size word more, else it is copied and halts the machine if memory is served; when what goes back halts the machine |
| KernelMallocs.KernelMalloc.ReallocMapped | kernel/lib/dlmalloc/malloc.c:4141-4191 | the chunk stays where it is exactly if it holds the request and one size word more; else the outcome is that of asking for new memory, and if any is served it is copied and `free` halts the machine |
| KernelMallocs.KernelMalloc.TargetApart | kernel/lib/dlmalloc/malloc.c:4183-4187 | what was just handed out lies beside the old mapped chunk |
| KernelMallocs.KernelMalloc.RoundAlignment | kernel/lib/dlmalloc/malloc.c:4226-4235 | the least power of two from 32 up that is not below the alignment asked for; it ends exactly if there is one |
| KernelMallocs.KernelMalloc.RoundingEndsIff | kernel/lib/dlmalloc/malloc.c:4226-4235 | the rounding loop ends exactly for alignments up to 2^63 |
| KernelMallocs.KernelMalloc.PaddedRequest | kernel/lib/dlmalloc/malloc.c:4245-4247 | the padded request leaves room for the alignment and a leader |
| KernelMallocs.KernelMalloc.AlignedSpotFits | kernel/lib/dlmalloc/malloc.c:4255-4270 | the first aligned spot that is the chunk itself or leaves a leader of at least MINSIZE; at least nb bytes remain behind it |
| KernelMallocs.KernelMalloc.CutLeader | kernel/lib/dlmalloc/malloc.c:4253-4284 | the leader in front of the first such spot goes back; the chunk kept is aligned and large enough; it halts exactly if `FrontTrims` holds of the arena before |
| KernelMallocs.KernelMalloc.CutTail | kernel/lib/dlmalloc/malloc.c:4290-4300 | the spare end goes back exactly if it is more than a minimal chunk; it halts exactly if `RestTrims` holds of the arena before |
| KernelMallocs.KernelMalloc.Memalign | kernel/lib/dlmalloc/malloc.c:4206-4304 | one new chunk at the first multiple of the alignment (the least power of two from 32 up that is large enough) that is the padded chunk itself or leaves a leader, cut to the normalised size exactly if more than a minimal chunk is spare, or an aligned chunk in a region; no other allocation changes; the outcome is that of `malloc` for the padded size, `Wrapped` exactly if the sum wrapped and memory came of it, `Hangs` exactly for alignments above 2^63; it halts exactly if `CutsTrim` holds of the arenas in which leader and spare end go back |
| KernelMallocs.KernelMalloc.AlignMapped | kernel/lib/dlmalloc/malloc.c:4260-4277 | in a mapped region the chunk gives up what lies in front of the first aligned spot, and stays none for a fastbin |
| KernelMallocs.KernelMalloc.HalfOfMemoryAligned | kernel/lib/dlmalloc/malloc.c:4245-4249 | 2^63 bytes at a multiple of 2^63 are padded to 48 bytes: `Wrapped` in any arena with room for those |
| KernelMallocs.KernelMalloc.ContentsSize | kernel/lib/dlmalloc/malloc.c:4468-4478 | the sum of the element sizes when that fits 64 bits |
| KernelMallocs.KernelMalloc.RawSizeHoldsIff | kernel/lib/dlmalloc/malloc.c:4468-4489 | the size computed for an element holds it and its tag exactly if rounding up does not wrap |
| KernelMallocs.KernelMalloc.SplitOut | kernel/lib/dlmalloc/malloc.c:4512-4528 | adjacent chunks of the element sizes; the last takes the slop |
| KernelMallocs.KernelMalloc.ForceBit | kernel/lib/dlmalloc/malloc.c:4521-4525 | setting PREV_INUSE unconditionally keeps the heap valid exactly if the bit was set |
| KernelMallocs.KernelMalloc.Fill | kernel/lib/dlmalloc/malloc.c:4500-4532 | the words cleared are 0, the words stored are the values, and no other word changes |
| KernelMallocs.KernelMalloc.ShownIsClear | kernel/lib/dlmalloc/malloc.c:4500-4502 | what is cleared covers every word of every element, its slop included, but for size words |
| KernelMallocs.KernelMalloc.IAlloc | kernel/lib/dlmalloc/malloc.c:4429-4545 | one chunk is cut into adjacent chunks for the elements and the array, each of its own size, whose sizes sum to the whole; the array holds the element addresses; with clearing every word of every element is 0 except its size words, without it no word but the array changes; the heap stays valid exactly if the chunk was not a fastbin chunk behind free memory; the outcome is that of `malloc` for the 64-bit sum, and `Wrapped` exactly if that is not the sum |
| KernelMallocs.KernelMalloc.PayloadApart | kernel/lib/dlmalloc/malloc.c:1949-1950 | a caller's bytes meet no size word, and no payload, links or footer of another chunk |
| KernelMallocs.KernelMalloc.ArenaIsBacked | kernel/mm/heap.cpp:95-125 | every byte of the arena lies on a live page below the break |
| KernelMallocs.KernelMalloc.HeldBytesAreLive | kernel/mm/heap.cpp:24-126 | bytes that callers hold, in chunks or mapped ranges, are on live pages |
| KernelMallocs.KernelMalloc.CallersShareNoMemory | kernel/mm/heap.cpp:147-166 | bytes that two callers hold, in chunks or in mapped ranges, are different bytes of physical memory |
| Vectors.Vector.Copy | kernel/lib/vector.hpp:32-36 | equal contents in fresh storage of the same size, without moving an element |
| Vectors.Vector.Reserve | kernel/lib/vector.hpp:88-100 | same contents; each element is constructed once in the new storage and destroyed once in the old, which is raw when given back |
| Vectors.Vector.PushBack | kernel/lib/vector.hpp:103-110 | one element more at the end; the capacity doubles from 4 when full, and elements move only then |
| Vectors.Vector.PopBack | kernel/lib/vector.hpp:112-115 | one element fewer, destroyed once; nothing on an empty vector |
| Vectors.Vector.Clear | kernel/lib/vector.hpp:49-52 | every object ever constructed has been destroyed |
| Vectors.Vector.Insert | kernel/lib/vector.hpp:122-129 | insertion by adjacent swaps is a splice |
| Vectors.Vector.Erase | kernel/lib/vector.hpp:131-138 | erasure by shifting deletes one element; at the end position it drops the last one |
| Vectors.Vector.FewerThanTwoMovesEach | kernel/lib/vector.hpp:105-110 | reallocation moves fewer than two elements per `push_back`, over any run without explicit `reserve` |
| Bytes.Memcpy | kernel/lib/memory.cpp:18-24 | the target gets the forward copy, byte for byte also when it starts inside the source, and nothing else changes |
| Bytes.ForwardCopyExactIff | kernel/lib/memory.cpp:18-24 | a forward copy gives the original bytes exactly if the target starts outside the source or the overlap repeats it |
| Bytes.Memmove | kernel/lib/memory.cpp:35-46 | the target gets the original source bytes for every overlap; nothing else changes |
| Bytes.TextIs | kernel/lib/memory.cpp:48-53 | a string is what lies before the first nul byte |
| Bytes.MatchesHere | kernel/lib/memory.cpp:69-77 | the inner loop decides whether the needle is a prefix |
| Bytes.Strstr | kernel/lib/memory.cpp:63-83 | the first occurrence, exactly when there is one |
| Bytes.Strcmp | kernel/lib/memory.cpp:55-61 | the sign is the dictionary order of unsigned bytes, zero exactly for equal strings |
| Bytes.PrecedesIff | kernel/lib/memory.cpp:55-61 | a string precedes another exactly if at the first place where they differ its byte is smaller, or missing |
| Clock.MultExactIff | kernel/drivers/clocksource.cpp:18-25 | the multiplier is exact exactly if 10^9 * 2^shift < f * 2^32 |
| Clock.GivenShiftExactIff | kernel/drivers/clocksource.cpp:18-25 | a shift that is given is used as it is |
| Clock.MultKeepsLowBits | kernel/drivers/clocksource.cpp:18-25 | for every clock: the product is cut to 64 bits, the quotient to 32 |
| Clock.DefaultShiftNeedsGigahertz | kernel/drivers/clocksource.cpp:16-25 | with the default shift that means more than 10^9 Hz |
| Clock.SlowClockCounterexample | kernel/drivers/clocksource.cpp:16-25 | the 3.58 MHz timer gets a wrong multiplier |
| Clock.ConversionExactIff | kernel/drivers/clocksource.cpp:11-14 | only the fraction is dropped exactly if the product fits 64 bits |
| Clock.ConversionKeepsLowBits | kernel/drivers/clocksource.cpp:11-14 | for every product: what 64 bits keep of it, shifted |
| Clock.ConversionMonotone | kernel/drivers/clocksource.cpp:11-14 | more cycles are never less time |
| Clock.ConversionError | kernel/drivers/clocksource.cpp:11-25 | never above the true time, and behind it by less than cycles / 2^shift + 1 ns |
| Clock.DeltaIsGap | kernel/drivers/clocksource.hpp:63-67 | the masked difference is the number of cycles between two readings exactly if that is at most the mask |
| Clock.Clocksource.Accumulate | kernel/drivers/clocksource.hpp:61-67 | the deltas of a run whose gaps stay within the mask add up to the cycles that went by |

## Left out

- Weak memory ordering: `test_and_set` and `clear` are sequentially consistent steps.
- The heap fallback of `vma.hpp` re-entering `mmap` under the lock: it is an allocator that may fail.
- LockedRanges.HistoriesAreSequential: one access of a list value per step, and a heap that grants no node; `AllocatorRuns.Serve` carries its runs over to the linked list.
- VirtualRanges.VAddrAllocator.Free: the branch for an exact match is merged with the branch for a part, which does the same without splits.
- PhysicalMemory.FreeListAllocator.Free: a range that the second subtraction takes elsewhere (`FreeFindsBlockIff`) and an empty one, whose headers would be written into memory that is not free.
- VirtualMapping.PageMapper.MapVirtual: what is written into a large page that was taken for a table (`Misled`).
- KernelHeaps.KernelHeap.Sbrk: for a request that wraps past the limit test the mapping loop is not modelled; the result `Escaped` marks it. The pages mapped before a failure stay mapped and their frames are lost, as in the code.
- KernelHeaps.KernelHeap.constructor: requires that no large page covers the managed range. Whether the tables made before it grant writing is not known (`TablesGrantWriting` assumes it of them).
- KernelHeaps.KernelHeap.Mmap: `addr`, `prot`, `fd` and `offset` are ignored by the code and left out.
- KernelMallocs.KernelMalloc.SysMalloc: what happens after a failure is taken for memory at address 0 (`TopAtNull`), after an oversized request is served from a too small chunk (`Overrun`) or after a wrapping `sbrk` (`HeapEscaped`) is not modelled.
- KernelMallocs.KernelMalloc.Free: the shrinking itself, and the bookkeeping of mapped regions just before `munmap` halts the machine.
- KernelMallocs.KernelMalloc.Realloc: whether a chunk that is moved halts the machine is told from the arena between getting the new memory and giving back the old, of which callers' chunks are known; `Memalign` likewise for its two cuts.
- KernelMallocs.KernelMalloc.Malloc: with fewer than two nodes for address ranges, a request that could be mapped may be refused by the mapping; then the outcome is that of the break.
- KernelMallocs.KernelMalloc.Memalign: the use of memory that is too small (`Wrapped`).
- KernelMallocs.KernelMalloc.IAlloc: a caller's own array is the list of addresses returned; the use of memory that is too small (`Wrapped`).
- BoundaryTagHeap.MallocState.Consolidate: each fastbin is emptied chunk by chunk and the flag cleared at the end, where the code detaches a whole fastbin first and clears the flag before; the resulting heap is the same.
- Memory of `malloc.c` is one map per field (size words, footers, `fd`, `bk`, tags of mapped chunks, callers' words) instead of one word array; `PayloadApart` states why callers' words and tags do not meet.
- Lazy initialisation of the heap state happens in the constructor; `mallopt`, statistics, `calloc`, `valloc`, WIN32 code and the public wrappers are left out.
- Non-contiguous arenas and fenceposts: only `sbrk` feeds this arena, and `Grow` shows that its memory is contiguous.
- HeapCheckers.ValidStatePasses: the assertions on statistics counters and on the largest fastbin in use.
- Vectors.Vector.Reserve: the allocation is assumed to succeed and its byte count not to wrap; capacities are unbounded.
- Vector's move constructor, assignment and iterators, and `memset`, `memcmp` and `strlen`.
- Choosing the best clock source, and the HPET, TSC and ACPI drivers.
- ACPI glue, MADT parsing, descriptor tables, logging, per-CPU data and `String`.
