# The memory management of yauos, in Dafny

yauos is a Unix-like kernel for 32-bit x86. This project models how it manages memory, layer by
layer, and proves what the layers promise each other:

- **The heap** (`Tiling`, `FreeRing`, `HeapSpec`, `HeapBytes`, `KernelHeap`). The kernel heap and the early boot
  heap are the same next-fit allocator: a circular list of free blocks in address order through
  headers inside the pool, a zero-size node `base` outside it, a roving pointer, splitting from the
  tail, joining on both sides, and a break that only grows. One class stands for both; the two
  sets of constants are `KernelConfig` and `BootConfig`. `Tiling` sees the pool as a row of blocks,
  `FreeRing` as the ring of headers, `HeapSpec` states the allocator on rows and proves laws over
  whole runs, `HeapBytes` says in bytes and addresses what a call yields, `KernelHeap` is the code on headers,
  proved to do what `HeapSpec` says.
- **Physical frames** (`Bitmap`, `FrameSpec`, `PhysicalMemory`, `MemoryMap`, `BootMemory`, `SmpFrames`, `SmpCalls`). One
  bitmap per memory region, packed bytewise but read and written in 32-bit words; counters per region and
  in total; a hint where to search first. `MemoryMap` is the boot code that builds all this from
  the firmware memory map, `BootMemory` says what of the kernel and of the bitmaps it reserves. `SmpFrames` runs the two allocator calls on any number of CPUs, one
  shared-memory access at a time, with reads outside the lock returning anything at all; `SmpCalls` is about what
  a call yields.
- **Paging** (`Paging`, `PagingLaws`, `PagingRuns`, `BitmapPool`, `VirtualMemory`, `TlbRuns`). Physical memory is an array of
  frames read as 1024 entries, and the page walk is that of section 4.3 of the Intel SDM, Volume 3A.
  `map_page` and `unmap_page` reach tables through the recursive slot 1023 and the TLB; `PagingRuns`
  and `TlbRuns` are about whole runs of calls and client stores. The bitmaps of the frame allocator are in
  paged memory too: `BitmapPool` says when their pages stay where they are.
- **Heap bring-up** (`FrameBudget`, `HeapBringUp`, `HeapPlacement`). `k_malloc_init` joins frames and paging, and
  rolls back. `FrameBudget` counts the frames it needs, `HeapPlacement` compares its range with the place
  `pmm_init` chose for the bitmaps.
- **Witnesses** (`Witnesses`). Runs from an orderly start that end in the failures listed below.
- **Two smaller pieces.** `MpTable` is the two-pass walk over the MP configuration table (section 4.3
  of the Intel MultiProcessor Specification 1.4); `Numerals` and `Printk` are the number printers
  and the format scanner of the kernel log.

`Wrappers` holds the option type they share.

## What the proofs show about the code

Where the code does not do what its comments or callers expect, the model follows the code, and a
lemma says exactly when it does:

- `base` must not start at the very end of the pool: a released block that ends there takes `base`
  off the list whenever another free block is on it (`FreeRing.NodeSurvivesIff`, `FreeRing.BaseIsLost`). For the early heap this
  placement is the only one ruled out (`HeapSpec.BootHeapOkIff`).
- `get_free_frame` never looks behind its hint, so it can fail although a frame was given back to an
  earlier region (`FrameSpec.FreedBeforeHintIsMissed`, `Witnesses.FreedFrameIsMissed`).
- `addr_to_bitmap` ends a region at the first byte of its last block: for every later byte of that block it
  goes one region too far (`FrameSpec.LookupFindsOwner`).
- `reserve_region` rounds the size down to whole blocks and ignores the offset of the start
  (`PhysicalMemory.ReservationCoversIff`); the last page of the extended BIOS data area stays
  unreserved because of it (`MemoryMap.EbdaTailNotClaimed`), and so do, outside reclaimable memory, the kernel's
  last partial page and pages of a bitmap under exact conditions (`BootMemory.KernelClaimedIff`, `BootMemory.PoolClaimedIff`); with
  256 MB of memory the second page of the bitmaps is handed out (`BootMemory.PoolPageUnreserved`).
- The reservation of a bitmap can start behind the last block's first byte of the bitmap's own region, and
  `pmm_init` then panics or marks a block of another bitmap (`MemoryMap.BitmapClaimsLandIff`, `BootMemory.PoolMissesItsRegion`).
- The place `pmm_init` finds for its bitmaps can lie outside every memory region
  (`MemoryMap.PlaceIsSafe`, `MemoryMap.PlaceOutsideTheMap`); finding none is reported as `(void*) -1`,
  while the test behind the loop is for `NULL` (`MemoryMap.FindPlace`).
- The heap can start on a page of the bitmaps, and `map_page` then replaces them under the allocator
  (`HeapPlacement.PoolClearOfHeapIff`, `HeapPlacement.HeapOverPool`, `BitmapPool.RemapDisplacesPool`); or on the
  page behind them that the last word of a bitmap reaches into (`HeapPlacement.HeapBehindPool`), which the rollback
  unmaps. What `k_malloc_init` promises holds where the ranges are apart.
- `map_page` does not clear the frame it takes for a table
  (`PagingLaws.NewTableIsHarmlessIff`, `Witnesses.DirtyTable`).
- `unmap_page` flushes the unmapped page but not the window page of a table it releases; when the
  slot is used again, `map_page` writes through the old translation
  (`VirtualMemory.UnmapKeepsTlb`, `VirtualMemory.StaleWindowMapsIff`, `Witnesses.StaleWindow`).
- When `k_malloc_init` fails for want of a table frame, the frame taken for the failing page is lost; from the
  number of free frames on entry one can tell when (`HeapBringUp.KMallocInit`, `Witnesses.FrameIsLost`).
- The walk over the MP table takes a local interrupt entry for 7 bytes; the standard has 8
  (`MpTable.WalkIsStandardIff`, `MpTable.ProcessorsFoundIff`, `MpTable.PhantomProcessor`).
- `%s` directly followed by a `d` or by `ld` reads as `%sd` or `%sld` (`Printk.PrintsAsMeantIff`, `Printk.StringThenD`).

## Model

| member | source | states |
|---|---|---|
| Tiling.ByteHasOneBlock | src/kernel/mm/kmalloc.c:75-167 | every byte of the grown pool lies in exactly one block: no gap and no overlap |
| Tiling.FreeBlocksAreMaximalRuns | src/kernel/mm/kmalloc.c:98-111 | a free block is a maximal run: it meets no live block, and each of its ends is the end of the pool or touches a live block |
| Tiling.CanonicalUnique | src/kernel/mm/kmalloc.c:90-113 | the live blocks and the pool bounds determine the row: two coalesced rows with the same live blocks are equal |
| Tiling.ReleaseCovers | src/kernel/mm/kmalloc.c:98-111 | releasing a block, with joining on either side, leaves the pool covered without gap or overlap |
| Tiling.ReleaseCoalesces | src/kernel/mm/kmalloc.c:98-111 | after a release no two free blocks touch |
| Tiling.ReleaseLive | src/kernel/mm/kmalloc.c:90-113 | a release takes exactly the released block out of the live blocks |
| Tiling.CarveCovers | src/kernel/mm/kmalloc.c:149-160 | taking a whole block or the tail of one leaves the pool covered |
| Tiling.CarveLive | src/kernel/mm/kmalloc.c:149-160 | taking adds exactly one live block, which was not live before |
| FreeRing.GapIsUnique | src/kernel/mm/kmalloc.c:93-97 | the two exit tests of the insertion search hold together at exactly one node of the ring, the gap where the block belongs |
| FreeRing.SpliceKeepsRing | src/kernel/mm/kmalloc.c:98-112 | linking a block in, with either, both or no joining, leaves one ascending cycle with a single wrap |
| FreeRing.SpliceLeavesRing | src/kernel/mm/kmalloc.c:98-112 | linking a block in leaves one ring of the nodes the joins leave, also where the block ends at the only node, which then stays on the ring behind it |
| FreeRing.NodeSurvivesIff | src/arch/i386/bootmem/bootmem.c:56-59 | a node of the ring, `base` among them, is taken off by an insertion if and only if the inserted block ends at it and the ring has another node |
| FreeRing.BaseIsLost | src/arch/i386/bootmem/bootmem.c:48-71 | a ring of `base` and one free block, and a released block that ends at `base`: afterwards `base` is off the ring |
| FreeRing.UnlinkKeepsRing | src/kernel/mm/kmalloc.c:150-152 | bypassing a node leaves the cycle through the others |
| HeapSpec.NextFitFails | src/kernel/mm/kmalloc.c:148-166 | the search from the rover and then from the bottom misses only when no free block anywhere is large enough |
| HeapSpec.GrowKeeps | src/kernel/mm/kmalloc.c:119-133 | growing the pool keeps it well formed and leaves the live blocks alone |
| HeapSpec.MallocKeeps | src/kernel/mm/kmalloc.c:140-167 | a served request adds one live block that is header-aligned, inside the pool, disjoint from all live blocks and holds the requested bytes; a failed one leaves every block and the break as they were |
| HeapSpec.MallocFailsIff | src/kernel/mm/kmalloc.c:75-82 | k_malloc fails if and only if no free block has enough units and fewer than max(units, MORECORE_DEFAULT) units are left below heap_end |
| HeapBytes.FailsIff | src/kernel/mm/kmalloc.c:75-82 | in bytes: k_malloc fails if and only if no free block has room for a header and the payload, and no growth that holds them and is not below MORECORE_DEFAULT ends below heap_end |
| HeapBytes.HandsOut | src/kernel/mm/kmalloc.c:143-160 | the block handed out is new, holds the payload and wastes less than one unit |
| HeapBytes.TakesNext | src/kernel/mm/kmalloc.c:148-160 | without growth the block is the tail of the first free block with room on the way up from the rover and round, and the rover goes to the node before that block |
| HeapBytes.GrowsWhenFull | src/kernel/mm/kmalloc.c:119-133 | the pool grows only when no free block has room, by the least number of units that holds the request and is not below MORECORE_DEFAULT, and the block handed out ends at the new break |
| HeapBytes.FreeMovesRover | src/kernel/mm/kmalloc.c:93-112 | a release leaves the rover at the ring node before the released block |
| HeapBytes.FirstKernelBlock | src/kernel/mm/kmalloc.c:119-167 | the first k_malloc of at most 4088 bytes grows the pool by 4096 and takes the end of it |
| HeapBytes.FirstBootBlock | src/arch/i386/bootmem/bootmem.c:76-121 | the first b_malloc of at most 1016 bytes grows the pool by 1024 and takes the end of it |
| HeapBytes.BootHeapHolds | src/arch/i386/bootmem/bootmem.c:76-121 | a first b_malloc of 4088 bytes returns the address behind the first header, one of 4089 returns NULL |
| HeapSpec.FreeKeeps | src/kernel/mm/kmalloc.c:90-113 | k_free of a live block keeps the pool well formed and takes exactly that block out of use |
| HeapSpec.RunKeepsShape | src/kernel/mm/kmalloc.c:90-167 | after every run of allocations and releases free and live blocks tile the grown pool, no two free blocks touch, and the rover is a node of the ring |
| HeapSpec.RunsAgree | src/kernel/mm/kmalloc.c:90-167 | two runs that leave the same break and live blocks leave the same free blocks, whatever the order of their calls |
| HeapSpec.FreesCommute | src/kernel/mm/kmalloc.c:90-113 | releasing two live blocks in either order gives the same blocks |
| HeapSpec.FreeUndoesMalloc | src/kernel/mm/kmalloc.c:90-167 | an allocation that did not grow the pool, followed by its release, restores the blocks |
| HeapSpec.AllFreeIsOneBlock | src/kernel/mm/kmalloc.c:90-113 | after a run that gives everything back the whole grown pool is one free block |
| HeapSpec.KernelHeapIsOk | src/kernel/mm/kmalloc.c:31-33 | with `base` in the kernel image and the heap behind it the kernel heap meets what the laws require |
| HeapSpec.BootHeapOkIff | src/arch/i386/bootmem/bootmem.c:23-26 | with `base` and the early pool apart in the image, the early heap meets it if and only if `base` does not start at the end of the pool |
| KernelHeap.Heap.constructor | src/arch/i386/bootmem/bootmem.c:23-26 | the heap before its first call: an empty pool, no ring |
| KernelHeap.Heap.Sbrk | src/kernel/mm/kmalloc.c:75-82 | the break moves by the amount, in 32-bit arithmetic, unless that passes the end of the pool |
| KernelHeap.Heap.FindGap | src/kernel/mm/kmalloc.c:93-97 | the walk round the ring terminates, at the node below the block in cyclic address order, wherever it starts |
| KernelHeap.Heap.Free | src/kernel/mm/kmalloc.c:90-113 | on headers in memory k_free is the release of the block in the row, and the ring in memory is again the ring of the row (bootmem.c:48-71 is the same) |
| KernelHeap.Heap.Morecore | src/kernel/mm/kmalloc.c:119-133 | the pool grows by the larger of the request and MORECORE_DEFAULT, or nothing changes |
| KernelHeap.Heap.TakeBlock | src/kernel/mm/kmalloc.c:149-160 | the block the scan stopped at is the next fit; what is taken from it, and the new rover, are those of the row |
| KernelHeap.Heap.Malloc | src/kernel/mm/kmalloc.c:140-167 | the scan over the cycle terminates, grows the pool at most once, and returns what the allocator on rows returns, leaving its row and ring in memory; a block returned is new, holds the payload and wastes less than one unit (bootmem.c:94-121 is the same) |
| KernelHeap.MeetsIffFree | src/kernel/mm/kmalloc.c:98-105 | the address tests of k_free find a neighbour to join exactly when the block next to it in the row is free |
| KernelHeap.SpliceReleases | src/kernel/mm/kmalloc.c:98-112 | the header writes of k_free turn memory describing a row into memory describing the released row |
| KernelHeap.ScanExhausted | src/kernel/mm/kmalloc.c:161-165 | when the scan is back at the rover no block of the pool is large enough |
| KernelHeap.GrowsOnce | src/kernel/mm/kmalloc.c:161-165 | the scan is exhausted at most once in a call: after the pool has grown it ends at a block |
| Bitmap.OrSetsOne | src/lib/bitmap/bitmap.c:4-7 | or-ing a mask into a little-endian word at any byte address changes one bit of the pool and no other |
| Bitmap.AndClearsOne | src/lib/bitmap/bitmap.c:9-12 | and-ing the complement clears one bit of the pool and no other |
| Bitmap.AndTestsOne | src/lib/bitmap/bitmap.c:14-17 | masking tells whether that bit of the word is set |
| Bitmap.BitmapSet | src/lib/bitmap/bitmap.c:4-7 | exactly bit `bit` of the bitmap is set, although the word may overlap a neighbouring bitmap |
| Bitmap.BitmapUnset | src/lib/bitmap/bitmap.c:9-12 | exactly bit `bit` of the bitmap is cleared |
| Bitmap.BitmapTest | src/lib/bitmap/bitmap.c:14-17 | whether bit `bit` is set |
| Bitmap.BitmapFirstUnset | src/lib/bitmap/bitmap.c:19-39 | the least unset bit below `size`, or -1 when all are set |
| Bitmap.CountUpdate | src/kernel/mm/pm.c:362-366 | writing one bit changes the number of set bits by the difference |
| Bitmap.CountFull | src/kernel/mm/pm.c:370-372 | the count equals the size exactly when every bit is set |
| FrameSpec.LookupFindsOwner | src/kernel/mm/pm.c:57-68 | for a byte of a region addr_to_bitmap gives this region up to the first byte of its last block, and the next list position for the bytes behind it |
| FrameSpec.LookupOwns | src/kernel/mm/pm.c:57-68 | a byte is in some region if and only if the region found reaches down to it or the one before it in the list holds it |
| FrameSpec.LookupManaged | src/kernel/mm/pm.c:57-68 | a block address is managed exactly when the region found owns it |
| FrameSpec.SameFrame | src/kernel/mm/pm.c:374-374 | two blocks have the same frame only if they are the same block of the same region |
| FrameSpec.BitsDisjoint | src/kernel/mm/pm.c:262-276 | blocks of the packed bitmaps never share a bit of the pool |
| FrameSpec.UsedFramesAfterWrite | src/kernel/mm/pm.c:362-366 | writing a block's bit adds or removes exactly its frame from the frames in use |
| FrameSpec.AllocTakesOne | src/kernel/mm/pm.c:336-384 | get_free_frame returns an aligned frame that was free and puts exactly this one into use, or changes nothing |
| FrameSpec.AllocTakesFirst | src/kernel/mm/pm.c:349-383 | it is the least free block of the first region with one, from the hint to the end of the list; its bit alone is written, and the hint moves to the next region, round to the first, exactly when the region is full now |
| FrameSpec.ReleaseClearsOne | src/kernel/mm/pm.c:386-400 | free_frame clears the bit of the block at the address and nothing else, and leaves the hint alone |
| FrameSpec.ReleaseUndoesAlloc | src/kernel/mm/pm.c:386-400 | freeing the frame just returned restores the bitmaps |
| FrameSpec.AllocFailsIff | src/kernel/mm/pm.c:349-383 | get_free_frame fails if and only if all regions from the hint to the end of the list are full |
| FrameSpec.AllocKeepsHint | src/kernel/mm/pm.c:370-372 | an allocation keeps the hint sound: the regions before it are full, or all are |
| FrameSpec.RunFailsOnlyWhenExhausted | src/kernel/mm/pm.c:336-384 | in every run without frees get_free_frame fails if and only if no block anywhere is free |
| FrameSpec.FreedBeforeHintIsMissed | src/kernel/mm/pm.c:341-383 | after a failed allocation and one free, the next allocation fails again if and only if the freed block lies in a region before the hint |
| PhysicalMemory.ReservationCoversIff | src/kernel/mm/pm.c:75-82 | the blocks reserved cover every byte asked for if and only if the offset of the start leaves room in the whole blocks of the size |
| PhysicalMemory.WriteKeepsAccounts | src/kernel/mm/pm.c:84-90 | flipping a bit and adjusting its region's counter keeps every counter equal to its number of set bits |
| PhysicalMemory.AllFull | src/kernel/mm/pm.c:346-348 | the total counter equals the number of blocks exactly when every region is full |
| PhysicalMemory.Pmm.constructor | src/kernel/mm/pm.c:262-276 | cleared bitmaps and zero counters agree |
| PhysicalMemory.Pmm.AddrToBitmap | src/kernel/mm/pm.c:57-68 | the first region whose last block is not below the address, or NULL |
| PhysicalMemory.Pmm.ReserveBlock | src/kernel/mm/pm.c:84-90 | a block is marked, and counted only if it was not in use already |
| PhysicalMemory.Pmm.ReserveRegion | src/kernel/mm/pm.c:70-93 | exactly the bits of the reserved blocks are set, each new one is counted once in all four counters, and a failing call changes nothing |
| PhysicalMemory.Pmm.TakeFirst | src/kernel/mm/pm.c:361-376 | under the lock: the least free block of one region is marked and the hint moves on when that was the last |
| PhysicalMemory.Pmm.GetFreeFrame | src/kernel/mm/pm.c:336-384 | the search over regions, with its shortcuts through the counters, gives the first free block from the hint on; all counters stay right |
| PhysicalMemory.Pmm.FreeFrame | src/kernel/mm/pm.c:386-400 | panics exactly when the block is unmanaged or free already, and otherwise clears its bit and counts it out |
| MemoryMap.NewRegion | src/kernel/mm/pm.c:117-137 | for an aligned entry the rounded bounds and the bitmap size are those of its blocks |
| MemoryMap.BuildList | src/kernel/mm/pm.c:115-160 | one list element per usable entry in map order; the totals are the sums over the list |
| MemoryMap.ListedAscends | src/kernel/mm/pm.c:115-160 | the regions are ascending, disjoint and page aligned |
| MemoryMap.ListCoversMap | src/kernel/mm/pm.c:115-160 | a byte is managed by a region if and only if a usable entry contains it |
| MemoryMap.PlaceIsSafe | src/kernel/mm/pm.c:182-253 | the place chosen is page aligned and clear of the kernel; it lies inside the entry and above 0x100000 if and only if the entry does not start above both the kernel's start and its rounded end |
| MemoryMap.PlaceIff | src/kernel/mm/pm.c:182-253 | the exact condition, in page boundaries, for the place to be the entry's start, the first page behind the kernel, or none |
| MemoryMap.PlaceOutsideTheMap | src/kernel/mm/pm.c:186-218 | a memory map for which the chosen place belongs to no entry |
| MemoryMap.TryEntry | src/kernel/mm/pm.c:182-253 | the nested tests on one entry compute the place: at its start, behind the kernel, or none |
| MemoryMap.PlaceLeavesRoomIff | src/kernel/mm/pm.c:197-216 | the last bitmap starts no later than its entry's last block if and only if the pool went to the entry's start or rounding up the kernel's end leaves room for the bitmaps before it |
| MemoryMap.FindPlace | src/kernel/mm/pm.c:168-258 | the first entry with room decides; none gives (void*) -1, and NULL, the value tested, occurs only for an empty map |
| MemoryMap.FirstPlaceIsFirst | src/kernel/mm/pm.c:168-258 | the place chosen is that of the first entry that has one |
| MemoryMap.PackedApart | src/kernel/mm/pm.c:262-276 | packing changes only the bitmap addresses and no two bitmaps overlap |
| MemoryMap.PackedIsWellFormed | src/kernel/mm/pm.c:262-276 | the packed list is what the allocator needs; words of the last bitmap reach at most 3 bytes past the pool |
| MemoryMap.PlaceBitmaps | src/kernel/mm/pm.c:262-276 | the bitmaps lie one behind the other and every bit of the pool is clear |
| MemoryMap.MarksOneMore | src/kernel/mm/pm.c:70-93 | one more reservation marks its own blocks and no others, however it overlaps earlier ones |
| MemoryMap.ClaimLandsIff | src/kernel/mm/pm.c:57-93 | a reservation inside an entry is made in that entry's region if and only if it starts no later than the last block does |
| MemoryMap.BitmapClaimsLandIff | src/kernel/mm/pm.c:310-318 | with the pool inside an entry every bitmap's own reservation is made in that entry's region if and only if the last bitmap starts no later than the last block; all of them then succeed |
| MemoryMap.ReclaimClaimsFit | src/kernel/mm/pm.c:322-328 | the reservations of reclaimable entries succeed inside their own regions |
| MemoryMap.EbdaTailNotClaimed | src/kernel/mm/pm.c:286-288 | the page of 0x9FFFF is not reserved, the one before it is |
| MemoryMap.Reserve | src/kernel/mm/pm.c:280-282 | one reservation of the plan: exactly the planned blocks so far are marked, or it fails because no region reaches up to it |
| MemoryMap.ReserveFixed | src/kernel/mm/pm.c:280-306 | the fixed reservations are made in order, the trampoline's only with SMP |
| MemoryMap.ReserveBitmaps | src/kernel/mm/pm.c:310-318 | the memory of each bitmap is reserved in list order |
| MemoryMap.ReserveReclaimable | src/kernel/mm/pm.c:322-328 | the reclaimable entries are reserved, the available ones are not |
| MemoryMap.PmmInit | src/kernel/mm/pm.c:104-328 | after boot the managed blocks are those of the usable entries, the blocks in use are exactly those some reservation takes, and each is counted once |
| BootMemory.KernelClaimedIff | src/kernel/mm/pm.c:290-328 | after boot every byte of a kernel inside a usable entry is in a reserved block if and only if the entry is reclaimable or the offset of the kernel's start leaves room in the whole blocks of its size |
| BootMemory.PoolClaimedIff | src/kernel/mm/pm.c:308-328 | after boot every byte of the bitmaps is in a reserved block if and only if they lie in reclaimable memory or each bitmap is covered by its own reservation and the next one's first block |
| BootMemory.UsedIffClaimed | src/kernel/mm/pm.c:280-328 | the frame of a byte of a usable entry is in use after boot exactly when a reservation takes its block |
| BootMemory.LowClaimedIff | src/kernel/mm/pm.c:280-306 | of the blocks of available memory below 1 MB the reservations take block 0, blocks 0x80 to 0x9E, with SMP blocks 1 and 2, and no others |
| BootMemory.LowUsedIff | src/kernel/mm/pm.c:280-306 | these frames and no others of available memory below 1 MB are in use after boot, the trampoline's included |
| BootMemory.HighUsedIff | src/kernel/mm/pm.c:290-318 | above it a frame of available memory is in use after boot if and only if its block is one of the whole blocks of the kernel or of a bitmap |
| BootMemory.ReclaimableUsed | src/kernel/mm/pm.c:322-328 | every frame of reclaimable memory is in use after boot |
| BootMemory.PoolPageUnreserved | src/kernel/mm/pm.c:308-318 | a memory map of 256 MB with a page of the bitmaps in no reservation |
| BootMemory.PoolMissesItsRegion | src/kernel/mm/pm.c:308-318 | a memory map where the pool is inside an entry and the reservation of a bitmap finds no region |
| SmpFrames.ExclusiveKept | src/kernel/spinlock.c:5-21 | the swap and the store of 0 keep at most one CPU inside the lock, and the lock word set while one is |
| SmpFrames.StoreSetsBit | src/kernel/mm/pm.c:362-364 | the store of the loaded word with one more bit gives the CPU a frame nobody owned and touches no other |
| SmpFrames.StoreClearsBit | src/kernel/mm/pm.c:395-396 | the store that clears the bit takes exactly that frame from the CPU |
| SmpFrames.AllocUsedStore | src/kernel/mm/pm.c:365-365 | the region's increment, split into load and store, loses no update |
| SmpFrames.AllocTotalStore | src/kernel/mm/pm.c:366-366 | the same for the total |
| SmpFrames.FreeUsedStore | src/kernel/mm/pm.c:397-397 | the region's decrement, split into load and store, loses no update |
| SmpFrames.FreeTotalStore | src/kernel/mm/pm.c:398-398 | the same for the total |
| SmpFrames.StepKeepsInv | src/kernel/mm/pm.c:336-400 | every step of every CPU keeps the invariant, whatever the reads outside the lock return |
| SmpFrames.RunIsSafe | src/kernel/mm/pm.c:336-400 | at every point of every interleaving of any number of CPUs: at most one is inside the lock, no frame is with two CPUs, none is handed to a CPU that holds it already, held frames have their bit set, and with the lock free all counters equal the numbers of set bits |
| SmpFrames.NoFrameLeaks | src/kernel/mm/pm.c:336-400 | a bit is set if and only if its frame is reserved, held, or in the hands of a CPU inside a call |
| SmpFrames.FreshTestNeverPanics | src/kernel/mm/pm.c:392-394 | for a frame its caller holds the test of free_frame finds the bit set |
| SmpFrames.EveryCpuCanMove | src/kernel/mm/pm.c:336-400 | no CPU is stuck: in every reachable state each one that has not panicked has a step |
| SmpCalls.SearchFinds | src/kernel/mm/pm.c:362-364 | whoever else runs, the search under the lock misses if and only if the region is full at that moment, and otherwise takes its least free block |
| SmpCalls.StepKeepsDue | src/kernel/mm/pm.c:336-400 | each step of a call that no other CPU disturbs keeps the result it will have: bitmaps, hint and frames held |
| SmpCalls.GetFreeFrameAlone | src/kernel/mm/pm.c:336-384 | a get_free_frame that no other CPU disturbs leaves bitmaps, hint and result of the allocator on one CPU, the frame held, counters that match the bitmaps, and the lock free |
| SmpCalls.FreeFrameAlone | src/kernel/mm/pm.c:386-400 | the same for free_frame of a frame the CPU holds, which does not panic |
| SmpCalls.CallReturns | src/kernel/mm/pm.c:336-400 | left alone, every call comes to its end |
| Paging.WindowReachesTable | src/arch/i386/kernel/mm/vm.c:18-27 | with slot 1023 at the directory, the address computed for `va` plus four times an index translates to exactly that entry of the table that governs `va`, and to nothing when there is no table |
| Paging.WindowWalk | src/arch/i386/kernel/mm/vm.c:18-27 | the window page of a slot translates to what the slot points at |
| PagingLaws.WalkAfterPut | src/arch/i386/kernel/mm/vm.c:67-73 | writing a table entry changes the translations that go through this entry and no others |
| PagingLaws.NewTable | src/arch/i386/kernel/mm/vm.c:36-51 | a new table takes one free frame, differs from all tables, and leaves the other slots' translations alone |
| PagingLaws.MapRefines | src/arch/i386/kernel/mm/vm.c:29-76 | map_page fails exactly when no frame is left for a table or the page is taken, and then changes nothing; otherwise the translation is the old one with this page at this frame, and at most a table frame is taken |
| PagingLaws.NewTableIsHarmlessIff | src/arch/i386/kernel/mm/vm.c:36-51 | mapping through a new table changes no other page if and only if the uncleared frame has no other present entry |
| PagingLaws.ReleaseFrees | src/kernel/mm/pm.c:386-400 | free_frame of a frame in use takes exactly this frame out of use |
| PagingLaws.UnmapReleasesTable | src/arch/i386/kernel/mm/vm.c:98-105 | when the last entry goes, the table frame is given back and its slot cleared, changing no translation |
| PagingLaws.UnmapRefines | src/arch/i386/kernel/mm/vm.c:78-108 | unmap_page of a mapped page removes this translation and no other, gives back the page's frame, and the table's exactly when it became empty |
| PagingLaws.UnmapNothing | src/arch/i386/kernel/mm/vm.c:78-85 | on an unmapped page nothing changes; without a table the access faults |
| PagingLaws.UnmapForeign | src/arch/i386/kernel/mm/vm.c:86-87 | a page whose frame the allocator does not have in use, outside the gaps below regions, is unmapped and free_frame panics |
| PagingLaws.OwnedIsPlain | src/arch/i386/kernel/mm/vm.c:29-108 | a frame behind a page the client mapped is in use and neither the directory nor a table |
| PagingLaws.BooksAfterMap | src/arch/i386/kernel/mm/vm.c:29-76 | mapping one more page on a fresh frame accounts for every frame in use: old, behind a client page, or a new table |
| PagingLaws.BooksAfterUnmap | src/arch/i386/kernel/mm/vm.c:78-108 | unmapping strikes the page and its frame, and its table when nothing else is mapped there |
| PagingLaws.BooksClosed | src/arch/i386/kernel/mm/vm.c:29-108 | with every client page unmapped tables and frames in use are what they were |
| PagingLaws.TableHasPage | src/arch/i386/kernel/mm/vm.c:90-105 | every table serves a mapped page |
| PagingRuns.MapFreshKeepsBooks | src/arch/i386/kernel/mm/vm.c:29-76 | taking a frame and mapping it, or giving it back when that fails, keeps the accounts |
| PagingRuns.UnmapOwnedKeepsBooks | src/arch/i386/kernel/mm/vm.c:78-108 | unmapping a page mapped before succeeds and keeps the accounts |
| PagingRuns.StoreKeepsBooks | src/arch/i386/kernel/mm/vm.c:29-76 | whatever a client writes into its frame never shows as a translation |
| PagingRuns.RunKeepsBooks | src/arch/i386/kernel/mm/vm.c:29-108 | after every run each client page translates to its own frame, all other translations are as at the start, tables are distinct frames, and every frame in use is accounted for |
| PagingRuns.TableIffMapped | src/arch/i386/kernel/mm/vm.c:36-108 | a slot has a table if and only if one of its pages is mapped |
| PagingRuns.RunUndone | src/arch/i386/kernel/mm/vm.c:29-108 | a run that unmaps all it mapped restores every translation and every frame, table frames included |
| BitmapPool.PoolStays | src/arch/i386/kernel/mm/vm.c:29-108 | while other pages are mapped and unmapped the pages of the bitmaps translate to their frames, which nobody is given |
| BitmapPool.RunKeepsPool | src/arch/i386/kernel/mm/vm.c:29-108 | no run of mapping fresh frames at unmapped pages, unmapping and storing moves the bitmaps |
| BitmapPool.RemapDisplacesPool | src/arch/i386/kernel/mm/vm.c:53-74 | mapping a page that holds bits on a free frame, which the flag of k_malloc_init permits, takes the bitmaps away |
| VirtualMemory.MapThroughIsMap | src/arch/i386/kernel/mm/vm.c:53-74 | when the window page is not cached stale, accesses through the TLB do what the page walk would |
| VirtualMemory.UnmapThroughIsUnmap | src/arch/i386/kernel/mm/vm.c:78-108 | the same for unmap_page |
| VirtualMemory.MapKeepsTlb | src/arch/i386/kernel/mm/vm.c:67-75 | map_page leaves no translation stale that was not stale before |
| VirtualMemory.UnmapKeepsTlb | src/arch/i386/kernel/mm/vm.c:86-107 | unmap_page leaves at most one more stale translation, the window page, and this one exactly when it released the table |
| VirtualMemory.StaleWindowMapsIff | src/arch/i386/kernel/mm/vm.c:36-75 | with a stale window page and a new table map_page reports success, and the page is mapped if and only if the cached frame happens to be the new table |
| VirtualMemory.AddressSpace.MapPage | src/arch/i386/kernel/mm/vm.c:29-76 | the code on memory, TLB and allocator does map_page through the window and flushes the page |
| VirtualMemory.AddressSpace.IsEmpty | src/arch/i386/kernel/mm/vm.c:92-97 | the scan tells whether no entry of the table is present |
| VirtualMemory.AddressSpace.UnmapPage | src/arch/i386/kernel/mm/vm.c:78-108 | the code does unmap_page through the window, and flushes the page only when it succeeds |
| VirtualMemory.MapWrites | src/arch/i386/kernel/mm/vm.c:47-73 | as a 32-bit word the table entry written is the frame with bits 0 to 4 and 8 of the flags, and the directory entry of a new table its frame with bits 0 to 4, bit 8 staying as it was |
| VirtualMemory.UnmapWrites | src/arch/i386/kernel/mm/vm.c:86-105 | in the table entry, and in the directory entry of a table given back, presence and address are cleared and the other bits stay |
| VirtualMemory.InPlaceIsReached | src/kernel/mm/pm.c:262-264 | with the bitmaps in place and no client page cached stale no access to the pages of the pool faults, and those to pages with bits go to their frames |
| VirtualMemory.WordIsReached | src/lib/bitmap/bitmap.c:4-17 | then each byte of the word touched for a block is mapped, also where the word reaches behind the bitmaps, and the byte with the bit is in its frame |
| VirtualMemory.UnmapSparesPool | src/arch/i386/kernel/mm/vm.c:78-108 | unmapping a mapped page outside the bitmaps meets what unmap_page needs: at each of its frees the bitmaps are reached |
| TlbRuns.MapFreshInStep | src/arch/i386/kernel/mm/vm.c:29-76 | mapping through the TLB is mapping at the level of the page walk, as long as a slot that gets a new table has no cached window page |
| TlbRuns.StoreInStep | src/arch/i386/kernel/mm/vm.c:67-75 | a client's store reaches the frame behind its page and makes no translation stale |
| TlbRuns.HappenInStep | src/arch/i386/kernel/mm/vm.c:29-108 | after every call, and whatever the processor caches or drops, only window pages of slots without a table can be stale |
| TlbRuns.RunThroughRefines | src/arch/i386/kernel/mm/vm.c:29-108 | every run through the TLB leaves the memory, frames and pages that the same calls leave at the level of the page walk |
| HeapBringUp.MapIteration | src/kernel/mm/kmalloc.c:37-55 | a round of the mapping loop adds one page on a frame of its own, or fails because no frame is left for a table |
| HeapBringUp.RollIteration | src/kernel/mm/kmalloc.c:59-62 | a round of the rollback unmaps one page and gives back its frame and the table taken for it, keeping tables from before |
| HeapBringUp.UnmappedRangeIsAnchored | src/kernel/mm/kmalloc.c:31-36 | the condition on existing tables holds whenever the heap range is unmapped on entry |
| HeapBringUp.BackPage | src/kernel/mm/kmalloc.c:38-54 | one page: a free frame taken and mapped, or the reason why not, as long as the allocator reaches its bitmaps |
| HeapBringUp.BackAll | src/kernel/mm/kmalloc.c:37-55 | the mapping loop, apart from the bitmaps, backs every page, or stops at the first one for which a frame, or a frame for its table, is missing |
| HeapBringUp.Unback | src/kernel/mm/kmalloc.c:56-64 | the rollback loop unmaps every page mapped so far |
| FrameBudget.NoFrameIff | src/kernel/mm/pm.c:336-384 | with a sound hint get_free_frame fails exactly when no frame is free |
| FrameBudget.NeedCounts | src/kernel/mm/kmalloc.c:37-55 | the frames needed for the first pages are their number and that of the slots among them without a table |
| FrameBudget.BooksCount | src/kernel/mm/kmalloc.c:37-55 | after some pages the number of free frames has fallen by exactly their need |
| FrameBudget.StopsIff | src/kernel/mm/kmalloc.c:37-55 | a loop that stops was short of frames, and loses one if and only if at some page that opens a slot exactly one was left |
| HeapBringUp.ForetellFailure | src/kernel/mm/kmalloc.c:38-53 | where the loop stopped, told from the free frames on entry |
| HeapBringUp.ForetellSuccess | src/kernel/mm/kmalloc.c:37-55 | when it did not stop, the free frames on entry sufficed |
| HeapBringUp.KMallocInit | src/kernel/mm/kmalloc.c:31-68 | success: each heap page has its own frame that was free on entry, distinct from every table taken, and all are in use; failure: the pages mapped so far are unmapped, all other translations and tables are as before, and the frames in use are the old ones plus exactly the frame of the failing page when map_page failed; with a sound hint it succeeds if and only if the free frames on entry number at least the pages plus the slots without a table, and loses a frame if and only if the last free one goes to a page that opens such a slot; the bitmaps stay in place |
| HeapPlacement.BootPoolCovers | src/kernel/mm/pm.c:160-276 | the pages reckoned for the bitmaps hold all their bits, and their span all words, which end at most three bytes behind them |
| HeapPlacement.PoolClearOfHeapIff | src/kernel/mm/pm.c:160-258 | the heap range is clear of the bitmaps and their words if they went to an entry's start; behind the kernel if and only if no word reaches behind their last page and they fill this page or reach beyond the bytes skipped by rounding up the kernel's end |
| HeapPlacement.HeapOverPool | src/kernel/mm/pm.c:162-164 | a memory map of 64 MB for which the first heap page is the page of the bitmaps |
| HeapPlacement.HeapBehindPool | src/kernel/mm/pm.c:162-164 | a memory map for which the first heap page is the one behind the bitmaps, which their last word reaches into |
| HeapPlacement.PoolFramesTakenIff | src/kernel/mm/pm.c:308-328 | after boot the frames of the bitmaps are in use exactly when each of their bytes is in a reserved block |
| HeapPlacement.HeapIsMemory | src/kernel/mm/kmalloc.c:31-55 | after success every byte of [heap_brk, heap_end), the pool of the kernel heap, translates to a byte in a frame that was free on entry, and different bytes to different ones |
| Witnesses.FreedFrameIsMissed | src/kernel/mm/pm.c:341-383 | six calls after boot get_free_frame fails while the frame given back last is free |
| Witnesses.DirtyTable | src/arch/i386/kernel/mm/vm.c:36-51 | five legal calls and stores after which map_page reports success and maps other pages as well |
| Witnesses.StaleWindow | src/arch/i386/kernel/mm/vm.c:36-108 | three legal calls after which map_page through the TLB reports success and does not map the page |
| Witnesses.FrameIsLost | src/kernel/mm/kmalloc.c:37-64 | a state from which k_malloc_init may be called and which its contract sends into losing a frame |
| Witnesses.StartExists | src/arch/i386/kernel/mm/vm.c:18-27 | the memory these runs start from exists |
| MpTable.Checksum | src/arch/i386/cpu/smp.c:21-28 | the sum of the bytes modulo 256 |
| MpTable.SearchPointer | src/arch/i386/cpu/smp.c:30-39 | the last valid floating pointer structure on a 16-byte boundary in the range, or NULL when there is none |
| MpTable.SlotsAt | src/arch/i386/cpu/smp.c:107-142 | slots are in table order; with hyperthreading each processor is followed by one whose id is one more modulo 256 and which is not a boot processor |
| MpTable.WalkFollowsStandard | src/arch/i386/cpu/smp.c:50-76 | without an entry behind a local interrupt entry the walk visits every entry where it is and finds exactly the usable processors of the table |
| MpTable.WalkIsStandardIff | src/arch/i386/cpu/smp.c:72-74 | the walk visits the entries where the standard has them if and only if no local interrupt entry precedes another entry |
| MpTable.ProcessorsFoundIff | src/arch/i386/cpu/smp.c:50-76 | when two local interrupt entries end the table and it has no others, the processors found are those of the table if and only if not both the first is for input 0 and the second has an odd flags byte |
| MpTable.PhantomProcessor | src/arch/i386/cpu/smp.c:50-76 | two local interrupt entries, the first for input 0, the second with an odd flags byte, are counted as a usable processor |
| MpTable.IoApicIs | src/arch/i386/cpu/smp.c:61-68 | in a table that is read as the standard has it, the address remembered is bytes 4 to 7 of the last I/O APIC entry with bit 0 of its flags set, and the old one when there is none |
| MpTable.FourEntries | src/arch/i386/cpu/smp.c:48-146 | a table, byte by byte, with two usable processors, one that is not, and an I/O APIC: the processors, slots and address found |
| MpTable.Smp.Count | src/arch/i386/cpu/smp.c:50-76 | the first pass counts the usable processors the walk meets and remembers the last usable I/O APIC |
| MpTable.Smp.Fill | src/arch/i386/cpu/smp.c:107-143 | the second pass fills the slots of the same processors in order and leaves the rest |
| MpTable.Smp.InitCpuData | src/arch/i386/cpu/smp.c:48-146 | for a count other than 1, starting from 0, both passes agree: every allocated slot is written and cpu_data ends at its base; for 1 the addresses are cleared and -1 is returned |
| Numerals.DigitsRead | src/kernel/printk/printk.c:44-58 | reading the digits of a number gives the number back, with no leading zero |
| Numerals.NumeralRead | src/kernel/printk/printk.c:29-65 | the numeral of a number reads back to it, 0 included |
| Numerals.NumeralIsShortest | src/kernel/printk/printk.c:29-65 | no digit string with the same value is shorter, and one of the same length is the same |
| Numerals.SignedRead | src/kernel/printk/printk.c:69-97 | a signed numeral reads back to the number |
| Numerals.WritesIff | src/kernel/printk/printk.c:29-65 | a number's numeral is the only text of digits without a needless zero that reads back to it |
| Numerals.WritesSignedIff | src/kernel/printk/printk.c:69-97 | the same with a sign |
| Numerals.DigitCharIs | src/kernel/printk/printk.c:163-251 | the digits are 0 to 9 and A to F |
| Numerals.CountDigits | src/kernel/printk/printk.c:39-47 | the counting loop gives the length of the numeral |
| Numerals.FillDigits | src/kernel/printk/printk.c:50-58 | filling backwards writes every place of the buffer before the terminator, and the terminator stays |
| Numerals.PrintUnsigned | src/kernel/printk/printk.c:29-65 | print_int_u32 and print_int_u64 print the numeral |
| Numerals.PrintSigned | src/kernel/printk/printk.c:69-97 | print_int_32 and print_int_64 print the sign and the numeral of every number of their width but the least |
| Numerals.PrintHex | src/kernel/printk/printk.c:163-251 | both hexadecimal printers print 0x and the numeral without leading zeros |
| Printk.EscapedPrintsItself | src/kernel/printk/printk.c:271-284 | any text with its percent signs doubled prints as itself, whatever follows |
| Printk.PrintsAsMeantIff | src/kernel/printk/printk.c:267-354 | a format built from escaped text and well-typed conversions prints what is meant if and only if no %s is directly followed by d or ld |
| Printk.ShowIff | src/kernel/printk/printk.c:291-341 | under its name each conversion shows: the number in decimal (d, ld, sd, sld), binary (b, lb) or with 0x in hexadecimal (x, lx), the character (c), the string (s) |
| Printk.RenderIff | src/kernel/printk/printk.c:260-355 | the output is the one text that consists of the format's text, each argument in the form its longest conversion name asks for, and, from a percent sign without a name on, all that is left |
| Printk.UnknownPrintsRest | src/kernel/printk/printk.c:343-353 | behind a percent sign that begins no conversion everything is printed as it stands, the sign included |
| Printk.StringThenD | src/kernel/printk/printk.c:306-310 | a string conversion followed by the text d takes its argument for a number |
| Printk.TextRun | src/kernel/printk/printk.c:271-284 | a run of text, which may begin with the second of two percent signs, is printed up to the next percent sign |
| Printk.Scan | src/kernel/printk/printk.c:289-344 | the chain of tests picks the longest conversion name that follows the percent sign |
| Printk.LongestIsLongest | src/kernel/printk/printk.c:289-344 | no conversion name that follows is longer than the one the tests pick |
| Printk.Convert | src/kernel/printk/printk.c:291-341 | each conversion prints its argument in the form its name asks for, told by the value its digits read back to |
| Printk.Directive | src/kernel/printk/printk.c:288-353 | a percent sign consumes one argument and its name, or prints all that is left when the name is unknown |
| Printk.Print | src/kernel/printk/printk.c:260-355 | the scanner terminates, and its output is what the format asks for: text, arguments in the form of their conversions, and the rest as it stands from an unknown one on |

## Left out

- KernelHeap.Heap.Malloc: requests so large that the new break passes 2^32 are excluded by a precondition; b_sbrk's (void*) -1 and k_sbrk's NULL are one value.
- KernelHeap.Heap.Morecore: the same requests are excluded, for which the sum in k_sbrk wraps.
- KernelHeap.Heap.Free: only for addresses of live blocks, as the code's comment demands; clients do not write to headers.
- HeapSpec.RunKeepsShape: requires `base` outside the pool and not at its end; what happens there is NodeSurvivesIff, and BootHeapOkIff says when it is so.
- PhysicalMemory.Pmm.FreeFrame: addresses in a gap below a region are excluded, for which the code computes a negative index.
- PhysicalMemory.Pmm.ReserveRegion: reservations that run past the end of their region are excluded, for which the code writes past the bitmap.
- PhysicalMemory.Pmm.GetFreeFrame: the list is a sequence, `next` of the last element being the first; regions lie below 4 GiB.
- MemoryMap.PmmInit: requires aligned, ascending, disjoint usable entries of which the first entry is one, a place found, and reservations that do not run over their region's end (for the bitmaps see BitmapClaimsLandIff); the placement search itself is modelled in all cases. Failure of the boot allocator is not modelled.
- SmpCalls.GetFreeFrameAlone: is about a call during which no other CPU moves; with others moving only safety and SearchFinds are stated.
- SmpFrames.RunIsSafe: memory is sequentially consistent and the search for an unset bit under the lock is one step; every frame is freed by the CPU that holds it; fairness and progress of the lock are not modelled.
- TlbRuns.HappenInStep: requires that no stale window page is cached where map_page creates a table.
- TlbRuns.RunThroughRefines: requires that no stale window page is cached where map_page creates a table; otherwise see StaleWindowMapsIff.
- PagingLaws.MapRefines: requires PROT_PRESENT, a page below the recursive window, and, where a table is created, a frame without present entries; what happens otherwise is NewTableIsHarmlessIff.
- PagingLaws.UnmapForeign: frames in a gap below a region are excluded, for which free_frame tests a bit of another bitmap.
- VirtualMemory.AddressSpace.UnmapPage: pages on frames in a gap below a region are excluded, and states in which a free would not reach the bitmaps; for mapped pages outside the bitmaps see UnmapSparesPool.
- VirtualMemory.AddressSpace.MapPage: requires that the allocator reaches its bitmaps; the directory is accessed in place rather than through its own kernel mapping; one CPU and one directory.
- HeapBringUp.KMallocInit: requires that the bitmaps and the page their last word reaches into are in place and clear of the heap range (PoolClearOfHeapIff; RemapDisplacesPool says what map_page does otherwise), that free frames read as blank, that no stale translation is cached on entry, and that existing tables serve a page outside the heap range (UnmappedRangeIsAnchored).
- MpTable.Smp.InitCpuData: tables that run past the end of memory are excluded; hyperthreading and the success of the boot allocator are parameters.
- Numerals.PrintSigned: the least number of each width is excluded, whose negation overflows.
- Printk.Print: the least 32-bit and 64-bit numbers are excluded, whose negation overflows, as are arguments of the wrong type and terminators inside strings; the lock, the console and halting after a panic message are not modelled.
- Access rights beyond the bits written into entries (MapWrites).
- k_zmalloc and b_zmalloc, which clear what the allocators return.
- The single-CPU branch of the spinlock, which disables interrupts.
- Hardware programming (PIC, PIT, local APIC, serial port, control registers, descriptor tables, boot assembly), consoles, command-line and memory-map parsing, and the string routines.
