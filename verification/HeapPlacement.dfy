/**
 Where boot leaves the bitmaps of the frame allocator, and whether the kernel heap, which starts at the next
 page behind the kernel and the size of the bitmaps, is mapped over them.
 */
module HeapPlacement {
  import opened Wrappers
  import opened FrameSpec
  import opened MemoryMap
  import opened BootMemory
  import opened BitmapPool
  import opened Paging
  import opened FrameBudget
  import opened PagingLaws
  import HeapSpec
  import HeapBringUp

  /** Pages that `n` bytes from address `start` on touch. */
  function PagesOf(start: nat, n: nat): nat
    requires n >= 1
  {
    (start + n - 1) / BLOCK_SIZE - start / BLOCK_SIZE + 1
  }

  /** The pages and frames of bitmaps of `size` bytes at physical address `start`, with words of `reach` bytes. */
  function PoolAt(start: nat, size: nat, reach: nat): Pool
    requires 1 <= size <= reach
  {
    Pool((start + KERNEL_OFFSET) / BLOCK_SIZE, start / BLOCK_SIZE, PagesOf(start, size), PagesOf(start, reach))
  }

  /** Bytes from the start of the pool to the end of the last word of the last bitmap. */
  ghost function PoolReach(mm: seq<MapEntry>): nat
    requires MapOk(mm)
  {
    LastOffset(mm) + WordBytes(Layout(mm)[|Layout(mm)| - 1])
  }

  /** Where pmm_init puts the bitmaps. */
  ghost function BootPool(mm: seq<MapEntry>, start: nat): Pool
    requires MapOk(mm) && 1 <= PoolSize(mm) <= PoolReach(mm)
  {
    PoolAt(start, PoolSize(mm), PoolReach(mm))
  }

  /** The pages of the pool cover all bitmaps; the words reach at most three bytes further. */
  lemma BootPoolCovers(mm: seq<MapEntry>, start: nat)
    requires MapOk(mm) && start % BLOCK_SIZE == 0
    ensures 1 <= PoolSize(mm) <= PoolReach(mm) <= PoolSize(mm) + 3
    ensures BootPool(mm, start).Covers(Layout(mm))
  {
    var rs := Layout(mm);
    forall i | 0 <= i < |rs|
      ensures rs[i].bitmap + rs[i].bitmapSize <= PoolSize(mm) && rs[i].bitmap + WordBytes(rs[i]) <= PoolReach(mm)
    {
      BitmapWithin(mm, i);
    }
    BitmapWithin(mm, |rs| - 1);
    PagesCover(start, PoolSize(mm));
    PagesCover(start, PoolReach(mm));
  }

  lemma BitmapWithin(mm: seq<MapEntry>, i: nat)
    requires MapOk(mm) && i < |Layout(mm)|
    ensures var r := Layout(mm)[i];
            && 1 <= r.bitmapSize && r.bitmap + r.bitmapSize <= PoolSize(mm) <= PoolReach(mm) <= PoolSize(mm) + 3
            && r.bitmap + WordBytes(r) <= PoolReach(mm)
  {
    var rs := Layout(mm);
    LayoutIsTight(mm);
    assert rs[i].Ok() && rs[|rs| - 1].Ok();
    if i < |rs| - 1 {
      assert Apart(rs[i], rs[|rs| - 1]);
    }
  }

  lemma PagesCover(start: nat, n: nat)
    requires n >= 1 && start % BLOCK_SIZE == 0
    ensures PagesOf(start, n) == PageRoundUp(n) / BLOCK_SIZE && n <= PagesOf(start, n) * BLOCK_SIZE
  {
  }

  /** First page of the kernel heap: kernel_virtual_end rounded up. */
  function HeapPage(kEnd: nat, size: nat): nat {
    PageRoundUp(kEnd + KERNEL_OFFSET + size) / BLOCK_SIZE
  }

  /**
   The heap is clear of the bitmaps if these went to the start of an entry.  If they went behind the kernel, it
   is so exactly when their words end on their last page, and they fill this page or reach beyond what rounding
   up the kernel's end skipped.
   */
  lemma PoolClearOfHeapIff(e: MapEntry, kStart: nat, kEnd: nat, size: nat, reach: nat)
    requires e.Aligned() && 0 < kStart < kEnd && 1 <= size <= reach <= size + 3 && Place(e, kStart, kEnd, size).Some?
    ensures HeapBringUp.ClearOf(PoolAt(Place(e, kStart, kEnd, size).value, size, reach), HeapPage(kEnd, size))
            <==> || PageRoundUp(e.base + size - 1) < Limit(e, kStart)
                 || (PageRoundUp(reach) == PageRoundUp(size)
                     && (size % BLOCK_SIZE == 0 || size % BLOCK_SIZE > PageRoundUp(kEnd) - kEnd))
  {
    if PageRoundUp(e.base + size - 1) < Limit(e, kStart) {
    } else {
      PoolBehindKernel(kEnd, size, reach);
    }
  }

  lemma PoolBehindKernel(kEnd: nat, size: nat, reach: nat)
    requires 1 <= size <= reach <= size + 3
    ensures HeapBringUp.ClearOf(PoolAt(PageRoundUp(kEnd), size, reach), HeapPage(kEnd, size))
            <==> PageRoundUp(reach) == PageRoundUp(size)
                 && (size % BLOCK_SIZE == 0 || size % BLOCK_SIZE > PageRoundUp(kEnd) - kEnd)
  {
    var p, gap := (PageRoundUp(kEnd) + KERNEL_OFFSET) / BLOCK_SIZE, PageRoundUp(kEnd) - kEnd;
    PagesCover(PageRoundUp(kEnd), reach);
    HeapPageFrom(kEnd, size, p, gap);
    GapSkipped(size, reach, gap);
  }

  lemma GapSkipped(size: nat, reach: nat, gap: nat)
    requires 1 <= size <= reach <= size + 3 && gap < BLOCK_SIZE
    ensures PageRoundUp(reach) / BLOCK_SIZE <= (size - gap + BLOCK_SIZE - 1) / BLOCK_SIZE
            <==> PageRoundUp(reach) == PageRoundUp(size) && (size % BLOCK_SIZE == 0 || size % BLOCK_SIZE > gap)
  {
  }

  /** The heap starts at page `p` behind the kernel plus what `size` takes beyond the `gap` before that page. */
  lemma HeapPageFrom(kEnd: nat, size: nat, p: nat, gap: nat)
    requires p * BLOCK_SIZE == PageRoundUp(kEnd) + KERNEL_OFFSET && gap == PageRoundUp(kEnd) - kEnd
    ensures HeapPage(kEnd, size) == p + (size - gap + BLOCK_SIZE - 1) / BLOCK_SIZE
  {
  }

  /** The heap goes to page `page` at this boot, although the pool has this page. */
  ghost predicate HeapMeetsPool(mm: seq<MapEntry>, kStart: nat, kEnd: nat, page: nat) {
    && MapOk(mm) && LOW_MEMORY <= kStart < kEnd && 1 <= PoolSize(mm) <= PoolReach(mm)
    && var start := FirstPlace(mm, kStart, kEnd, PoolSize(mm));
       && start.Some? && page == HeapPage(kEnd, PoolSize(mm))
       && BootPool(mm, start.value).Has(page) && !HeapBringUp.ClearOf(BootPool(mm, start.value), page)
  }

  /** A PC with 64 MB: the first page of the heap is the page of the bitmaps. */
  lemma HeapOverPool() returns (mm: seq<MapEntry>, kStart: nat, kEnd: nat, page: nat)
    ensures HeapMeetsPool(mm, kStart, kEnd, page)
    ensures page == BootPool(mm, FirstPlace(mm, kStart, kEnd, PoolSize(mm)).value).page
  {
    var high := MapEntry(0x10_0000, 0x3F0_0000, Available);
    mm, kStart, kEnd := [LOW, high], 0x10_0000, 0x11_F800;
    page := HeapPage(kEnd, 2036);
    LayoutOfTwo(LOW, high);
    FirstPlaceIs(mm, kStart, kEnd, PoolSize(mm), 1);
    BootPoolCovers(mm, 0);
  }

  /** A map for which the first page of the heap is clear of the bitmaps, but not of their last word. */
  lemma HeapBehindPool() returns (mm: seq<MapEntry>, kStart: nat, kEnd: nat, page: nat)
    ensures HeapMeetsPool(mm, kStart, kEnd, page)
    ensures var pool := BootPool(mm, FirstPlace(mm, kStart, kEnd, PoolSize(mm)).value); page == pool.page + pool.pages
  {
    var low, high := MapEntry(0, 0xA_1000, Available), MapEntry(0x10_0000, 0x7F5_8000, Available);
    mm, kStart, kEnd := [low, high], 0x10_0000, 0x12_0000;
    page := HeapPage(kEnd, 4096);
    LayoutOfTwo(low, high);
    FirstPlaceIs(mm, kStart, kEnd, PoolSize(mm), 1);
    BootPoolCovers(mm, 0);
  }

  ghost predicate FrameTaken(used: set<nat>, pool: Pool, k: nat) {
    pool.frame + k in used
  }

  /** After pmm_init the frames of the pool are in use exactly when each of its bytes is in a claimed block. */
  lemma PoolFramesTakenIff(mm: seq<MapEntry>, mem: seq<bool>, plan: seq<Claim>, i: nat, start: nat)
    requires MapOk(mm) && |mem| == 8 * (PoolSize(mm) + 3) && MarksExactly(Layout(mm), mem, plan)
    requires 1 <= PoolSize(mm) <= PoolReach(mm)
    requires i < |mm| && mm[i].Usable() && mm[i].base <= start && start + PoolSize(mm) <= mm[i].End()
             && start % BLOCK_SIZE == 0
    ensures var pool := BootPool(mm, start);
            (forall k: nat :: k < pool.pages ==> FrameTaken(UsedFrames(Layout(mm), mem), pool, k))
            <==> forall a :: start <= a < start + PoolSize(mm) ==> Claimed(plan, a / BLOCK_SIZE)
  {
    var pool, used := BootPool(mm, start), UsedFrames(Layout(mm), mem);
    if forall k: nat :: k < pool.pages ==> FrameTaken(used, pool, k) {
      forall a | start <= a < start + PoolSize(mm) ensures Claimed(plan, a / BLOCK_SIZE) {
        UsedIffClaimed(mm, mem, plan, i, a);
        var k: nat := a / BLOCK_SIZE - pool.frame;
        assert FrameTaken(used, pool, k) && pool.frame + k == a / BLOCK_SIZE;
      }
    }
    if forall a :: start <= a < start + PoolSize(mm) ==> Claimed(plan, a / BLOCK_SIZE) {
      forall k: nat | k < pool.pages ensures FrameTaken(used, pool, k) {
        var a := (pool.frame + k) * BLOCK_SIZE;
        assert start <= a < start + PoolSize(mm) && a / BLOCK_SIZE == pool.frame + k;
        UsedIffClaimed(mm, mem, plan, i, a);
      }
    }
  }

  // ---------------------------------------------------------------- the heap on its pages

  /**
   Where k_malloc_init succeeded, every byte of the pool of the kernel heap has a byte of physical memory, which
   belonged to no one before, and no two of them have the same.
   */
  lemma HeapIsMemory(rs: seq<Region>, cr3: FrameNo, s0: Vm, s: Vm, owned: map<int, FrameNo>, heapBrk: int, base: int,
                     a: int, b: int)
    requires 0 <= heapBrk && heapBrk % PAGE_SIZE == 0 && heapBrk / PAGE_SIZE + HeapBringUp.HEAP_PAGES <= SELF * ENTRIES
    requires HeapBringUp.Succeeded(rs, cr3, s0, s, owned, heapBrk / PAGE_SIZE)
    requires var cfg := HeapSpec.KernelConfig(base, heapBrk); cfg.lo <= a < cfg.end && cfg.lo <= b < cfg.end
    ensures Translate(s.ram, cr3, a).Some? && IsFree(rs, s0, Translate(s.ram, cr3, a).value / PAGE_SIZE)
    ensures a != b ==> Translate(s.ram, cr3, a) != Translate(s.ram, cr3, b)
  {
    var h, p, q := heapBrk / PAGE_SIZE, a / PAGE_SIZE, b / PAGE_SIZE;
    PageInRange(heapBrk, h, base, a, p);
    PageInRange(heapBrk, h, base, b, q);
    HeapPageOwned(rs, cr3, s0, s, owned, h, p);
    HeapPageOwned(rs, cr3, s0, s, owned, h, q);
    ByteOfPage(s.ram, cr3, a, p, owned[p]);
    ByteOfPage(s.ram, cr3, b, q, owned[q]);
    OwnByte(owned[p], owned[q], a, b);
  }

  lemma PageInRange(heapBrk: int, h: int, base: int, a: int, p: int)
    requires heapBrk == h * PAGE_SIZE && p == a / PAGE_SIZE
    requires HeapSpec.KernelConfig(base, heapBrk).lo <= a < HeapSpec.KernelConfig(base, heapBrk).end
    ensures h <= p < h + HeapBringUp.HEAP_PAGES
  {
  }

  /** A page of the heap range has a frame of its own. */
  lemma HeapPageOwned(rs: seq<Region>, cr3: FrameNo, s0: Vm, s: Vm, owned: map<int, FrameNo>, h: int, p: int)
    requires HeapBringUp.Succeeded(rs, cr3, s0, s, owned, h)
    requires 0 <= h && h + HeapBringUp.HEAP_PAGES <= SELF * ENTRIES && h <= p < h + HeapBringUp.HEAP_PAGES
    ensures p in owned && IsPage(p) && IsFree(rs, s0, owned[p]) && Walk(s.ram, cr3, p) == Some(owned[p])
    ensures forall q :: q in owned && q != p ==> owned[q] != owned[p]
  {
    LowDir(p);
  }

  lemma ByteOfPage(m: Ram, cr3: FrameNo, a: int, p: int, f: FrameNo)
    requires IsPage(p) && p == a / PAGE_SIZE && Walk(m, cr3, p) == Some(f)
    ensures 0 <= a < PAGES * PAGE_SIZE && Translate(m, cr3, a) == Some(f * PAGE_SIZE + a % PAGE_SIZE)
  {
  }

  /** An offset in a page and a frame make a physical address of their own. */
  lemma OwnByte(f: FrameNo, g: FrameNo, a: int, b: int)
    ensures (f * PAGE_SIZE + a % PAGE_SIZE) / PAGE_SIZE == f
    ensures f * PAGE_SIZE + a % PAGE_SIZE == g * PAGE_SIZE + b % PAGE_SIZE ==> f == g && a % PAGE_SIZE == b % PAGE_SIZE
  {
  }
}
