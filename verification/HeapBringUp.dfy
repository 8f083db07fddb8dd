/**
 k_malloc_init: the heap's pages are backed one by one with frames from the physical memory
 manager; when one step fails, the pages mapped so far are unmapped again.
 */
module HeapBringUp {
  import opened Wrappers
  import opened FrameSpec
  import opened Paging
  import opened PagingLaws
  import opened PhysicalMemory
  import opened BitmapPool
  import opened VirtualMemory
  import opened FrameBudget
  import MemoryMap

  const KERNEL_HEAP_SIZE := 0x400_0000
  const HEAP_PAGES := KERNEL_HEAP_SIZE / PAGE_SIZE

  /** PROT_PRESENT | PROT_KERN | PROT_READ_WRITE */
  const HEAP_FLAGS := 0x3

  /** Frames that may become tables read as all zero. */
  ghost predicate FreeFramesBlank(rs: seq<Region>, s: Vm)
    requires Sane(rs, s)
  {
    forall f: FrameNo :: IsFree(rs, s, f) ==> Empty(s.ram[f])
  }

  predicate Between(q: int, lo: int, hi: int) {
    lo <= q < hi
  }

  ghost function Range(lo: int, hi: int): set<int> {
    set q | lo <= q < hi && Between(q, lo, hi)
  }

  /** Every table of `m` serves a mapped page outside [lo, hi). */
  ghost predicate AnchoredOutside(m: Ram, cr3: FrameNo, lo: int, hi: int) {
    forall d :: HasTable(m, cr3, d) ==> Anchored(m, cr3, d, Range(lo, hi))
  }

  /** That holds in particular when no page of the range is mapped. */
  lemma UnmappedRangeIsAnchored(rs: seq<Region>, cr3: FrameNo, s: Vm, lo: int, hi: int)
    requires Inv(rs, cr3, s) && forall q :: lo <= q < hi && IsPage(q) ==> Walk(s.ram, cr3, q).None?
    ensures AnchoredOutside(s.ram, cr3, lo, hi)
  {
    forall d | HasTable(s.ram, cr3, d) ensures Anchored(s.ram, cr3, d, Range(lo, hi)) {
      TableHasPage(rs, cr3, s, d);
      var q :| IsLow(q) && IsPage(q) && Dir(q) == d && q !in {} && Walk(s.ram, cr3, q).Some?;
      assert !(lo <= q < hi);
    }
  }

  // ---------------------------------------------------------------- the mapping loop

  /** Pages [h, h + i) are mapped on frames of their own. */
  ghost predicate MapProgress(rs: seq<Region>, cr3: FrameNo, s0: Vm, s: Vm, tlb: Tlb, owned: map<int, FrameNo>, h: int,
                              i: nat) {
    && Books(rs, cr3, s0, s, owned, {})
    && Owns(owned, h, h + i)
    && FreeFramesBlank(rs, s)
    && Stale(s.ram, cr3, tlb) == {}
    && KeepsHint(rs, s0, s)
  }

  ghost predicate KeepsHint(rs: seq<Region>, s0: Vm, s: Vm)
    requires Sane(rs, s0) && Sane(rs, s)
  {
    HintSound(rs, s0.frames) ==> HintSound(rs, s.frames)
  }

  lemma FreshWhenNoneStale(m: Ram, cr3: FrameNo, tlb: Tlb, p: int)
    requires IsPage(p) && Stale(m, cr3, tlb) == {}
    ensures WindowFresh(m, cr3, tlb, p)
  {
    if WindowPage(p) in tlb {
      assert WindowPage(p) !in Stale(m, cr3, tlb);
    }
  }

  lemma BlankAfterMap(rs: seq<Region>, cr3: FrameNo, s: Vm, a: Vm, s': Vm, p: int, f: FrameNo)
    requires Inv(rs, cr3, s) && Inv(rs, cr3, a) && FreeFramesBlank(rs, s) && a.ram == s.ram
             && InUse(rs, s) <= InUse(rs, a)
    requires IsLow(p) && Mapped(rs, cr3, a, s', p, f)
    ensures FreeFramesBlank(rs, s')
  {
    LowDir(p);
    assert TableOk(rs, cr3, s', Dir(p));
    forall g: FrameNo | IsFree(rs, s', g) ensures Empty(s'.ram[g]) {
      assert IsFree(rs, s, g) && g != cr3 && g != TableOf(s'.ram, cr3, Dir(p));
    }
  }

  /** map_page, called as the heap calls it, led from `a` and `tlb` to `s'` and `tlb'`. */
  ghost predicate Maps(rs: seq<Region>, cr3: FrameNo, a: Vm, tlb: Tlb, f: FrameNo, p: int, s': Vm, r: Outcome,
                       tlb': Tlb) {
    && Sane(rs, a) && IsPage(p)
    && (s', r) == MapThrough(rs, cr3, a, tlb, f, p, FlagsOf(HEAP_FLAGS), true)
    && tlb' == MapTlb(rs, cr3, a, tlb, p, FlagsOf(HEAP_FLAGS), r)
  }

  /** One round of the mapping loop, once a frame has been found and map_page has returned. */
  lemma MapIteration(rs: seq<Region>, cr3: FrameNo, s0: Vm, s: Vm, tlb: Tlb, owned: map<int, FrameNo>, h: int, i: nat,
                     p: int, f: FrameNo, a: Vm, s': Vm, r: Outcome, tlb': Tlb)
    requires MapProgress(rs, cr3, s0, s, tlb, owned, h, i) && p == h + i && IsLow(p) && IsPage(p)
             && NextFrame(rs, s) == Some(f)
    requires a == Give(rs, s) && Maps(rs, cr3, a, tlb, f, p, s', r, tlb')
    ensures r == Done ==> MapProgress(rs, cr3, s0, s', tlb', owned[p := f], h, i + 1)
    ensures r != Done ==> s' == a && NoTableLeft(rs, cr3, a, p) && Stale(s'.ram, cr3, tlb') == {}
  {
    TakeFrame(rs, cr3, s);
    TableWillBeBlank(rs, cr3, s, p);
    MapHeapPage(rs, cr3, a, tlb, f, p, s', r, tlb');
    AllocKeepsHintIf(rs, s.frames);
    MapKeepsHintIf(rs, cr3, a, tlb, f, p, s', r, tlb');
    if r == Done {
      MapDone(rs, cr3, s0, s, tlb, owned, h, i, p, f, a, s', tlb');
    }
  }

  lemma AllocKeepsHintIf(rs: seq<Region>, s: Frames)
    requires FrameSpec.Valid(rs, s)
    ensures FrameSpec.Valid(rs, Alloc(rs, s).0) && (HintSound(rs, s) ==> HintSound(rs, Alloc(rs, s).0))
  {
    AllocTakesOne(rs, s);
    if HintSound(rs, s) { AllocKeepsHint(rs, s); }
  }

  lemma MapKeepsHintIf(rs: seq<Region>, cr3: FrameNo, a: Vm, tlb: Tlb, f: FrameNo, p: int, s': Vm, r: Outcome,
                       tlb': Tlb)
    requires Maps(rs, cr3, a, tlb, f, p, s', r, tlb')
    ensures Sane(rs, s') && KeepsHint(rs, a, s')
  {
    AllocKeepsHintIf(rs, a.frames);
  }

  lemma MapDone(rs: seq<Region>, cr3: FrameNo, s0: Vm, s: Vm, tlb: Tlb, owned: map<int, FrameNo>, h: int, i: nat,
                p: int, f: FrameNo, a: Vm, s': Vm, tlb': Tlb)
    requires MapProgress(rs, cr3, s0, s, tlb, owned, h, i) && p == h + i && IsLow(p) && NextFrame(rs, s) == Some(f)
    requires a == s.(frames := Alloc(rs, s.frames).0) && Inv(rs, cr3, a) && InUse(rs, s) <= InUse(rs, a)
    requires Mapped(rs, cr3, a, s', p, f) && Stale(s'.ram, cr3, tlb') == {} && KeepsHint(rs, s, s')
    ensures MapProgress(rs, cr3, s0, s', tlb', owned[p := f], h, i + 1)
  {
    BooksAfterMap(rs, cr3, s0, s, owned, {}, a, s', p, f);
    BlankAfterMap(rs, cr3, s, a, s', p, f);
    OwnsMore(owned, h, p, f);
  }

  lemma OwnsMore(owned: map<int, FrameNo>, lo: int, hi: int, f: FrameNo)
    requires Owns(owned, lo, hi) && lo <= hi
    ensures Owns(owned[hi := f], lo, hi + 1)
  {
  }

  lemma TableWillBeBlank(rs: seq<Region>, cr3: FrameNo, s: Vm, p: int)
    requires Inv(rs, cr3, s) && FreeFramesBlank(rs, s) && NextFrame(rs, s).Some? && IsLow(p)
    ensures Sane(rs, Give(rs, s)) && TableReady(rs, cr3, Give(rs, s), p)
  {
    TakeFrame(rs, cr3, s);
    var a := Give(rs, s);
    if NextFrame(rs, a).Some? {
      NextFrameTakes(rs, a);
      assert IsFree(rs, s, NextFrame(rs, a).value);
    }
  }

  /** Page `p` needs a table and no frame is left for one. */
  ghost predicate NoTableLeft(rs: seq<Region>, cr3: FrameNo, s: Vm, p: int) {
    IsPage(p) && Sane(rs, s) && !HasTable(s.ram, cr3, Dir(p)) && NextFrame(rs, s).None?
  }

  /** map_page as the heap calls it: it ends well or changes nothing, and leaves no stale translation. */
  lemma MapHeapPage(rs: seq<Region>, cr3: FrameNo, a: Vm, tlb: Tlb, f: FrameNo, p: int, s': Vm, r: Outcome, tlb': Tlb)
    requires Inv(rs, cr3, a) && IsLow(p) && IsPage(p) && TableReady(rs, cr3, a, p) && Stale(a.ram, cr3, tlb) == {}
    requires Maps(rs, cr3, a, tlb, f, p, s', r, tlb')
    ensures r == Done ==> Mapped(rs, cr3, a, s', p, f)
    ensures r != Done ==> s' == a && NoTableLeft(rs, cr3, a, p)
    ensures Stale(s'.ram, cr3, tlb') == {}
  {
    var g := FlagsOf(HEAP_FLAGS);
    FreshWhenNoneStale(a.ram, cr3, tlb, p);
    MapThroughIsMap(rs, cr3, a, tlb, f, p, g, true);
    MapRefines(rs, cr3, a, f, p, g, true);
    MapKeepsTlb(rs, cr3, a, tlb, f, p, g, true);
  }

  // ---------------------------------------------------------------- the bitmaps meanwhile

  /** The heap's pages are none of the pages that hold the bitmaps. */
  predicate ClearOf(pool: Pool, h: int) {
    pool.page + pool.span <= h || h + HEAP_PAGES <= pool.page
  }

  lemma PoolWhileMapping(rs: seq<Region>, cr3: FrameNo, s0: Vm, s: Vm, tlb: Tlb, owned: map<int, FrameNo>, h: int,
                         i: nat, pool: Pool)
    requires MapProgress(rs, cr3, s0, s, tlb, owned, h, i) && i <= HEAP_PAGES && InPlace(rs, cr3, s0, pool)
             && ClearOf(pool, h)
    ensures InPlace(rs, cr3, s, pool) && PoolReached(s.ram, cr3, tlb, pool)
  {
    PoolStays(rs, cr3, s0, s, owned, {}, pool);
    InPlaceIsReached(rs, cr3, s, tlb, pool);
  }

  lemma PoolWhileRolling(rs: seq<Region>, cr3: FrameNo, s0: Vm, s: Vm, tlb: Tlb, owned: map<int, FrameNo>, h: int,
                         k: nat, n: nat, pool: Pool)
    requires RollProgress(rs, cr3, s0, s, tlb, owned, h, k, n) && k <= n <= HEAP_PAGES && InPlace(rs, cr3, s0, pool)
             && ClearOf(pool, h)
    ensures InPlace(rs, cr3, s, pool)
  {
    forall p | pool.Has(p) ensures p !in owned && p !in Range(h, h + k) {
    }
    PoolStays(rs, cr3, s0, s, owned, Range(h, h + k), pool);
  }

  // ---------------------------------------------------------------- the rollback loop

  /** Pages [h, h + k) are unmapped again, [h + k, h + n) are still mapped. */
  ghost predicate RollProgress(rs: seq<Region>, cr3: FrameNo, s0: Vm, s: Vm, tlb: Tlb, owned: map<int, FrameNo>, h: int,
                               k: nat, n: nat) {
    RolledTo(rs, cr3, s0, s, tlb, owned, h, h + k, h + n)
  }

  /** The pages below `p` are unmapped again, those from `p` to `hi` are still owned. */
  ghost predicate RolledTo(rs: seq<Region>, cr3: FrameNo, s0: Vm, s: Vm, tlb: Tlb, owned: map<int, FrameNo>, h: int,
                           p: int, hi: int) {
    && Books(rs, cr3, s0, s, owned, Range(h, p))
    && Owns(owned, p, hi)
    && StaleOnlyReleased(s.ram, cr3, tlb)
  }

  lemma InUseSupported(rs: seq<Region>, s: Vm, f: FrameNo)
    requires Sane(rs, s) && f in InUse(rs, s)
    ensures Supported(rs, f)
  {
    TakenIff(rs, s, f);
  }

  /** unmap_page may be called on an owned page: the frames it frees are managed. */
  lemma OwnedIsReleasable(rs: seq<Region>, cr3: FrameNo, s0: Vm, s: Vm, tlb: Tlb, owned: map<int, FrameNo>,
                          gone: set<int>, p: int)
    requires Books(rs, cr3, s0, s, owned, gone) && p in owned && IsPage(p) && StaleOnlyReleased(s.ram, cr3, tlb)
    ensures IsLow(p) && Walk(s.ram, cr3, p) == Some(owned[p]) && PlainFrame(rs, cr3, s, owned[p])
    ensures WindowFresh(s.ram, cr3, tlb, p) && Releasable(rs, cr3, s.ram, tlb, p)
  {
    LowDir(p);
    OwnedIsPlain(rs, cr3, s0, s, owned, gone, p);
    FreshWhenMapped(rs, cr3, s, tlb, p);
    WindowWalk(s.ram, cr3, p);
    assert HasTable(s.ram, cr3, Dir(p)) && TableOk(rs, cr3, s, Dir(p));
    InUseSupported(rs, s, owned[p]);
    InUseSupported(rs, s, TableOf(s.ram, cr3, Dir(p)));
  }

  /** Before a round of the rollback loop. */
  lemma RollAllowed(rs: seq<Region>, cr3: FrameNo, s0: Vm, s: Vm, tlb: Tlb, owned: map<int, FrameNo>, h: int, k: nat,
                    n: nat, p: int, pool: Pool)
    requires RollProgress(rs, cr3, s0, s, tlb, owned, h, k, n) && k < n <= HEAP_PAGES && p == h + k && IsPage(p)
    requires InPlace(rs, cr3, s0, pool) && ClearOf(pool, h)
    ensures Sane(rs, s) && Releasable(rs, cr3, s.ram, tlb, p) && SparesPool(s.ram, cr3, tlb, p, pool)
  {
    OwnedIsReleasable(rs, cr3, s0, s, tlb, owned, Range(h, p), p);
    PoolWhileRolling(rs, cr3, s0, s, tlb, owned, h, k, n, pool);
    assert !pool.Has(p);
    UnmapSparesPool(rs, cr3, s, tlb, p, pool);
  }

  /** After a round of the rollback loop. */
  lemma RollIteration(rs: seq<Region>, cr3: FrameNo, s0: Vm, s: Vm, tlb: Tlb, owned: map<int, FrameNo>, h: int, k: nat,
                      n: nat, p: int, s': Vm, r: Outcome, tlb': Tlb)
    requires RollProgress(rs, cr3, s0, s, tlb, owned, h, k, n) && k < n <= HEAP_PAGES && p == h + k && IsPage(p)
    requires SlotsStay(s0.ram, cr3, h)
    requires Sane(rs, s) && (s', r) == UnmapThrough(rs, cr3, s, tlb, p) && tlb' == UnmapTlb(cr3, s.ram, tlb, p, r)
    ensures r == Done && RollProgress(rs, cr3, s0, s', tlb', owned - {p}, h, k + 1, n)
  {
    assert SlotStays(s0.ram, cr3, h, p);
    assert RolledTo(rs, cr3, s0, s, tlb, owned, h, p, h + n);
    RollBooks(rs, cr3, s0, s, tlb, owned, h, p, h + n, s', r, tlb');
    assert h + (k + 1) == p + 1;
  }

  lemma RollBooks(rs: seq<Region>, cr3: FrameNo, s0: Vm, s: Vm, tlb: Tlb, owned: map<int, FrameNo>, h: int, p: int,
                  hi: int, s': Vm, r: Outcome, tlb': Tlb)
    requires RolledTo(rs, cr3, s0, s, tlb, owned, h, p, hi) && h <= p < hi && IsPage(p) && SlotStays(s0.ram, cr3, h, p)
    requires (s', r) == UnmapThrough(rs, cr3, s, tlb, p) && tlb' == UnmapTlb(cr3, s.ram, tlb, p, r)
    ensures r == Done && RolledTo(rs, cr3, s0, s', tlb', owned - {p}, h, p + 1, hi)
  {
    OwnedIsReleasable(rs, cr3, s0, s, tlb, owned, Range(h, p), p);
    UnmapPlainPage(rs, cr3, s, tlb, p, s', r, tlb');
    BooksAfterUnmap(rs, cr3, s0, s, owned, Range(h, p), s', p);
    RangeGrows(h, p);
  }

  lemma RangeGrows(h: int, p: int)
    requires h <= p
    ensures Range(h, p) + {p} == Range(h, p + 1)
  {
    assert Between(p, h, p + 1);
    assert forall q :: Between(q, h, p) ==> Between(q, h, p + 1);
  }

  /** Rolling back up to page `p` releases no table that was there at the start. */
  ghost predicate SlotStays(m: Ram, cr3: FrameNo, h: int, p: int)
    requires IsPage(p)
  {
    HasTable(m, cr3, Dir(p)) ==> Anchored(m, cr3, Dir(p), Range(h, p) + {p})
  }

  ghost predicate SlotsStay(m: Ram, cr3: FrameNo, h: int) {
    forall p :: IsPage(p) && h <= p < h + HEAP_PAGES ==> SlotStays(m, cr3, h, p)
  }

  lemma AnchorsHold(m: Ram, cr3: FrameNo, h: int)
    requires AnchoredOutside(m, cr3, h, h + HEAP_PAGES)
    ensures SlotsStay(m, cr3, h)
  {
    var hi := h + HEAP_PAGES;
    forall p | IsPage(p) && h <= p < hi && HasTable(m, cr3, Dir(p)) ensures SlotStays(m, cr3, h, p) {
      var q :| IsLow(q) && IsPage(q) && Dir(q) == Dir(p) && q !in Range(h, hi) && Walk(m, cr3, q).Some?;
      assert Between(q, h, p) ==> Between(q, h, hi);
      assert Between(q, h, hi) || q < h || hi <= q;
    }
  }

  /** A frame taken and not mapped: the books balance against a start at which it was taken already. */
  lemma Rebase(rs: seq<Region>, cr3: FrameNo, s0: Vm, s: Vm, owned: map<int, FrameNo>, f: FrameNo) returns (s1: Vm)
    requires Books(rs, cr3, s0, s, owned, {}) && NextFrame(rs, s) == Some(f)
    ensures s1.ram == s0.ram && Sane(rs, s1) && InUse(rs, s1) == InUse(rs, s0) + {f as nat}
    ensures Sane(rs, Give(rs, s)) && Books(rs, cr3, s1, Give(rs, s), owned, {})
    ensures IsFree(rs, s0, f)
  {
    TakeFrame(rs, cr3, s);
    assert IsFree(rs, s0, f);
    s1 := Marked(rs, s0, f);
    var a := Give(rs, s);
    SameBooksLater(rs, cr3, s0, s1, f);
    forall q <- owned ensures IsLow(q) && IsFree(rs, s1, owned[q]) {
      assert owned[q] as nat in FramesOf(owned);
    }
    assert NewTables(s1.ram, a.ram, cr3) == NewTables(s0.ram, s.ram, cr3);
  }

  lemma Marked(rs: seq<Region>, s: Vm, f: FrameNo) returns (s1: Vm)
    requires Sane(rs, s) && IsFree(rs, s, f)
    ensures s1.ram == s.ram && Sane(rs, s1) && InUse(rs, s1) == InUse(rs, s) + {f as nat}
  {
    var i, b :| 0 <= i < |rs| && 0 <= b < rs[i].totalBlocks && rs[i].Address(b) / BLOCK_SIZE == f;
    UsedFramesAfterWrite(rs, s.frames.mem, i, b, true);
    s1 := s.(frames := s.frames.(mem := s.frames.mem[rs[i].Pos(b) := true]));
  }

  lemma SameBooksLater(rs: seq<Region>, cr3: FrameNo, s0: Vm, s1: Vm, f: FrameNo)
    requires Inv(rs, cr3, s0) && IsFree(rs, s0, f)
    requires s1.ram == s0.ram && Sane(rs, s1) && InUse(rs, s1) == InUse(rs, s0) + {f as nat}
    ensures Inv(rs, cr3, s1)
  {
    forall d | HasTable(s1.ram, cr3, d) ensures TableOk(rs, cr3, s1, d) {
      assert TableOk(rs, cr3, s0, d);
    }
  }

  /** The pages of the heap are present and writable, for the kernel only. */
  lemma HeapEntryWord(f: FrameNo)
    ensures Word(PageEntry(f, FlagsOf(HEAP_FLAGS))) == 4096 * f + 3
  {
    PageWord(f, HEAP_FLAGS);
  }

  // ---------------------------------------------------------------- the code

  /** How memory must look before the call. */
  ghost predicate ReadyState(rs: seq<Region>, cr3: FrameNo, s: Vm, tlb: Tlb, h: int, pool: Pool) {
    && Inv(rs, cr3, s)
    && FreeFramesBlank(rs, s)
    && Stale(s.ram, cr3, tlb) == {}
    && 0 <= h && h + HEAP_PAGES <= SELF * ENTRIES
    && AnchoredOutside(s.ram, cr3, h, h + HEAP_PAGES)
    && InPlace(rs, cr3, s, pool) && ClearOf(pool, h)
  }

  ghost predicate Ready(space: AddressSpace, h: int)
    reads space, space.pmm, space.pmm.mem
  {
    space.Valid() && ReadyState(space.pmm.regions, space.cr3, space.View(), space.tlb, h, space.pool)
  }

  /** Success: every heap page has a frame of its own that was free before; nothing else changed but new tables. */
  ghost predicate Succeeded(rs: seq<Region>, cr3: FrameNo, s0: Vm, s: Vm, owned: map<int, FrameNo>, h: int) {
    Books(rs, cr3, s0, s, owned, {}) && Owns(owned, h, h + HEAP_PAGES)
  }

  /** Failure after `n` pages: those are unmapped, all else is as before, and only `lost` stays taken. */
  ghost predicate RolledBack(rs: seq<Region>, cr3: FrameNo, s0: Vm, s: Vm, h: int, n: nat, lost: set<nat>) {
    && Sane(rs, s0) && Sane(rs, s)
    && n < HEAP_PAGES
    && (forall q :: IsLow(q) ==> Walk(s.ram, cr3, q) == if h <= q < h + n then None else Walk(s0.ram, cr3, q))
    && (forall d :: HasTable(s.ram, cr3, d) <==> HasTable(s0.ram, cr3, d))
    && (forall d :: HasTable(s.ram, cr3, d) ==> TableOf(s.ram, cr3, d) == TableOf(s0.ram, cr3, d))
    && InUse(rs, s) == InUse(rs, s0) + lost
  }

  /**
   Why the mapping loop stopped after `n` pages, in state `at`: no frame was left for page `n`,
   or one was, which is then lost, but none for the table this page needs.
   */
  ghost predicate StoppedAt(rs: seq<Region>, cr3: FrameNo, s0: Vm, at: Vm, owned: map<int, FrameNo>, h: int, n: nat,
                            lost: set<nat>) {
    && Books(rs, cr3, s0, at, owned, {}) && Owns(owned, h, h + n) && KeepsHint(rs, s0, at)
    && match NextFrame(rs, at)
       case None => lost == {}
       case Some(f) => lost == {f as nat} && IsFree(rs, s0, f) && NoTableLeft(rs, cr3, Give(rs, at), h + n)
  }

  /** `s1` is `s0` with the frames in `lost` taken. */
  ghost predicate RebasedAt(rs: seq<Region>, s0: Vm, s1: Vm, lost: set<nat>) {
    Sane(rs, s0) && Sane(rs, s1) && s1.ram == s0.ram && InUse(rs, s1) == InUse(rs, s0) + lost
  }

  /** The mapping loop gives up; the rollback is reckoned from `s1`, where a lost frame was taken already. */
  lemma Stop(rs: seq<Region>, cr3: FrameNo, s0: Vm, s: Vm, tlb: Tlb, owned: map<int, FrameNo>, h: int, i: nat, p: int,
             turn: Turn)
    returns (s1: Vm, lost: set<nat>)
    requires MapProgress(rs, cr3, s0, s, tlb, owned, h, i) && p == h + i
    requires Backed(rs, cr3, s0, s, owned, h, i, p, turn) && turn.outcome != Done
    ensures RebasedAt(rs, s0, s1, lost)
    ensures RollProgress(rs, cr3, s1, turn.vm, turn.tlb, owned, h, 0, i)
    ensures StoppedAt(rs, cr3, s0, s, owned, h, i, lost)
  {
    BackedStops(rs, cr3, s0, s, owned, h, i, p, turn);
    s1, lost := GiveUp(rs, cr3, s0, s, turn.vm, turn.tlb, owned, h, i);
  }

  lemma BackedStops(rs: seq<Region>, cr3: FrameNo, s0: Vm, s: Vm, owned: map<int, FrameNo>, h: int, i: nat, p: int,
                    turn: Turn)
    requires Backed(rs, cr3, s0, s, owned, h, i, p, turn) && turn.outcome != Done && p == h + i
    ensures Stale(turn.vm.ram, cr3, turn.tlb) == {} && GivesUp(rs, cr3, s, turn.vm, h + i)
  {
  }

  /** No frame is left for page `p`, or one is taken and none is left for the table the page needs. */
  ghost predicate GivesUp(rs: seq<Region>, cr3: FrameNo, s: Vm, s': Vm, p: int)
    requires Sane(rs, s)
  {
    if NextFrame(rs, s).None? then s' == s else s' == Give(rs, s) && NoTableLeft(rs, cr3, s', p)
  }

  lemma GiveUp(rs: seq<Region>, cr3: FrameNo, s0: Vm, s: Vm, s': Vm, tlb: Tlb, owned: map<int, FrameNo>, h: int, i: nat)
    returns (s1: Vm, lost: set<nat>)
    requires Books(rs, cr3, s0, s, owned, {}) && Owns(owned, h, h + i) && KeepsHint(rs, s0, s)
             && Stale(s'.ram, cr3, tlb) == {}
    requires GivesUp(rs, cr3, s, s', h + i)
    ensures RebasedAt(rs, s0, s1, lost)
    ensures RollProgress(rs, cr3, s1, s', tlb, owned, h, 0, i)
    ensures StoppedAt(rs, cr3, s0, s, owned, h, i, lost)
  {
    assert Range(h, h) == {};
    s1, lost := s0, {};
    if NextFrame(rs, s).Some? {
      s1 := Rebase(rs, cr3, s0, s, owned, NextFrame(rs, s).value);
      lost := {NextFrame(rs, s).value as nat};
    }
  }

  lemma OwnsNothing(owned: map<int, FrameNo>, p: int)
    requires Owns(owned, p, p)
    ensures owned == map[]
  {
    assert forall q :: q in owned ==> p <= q < p;
  }

  lemma RollDone(rs: seq<Region>, cr3: FrameNo, s0: Vm, s1: Vm, s: Vm, tlb: Tlb, owned: map<int, FrameNo>, h: int,
                 n: nat, lost: set<nat>)
    requires RollProgress(rs, cr3, s1, s, tlb, owned, h, n, n) && n < HEAP_PAGES
    requires RebasedAt(rs, s0, s1, lost)
    ensures RolledBack(rs, cr3, s0, s, h, n, lost)
  {
    OwnsNothing(owned, h + n);
    BooksClosed(rs, cr3, s1, s, Range(h, h + n));
  }

  datatype Turn = Turn(vm: Vm, tlb: Tlb, frame: int, outcome: Outcome)

  /** The two calls of one round: a frame is taken, if there is one, and map_page is called with it. */
  ghost function Round(rs: seq<Region>, cr3: FrameNo, s: Vm, tlb: Tlb, p: int): Turn
    requires Sane(rs, s) && IsPage(p)
  {
    match NextFrame(rs, s)
    case None => Turn(s, tlb, -1, Failed)
    case Some(f) =>
      var a := Give(rs, s);
      var (s', r) := MapThrough(rs, cr3, a, tlb, f, p, FlagsOf(HEAP_FLAGS), true);
      Turn(s', MapTlb(rs, cr3, a, tlb, p, FlagsOf(HEAP_FLAGS), r), f, r)
  }

  /**
   What that means for the loop: one more page is backed, or it stops for want of a frame, for the page or for its
   table.
   */
  ghost predicate Backed(rs: seq<Region>, cr3: FrameNo, s0: Vm, s: Vm, owned: map<int, FrameNo>, h: int, i: nat, p: int,
                         turn: Turn) {
    && Sane(rs, s)
    && (turn.outcome != Done ==> Stale(turn.vm.ram, cr3, turn.tlb) == {})
    && match NextFrame(rs, s)
       case None => turn.outcome != Done && turn.frame == -1 && turn.vm == s
       case Some(f) =>
         && turn.frame == f
         && (turn.outcome == Done ==> MapProgress(rs, cr3, s0, turn.vm, turn.tlb, owned[p := f], h, i + 1))
         && (turn.outcome != Done ==> turn.vm == Give(rs, s) && NoTableLeft(rs, cr3, turn.vm, p))
  }

  lemma RoundBacks(rs: seq<Region>, cr3: FrameNo, s0: Vm, s: Vm, tlb: Tlb, owned: map<int, FrameNo>, h: int, i: nat,
                   p: int, turn: Turn)
    requires MapProgress(rs, cr3, s0, s, tlb, owned, h, i) && 0 <= p == h + i < SELF * ENTRIES
             && turn == Round(rs, cr3, s, tlb, p)
    ensures Backed(rs, cr3, s0, s, owned, h, i, p, turn)
  {
    LowDir(p);
    if NextFrame(rs, s).Some? {
      MapIteration(rs, cr3, s0, s, tlb, owned, h, i, p, NextFrame(rs, s).value, Give(rs, s), turn.vm, turn.outcome,
          turn.tlb);
    }
  }

  /** Maps one page of the heap; `frame` is -1 when no frame was left, and otherwise the frame taken for the page. */
  method BackPage(space: AddressSpace, ghost s0: Vm, ghost owned: map<int, FrameNo>, ghost h: int, ghost i: nat,
                  ghost p: int, tmp: int)
    returns (ok: bool, frame: int, ghost turn: Turn)
    requires space.Valid() && 0 <= tmp == p * PAGE_SIZE && p == h + i < SELF * ENTRIES
    requires MapProgress(space.pmm.regions, space.cr3, s0, space.View(), space.tlb, owned, h, i)
    requires PoolReached(space.ram, space.cr3, space.tlb, space.pool)
    modifies space`ram, space`tlb, space.pmm, space.pmm.mem
    ensures space.Valid()
    ensures ok == (turn.outcome == Done) && frame == turn.frame && space.View() == turn.vm && space.tlb == turn.tlb
    ensures Backed(space.pmm.regions, space.cr3, s0, old(space.View()), owned, h, i, p, turn)
  {
    turn := Round(space.pmm.regions, space.cr3, space.View(), space.tlb, p);
    RoundBacks(space.pmm.regions, space.cr3, s0, space.View(), space.tlb, owned, h, i, p, turn);
    ok, frame := TakeAndMap(space, tmp, p, turn);
  }

  /** get_free_frame, and map_page with what it returned. */
  method TakeAndMap(space: AddressSpace, tmp: int, ghost p: int, ghost turn: Turn) returns (ok: bool, frame: int)
    requires space.Valid() && tmp == p * PAGE_SIZE && IsPage(p)
             && PoolReached(space.ram, space.cr3, space.tlb, space.pool)
    requires turn == Round(space.pmm.regions, space.cr3, space.View(), space.tlb, p)
    modifies space`ram, space`tlb, space.pmm, space.pmm.mem
    ensures space.Valid()
    ensures ok == (turn.outcome == Done) && frame == turn.frame && space.View() == turn.vm && space.tlb == turn.tlb
  {
    FrameBelow(space.pmm.regions, space.View());
    var got := space.GetFreeFrame();
    if got == NO_FRAME {
      return false, -1;
    }
    assert tmp / PAGE_SIZE == p;
    var outcome := space.MapPage(got, tmp, HEAP_FLAGS, true);
    return outcome == Done, got / PAGE_SIZE;
  }

  /** Unmaps one page of the heap. */
  method UnbackPage(space: AddressSpace, ghost s0: Vm, ghost owned: map<int, FrameNo>, ghost h: int, ghost k: nat,
                    ghost n: nat, ghost p: int, tmp: int)
    requires space.Valid() && 0 <= tmp == p * PAGE_SIZE && p == h + k < SELF * ENTRIES && k < n <= HEAP_PAGES
    requires RollProgress(space.pmm.regions, space.cr3, s0, space.View(), space.tlb, owned, h, k, n)
    requires SlotsStay(s0.ram, space.cr3, h) && InPlace(space.pmm.regions, space.cr3, s0, space.pool)
             && ClearOf(space.pool, h)
    modifies space`ram, space`tlb, space.pmm, space.pmm.mem
    ensures space.Valid()
    ensures RollProgress(space.pmm.regions, space.cr3, s0, space.View(), space.tlb, owned - {p}, h, k + 1, n)
  {
    ghost var rs, s, tlb := space.pmm.regions, space.View(), space.tlb;
    LowDir(p);
    assert tmp / PAGE_SIZE == p;
    RollAllowed(rs, space.cr3, s0, s, tlb, owned, h, k, n, p, space.pool);
    var r := space.UnmapPage(tmp);
    RollIteration(rs, space.cr3, s0, s, tlb, owned, h, k, n, p, space.View(), r, space.tlb);
  }

  /** Unmaps the `count` pages that were mapped from `heapBrk` on. */
  method Unback(space: AddressSpace, heapBrk: int, count: nat, ghost s0: Vm, ghost owned: map<int, FrameNo>)
    requires space.Valid() && 0 <= heapBrk && heapBrk % PAGE_SIZE == 0 && count <= HEAP_PAGES
    requires heapBrk / PAGE_SIZE + HEAP_PAGES <= SELF * ENTRIES
    requires var h := heapBrk / PAGE_SIZE;
             RollProgress(space.pmm.regions, space.cr3, s0, space.View(), space.tlb, owned, h, 0, count)
    requires SlotsStay(s0.ram, space.cr3, heapBrk / PAGE_SIZE)
    requires InPlace(space.pmm.regions, space.cr3, s0, space.pool) && ClearOf(space.pool, heapBrk / PAGE_SIZE)
    modifies space`ram, space`tlb, space.pmm, space.pmm.mem
    ensures space.Valid()
    ensures var h := heapBrk / PAGE_SIZE;
            RollProgress(space.pmm.regions, space.cr3, s0, space.View(), space.tlb, map[], h, count, count)
  {
    ghost var rs, cr3, h := space.pmm.regions, space.cr3, heapBrk / PAGE_SIZE;
    ghost var left := owned;
    var tmp := heapBrk;
    for k := 0 to count
      invariant space.Valid() && tmp == (h + k) * PAGE_SIZE
      invariant RollProgress(rs, cr3, s0, space.View(), space.tlb, left, h, k, count)
    {
      ghost var p := h + k;
      UnbackPage(space, s0, left, h, k, count, p, tmp);
      left := left - {p};
      tmp := tmp + PAGE_SIZE;
    }
    OwnsNothing(left, h + count);
  }

  /** The mapping loop; on failure the rollback can start, reckoned from `s1`. */
  method BackAll(space: AddressSpace, heapBrk: nat)
    returns (failed: bool, failedIdx: nat, ghost owned: map<int, FrameNo>, ghost s1: Vm, ghost lost: set<nat>,
             ghost at: Vm)
    requires heapBrk % PAGE_SIZE == 0 && Ready(space, heapBrk / PAGE_SIZE)
    modifies space`ram, space`tlb, space.pmm, space.pmm.mem
    ensures space.Valid()
    ensures var h := heapBrk / PAGE_SIZE;
            var s0 := old(space.View());
            !failed ==> MapProgress(space.pmm.regions, space.cr3, s0, space.View(), space.tlb, owned, h, HEAP_PAGES)
    ensures var h := heapBrk / PAGE_SIZE;
            failed ==>
              && failedIdx < HEAP_PAGES
              && RebasedAt(space.pmm.regions, old(space.View()), s1, lost)
              && RollProgress(space.pmm.regions, space.cr3, s1, space.View(), space.tlb, owned, h, 0, failedIdx)
              && StoppedAt(space.pmm.regions, space.cr3, old(space.View()), at, owned, h, failedIdx, lost)
  {
    ghost var rs, cr3, s0, h := space.pmm.regions, space.cr3, space.View(), heapBrk / PAGE_SIZE;
    owned, s1, lost, at := map[], s0, {}, s0;
    failed, failedIdx := false, 0;
    var tmp := heapBrk;
    for i := 0 to HEAP_PAGES
      invariant space.Valid() && tmp == (h + i) * PAGE_SIZE
      invariant MapProgress(rs, cr3, s0, space.View(), space.tlb, owned, h, i)
    {
      ghost var s, tlb, p := space.View(), space.tlb, h + i;
      PoolWhileMapping(rs, cr3, s0, s, tlb, owned, h, i, space.pool);
      var ok, frame;
      ghost var turn;
      ok, frame, turn := BackPage(space, s0, owned, h, i, p, tmp);
      if !ok {
        failed, failedIdx, at := true, i, s;
        s1, lost := Stop(rs, cr3, s0, s, tlb, owned, h, i, p, turn);
        return;
      }
      owned := owned[p := frame];
      tmp := tmp + PAGE_SIZE;
    }
  }

  /**
   The outcome can be read off the state on entry, if the allocator's hint is sound there: the heap is backed
   exactly when enough frames are free for its pages and the tables they need, and a frame is lost exactly
   when the last free frame goes to a page whose table would need one more.
   */
  ghost predicate Foretold(rs: seq<Region>, cr3: FrameNo, s0: Vm, h: int, r: int, lost: set<nat>) {
    Sane(rs, s0) && (HintSound(rs, s0.frames) ==>
      && (r == 0 <==> FreeCount(rs, s0) >= HEAP_PAGES + |NewSlots(s0.ram, cr3, h, HEAP_PAGES)|)
      && (lost != {} <==> LastFrameOpens(rs, cr3, s0, h)))
  }

  /** The last free frame goes to a page whose slot has no table. */
  ghost predicate LastFrameOpens(rs: seq<Region>, cr3: FrameNo, s: Vm, h: int)
    requires Sane(rs, s)
  {
    exists i: nat :: i < HEAP_PAGES && Opens(s.ram, cr3, h, i) && FreeCount(rs, s) == Need(s.ram, cr3, h, i) + 1
  }

  /** No free frame, or one. */
  lemma CountAtStop(rs: seq<Region>, s: Vm)
    requires Sane(rs, s) && HintSound(rs, s.frames)
    ensures NextFrame(rs, s).None? ==> FreeCount(rs, s) == 0
    ensures NextFrame(rs, s).Some? ==>
              Sane(rs, Give(rs, s)) && (NextFrame(rs, Give(rs, s)).None? ==> FreeCount(rs, s) == 1)
  {
    NoFrameIff(rs, s);
    if NextFrame(rs, s).Some? {
      GiveCounts(rs, s);
      NoFrameIff(rs, Give(rs, s));
    }
  }

  /** Why the loop stopped, in terms of the state on entry. */
  lemma StoppedShort(rs: seq<Region>, cr3: FrameNo, s0: Vm, at: Vm, owned: map<int, FrameNo>, h: int, n: nat, p: int,
                     lost: set<nat>)
    requires StoppedAt(rs, cr3, s0, at, owned, h, n, lost) && HintSound(rs, s0.frames)
    requires 0 <= h && p == h + n && p < SELF * ENTRIES
    ensures lost == {} ==> FreeCount(rs, at) == 0
    ensures lost != {} ==> FreeCount(rs, at) == 1 && Opens(s0.ram, cr3, h, n)
  {
    CountAtStop(rs, at);
    if NextFrame(rs, at).Some? {
      OpenedAt(rs, cr3, s0, at, owned, h, n, p);
    }
  }

  lemma OpenedAt(rs: seq<Region>, cr3: FrameNo, s0: Vm, at: Vm, owned: map<int, FrameNo>, h: int, n: nat, p: int)
    requires Books(rs, cr3, s0, at, owned, {}) && Owns(owned, h, h + n) && 0 <= h && p == h + n
             && 0 <= p < SELF * ENTRIES
    requires NoTableLeft(rs, cr3, Give(rs, at), h + n)
    ensures Opens(s0.ram, cr3, h, n)
  {
    LowDir(p);
    TableAtPage(rs, cr3, s0, at, owned, h, n, p);
  }

  lemma ForetellFailure(rs: seq<Region>, cr3: FrameNo, s0: Vm, at: Vm, owned: map<int, FrameNo>, h: int, n: nat,
                        lost: set<nat>)
    requires StoppedAt(rs, cr3, s0, at, owned, h, n, lost) && 0 <= h && h + HEAP_PAGES <= SELF * ENTRIES
             && n < HEAP_PAGES
    ensures Foretold(rs, cr3, s0, h, -1, lost)
  {
    if HintSound(rs, s0.frames) {
      BooksCount(rs, cr3, s0, at, owned, h, n);
      StoppedShort(rs, cr3, s0, at, owned, h, n, h + n, lost);
      ForetellFrom(rs, cr3, s0, h, n, lost);
    }
  }

  lemma ForetellFrom(rs: seq<Region>, cr3: FrameNo, s0: Vm, h: int, n: nat, lost: set<nat>)
    requires Sane(rs, s0) && 0 <= h && n < HEAP_PAGES
    requires if lost == {} then FreeCount(rs, s0) == Need(s0.ram, cr3, h, n)
             else Opens(s0.ram, cr3, h, n) && FreeCount(rs, s0) == Need(s0.ram, cr3, h, n) + 1
    ensures Foretold(rs, cr3, s0, h, -1, lost)
  {
    StopsIff(s0.ram, cr3, h, FreeCount(rs, s0), n, lost, HEAP_PAGES);
    NeedCounts(s0.ram, cr3, h, HEAP_PAGES);
  }

  lemma ForetellSuccess(rs: seq<Region>, cr3: FrameNo, s0: Vm, s: Vm, owned: map<int, FrameNo>, h: int)
    requires Succeeded(rs, cr3, s0, s, owned, h) && 0 <= h && h + HEAP_PAGES <= SELF * ENTRIES
    ensures Foretold(rs, cr3, s0, h, 0, {})
  {
    BooksCount(rs, cr3, s0, s, owned, h, HEAP_PAGES);
    NeverStops(s0.ram, cr3, h, FreeCount(rs, s0), HEAP_PAGES);
    NeedCounts(s0.ram, cr3, h, HEAP_PAGES);
  }

  lemma PoolAtEnd(rs: seq<Region>, cr3: FrameNo, s0: Vm, s1: Vm, s: Vm, tlb: Tlb, h: int, n: nat, lost: set<nat>,
                  pool: Pool)
    requires RebasedAt(rs, s0, s1, lost) && RollProgress(rs, cr3, s1, s, tlb, map[], h, n, n) && n <= HEAP_PAGES
    requires InPlace(rs, cr3, s0, pool) && ClearOf(pool, h)
    ensures InPlace(rs, cr3, s, pool)
  {
    PoolStaysWhenTaking(rs, cr3, s0, s1, pool);
    PoolWhileRolling(rs, cr3, s1, s, tlb, map[], h, n, n, pool);
  }

  /**
   Backs the heap with memory.  On failure `n` pages had been mapped and are unmapped again; the
   frames in `lost` stay taken: the frame for the failing page, when it was map_page that failed.
   */
  method KMallocInit(space: AddressSpace, kernelVirtualEnd: nat)
    returns (r: int, heapBrk: int, heapEnd: int, ghost owned: map<int, FrameNo>, ghost n: nat, ghost lost: set<nat>,
             ghost at: Vm)
    requires Ready(space, MemoryMap.PageRoundUp(kernelVirtualEnd) / PAGE_SIZE)
    modifies space`ram, space`tlb, space.pmm, space.pmm.mem
    ensures space.Valid() && (r == 0 || r == -1)
    ensures InPlace(space.pmm.regions, space.cr3, space.View(), space.pool)
    ensures heapBrk == MemoryMap.PageRoundUp(kernelVirtualEnd) && heapEnd == heapBrk + KERNEL_HEAP_SIZE
    ensures r == 0 ==>
      && Succeeded(space.pmm.regions, space.cr3, old(space.View()), space.View(), owned, heapBrk / PAGE_SIZE)
      && Stale(space.ram, space.cr3, space.tlb) == {}
    ensures r == -1 ==>
      && RolledBack(space.pmm.regions, space.cr3, old(space.View()), space.View(), heapBrk / PAGE_SIZE, n, lost)
      && StoppedAt(space.pmm.regions, space.cr3, old(space.View()), at, owned, heapBrk / PAGE_SIZE, n, lost)
    ensures Foretold(space.pmm.regions, space.cr3, old(space.View()), heapBrk / PAGE_SIZE, r, lost)
  {
    heapBrk := MemoryMap.PageRoundUp(kernelVirtualEnd);
    heapEnd := heapBrk + KERNEL_HEAP_SIZE;
    ghost var rs, cr3, s0, h := space.pmm.regions, space.cr3, space.View(), heapBrk / PAGE_SIZE;
    AnchorsHold(space.ram, cr3, h);
    var failed, failedIdx;
    ghost var s1;
    failed, failedIdx, owned, s1, lost, at := BackAll(space, heapBrk);
    n := failedIdx;
    if failed {
      PoolStaysWhenTaking(rs, cr3, s0, s1, space.pool);
      ForetellFailure(rs, cr3, s0, at, owned, h, failedIdx, lost);
      Unback(space, heapBrk, failedIdx, s1, owned);
      RollDone(rs, cr3, s0, s1, space.View(), space.tlb, map[], h, failedIdx, lost);
      PoolAtEnd(rs, cr3, s0, s1, space.View(), space.tlb, h, failedIdx, lost, space.pool);
      return -1, heapBrk, heapEnd, owned, n, lost, at;
    }
    lost := {};
    PoolWhileMapping(rs, cr3, s0, space.View(), space.tlb, owned, h, HEAP_PAGES, space.pool);
    ForetellSuccess(rs, cr3, s0, space.View(), owned, h);
    return 0, heapBrk, heapEnd, owned, n, lost, at;
  }
}
