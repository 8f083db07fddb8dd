/**
 map_page and unmap_page as the kernel runs them: the directory is written directly, tables
 are reached through the recursive window, and every access goes through the TLB, which may
 still hold a translation the page walk no longer gives.
 */
module VirtualMemory {
  import opened Wrappers
  import opened FrameSpec
  import opened Paging
  import opened PagingLaws
  import opened PhysicalMemory
  import opened BitmapPool

  /** Cached translations; the processor may drop any of them at any time. */
  type Tlb = map<int, FrameNo>

  /** Where an access to page `q` goes. */
  function Reach(m: Ram, cr3: FrameNo, tlb: Tlb, q: int): Option<FrameNo>
    requires IsPage(q)
  {
    if q in tlb then Some(tlb[q]) else Walk(m, cr3, q)
  }

  /** Cached pages whose translation is not what the page walk gives. */
  ghost function Stale(m: Ram, cr3: FrameNo, tlb: Tlb): set<int> {
    set q | q in tlb && !(IsPage(q) && Walk(m, cr3, q) == Some(tlb[q]))
  }

  ghost function MapThrough(rs: seq<Region>, cr3: FrameNo, s: Vm, tlb: Tlb, f: FrameNo, p: int, g: Flags,
                            force: bool): (Vm, Outcome)
    requires Sane(rs, s) && IsPage(p)
  {
    var created := !s.ram[cr3][Dir(p)].present;
    match WithTable(rs, cr3, s, p, g)
    case None => (s, Failed)
    case Some(s1) =>
      match Reach(s1.ram, cr3, tlb, WindowPage(p))
      case None => (s1, Faulted)
      case Some(t) =>
        if !created && !force && s1.ram[t][Idx(p)].present then (s1, Failed)
        else (s1.(ram := Put(s1.ram, t, Idx(p), PageEntry(f, g))), Done)
  }

  /** The TLB after map_page: the window page is cached once used, the mapped page is flushed. */
  ghost function MapTlb(rs: seq<Region>, cr3: FrameNo, s: Vm, tlb: Tlb, p: int, g: Flags, r: Outcome): Tlb
    requires Sane(rs, s) && IsPage(p)
  {
    match WithTable(rs, cr3, s, p, g)
    case None => tlb
    case Some(s1) =>
      match Reach(s1.ram, cr3, tlb, WindowPage(p))
      case None => tlb
      case Some(t) => if r == Done then tlb[WindowPage(p) := t] - {p} else tlb[WindowPage(p) := t]
  }

  ghost function UnmapThrough(rs: seq<Region>, cr3: FrameNo, s: Vm, tlb: Tlb, p: int): (Vm, Outcome)
    requires Sane(rs, s) && IsPage(p)
  {
    match Reach(s.ram, cr3, tlb, WindowPage(p))
    case None => (s, Faulted)
    case Some(t) => UnmapIn(rs, cr3, s, t, Dir(p), Idx(p))
  }

  ghost function UnmapTlb(cr3: FrameNo, m: Ram, tlb: Tlb, p: int, r: Outcome): Tlb
    requires IsPage(p)
  {
    match Reach(m, cr3, tlb, WindowPage(p))
    case None => tlb
    case Some(t) => if r == Done then tlb[WindowPage(p) := t] - {p} else tlb[WindowPage(p) := t]
  }

  // ---------------------------------------------------------------- the TLB and the walk

  /** The window page of `p`'s slot is not cached, or cached as the walk has it. */
  ghost predicate WindowFresh(m: Ram, cr3: FrameNo, tlb: Tlb, p: int)
    requires IsPage(p)
  {
    WindowPage(p) in tlb ==> Walk(m, cr3, WindowPage(p)) == Some(tlb[WindowPage(p)])
  }

  /** With a fresh window the TLB makes no difference to map_page. */
  lemma MapThroughIsMap(rs: seq<Region>, cr3: FrameNo, s: Vm, tlb: Tlb, f: FrameNo, p: int, g: Flags, force: bool)
    requires Sane(rs, s) && SelfMapped(s.ram, cr3) && IsLow(p) && IsPage(p) && WindowFresh(s.ram, cr3, tlb, p)
    ensures MapThrough(rs, cr3, s, tlb, f, p, g, force) == Map(rs, cr3, s, f, p, g, force)
  {
    LowDir(p);
    WindowWalk(s.ram, cr3, p);
    match WithTable(rs, cr3, s, p, g)
    case None =>
    case Some(s1) => WindowWalk(s1.ram, cr3, p);
  }

  lemma UnmapThroughIsUnmap(rs: seq<Region>, cr3: FrameNo, s: Vm, tlb: Tlb, p: int)
    requires Sane(rs, s) && SelfMapped(s.ram, cr3) && IsLow(p) && IsPage(p) && WindowFresh(s.ram, cr3, tlb, p)
    ensures UnmapThrough(rs, cr3, s, tlb, p) == Unmap(rs, cr3, s, p)
  {
    WindowWalk(s.ram, cr3, p);
  }

  /** Mapped low pages other than `p` keep their translation whatever a new table frame contains. */
  lemma MapKeepsMapped(rs: seq<Region>, cr3: FrameNo, s: Vm, f: FrameNo, p: int, g: Flags, force: bool, q: int)
    requires Inv(rs, cr3, s) && IsLow(p) && IsPage(p) && g.present && IsLow(q) && q != p && Walk(s.ram, cr3, q).Some?
    ensures Walk(Map(rs, cr3, s, f, p, g, force).0.ram, cr3, q) == Walk(s.ram, cr3, q)
  {
    LowDir(p);
    LowDir(q);
    if HasTable(s.ram, cr3, Dir(p)) {
      if Map(rs, cr3, s, f, p, g, force).1 == Done {
        assert TableOk(rs, cr3, s, Dir(p));
        EntryWritten(s.ram, cr3, p, PageEntry(f, g));
      }
    } else if NextFrame(rs, s).Some? {
      NewTable(rs, cr3, s, p, g);
      EntryWritten(WithTable(rs, cr3, s, p, g).value.ram, cr3, p, PageEntry(f, g));
    }
  }

  /** Directory after map_page: only the slot of `p` can have changed. */
  lemma MapDirectory(rs: seq<Region>, cr3: FrameNo, s: Vm, f: FrameNo, p: int, g: Flags, force: bool)
    requires Inv(rs, cr3, s) && IsLow(p) && IsPage(p) && g.present
    ensures var m' := Map(rs, cr3, s, f, p, g, force).0.ram;
            && SelfMapped(m', cr3)
            && (forall d :: 0 <= d < ENTRIES && d != Dir(p) ==> m'[cr3][d] == s.ram[cr3][d])
            && (HasTable(s.ram, cr3, Dir(p)) ==> m'[cr3] == s.ram[cr3])
            && (!HasTable(s.ram, cr3, Dir(p)) && NextFrame(rs, s).Some? ==>
                  WithTable(rs, cr3, s, p, g).Some? && m'[cr3] == WithTable(rs, cr3, s, p, g).value.ram[cr3])
  {
    LowDir(p);
    if HasTable(s.ram, cr3, Dir(p)) {
      assert TableOk(rs, cr3, s, Dir(p));
    } else if NextFrame(rs, s).Some? {
      NewTable(rs, cr3, s, p, g);
    }
  }

  lemma WindowOf(q: int)
    requires IsPage(q) && !IsLow(q)
    ensures q == WindowPage(ENTRIES * Idx(q)) && Dir(ENTRIES * Idx(q)) == Idx(q)
  {
  }

  /** map_page leaves no new stale translation in the TLB. */
  lemma MapKeepsTlb(rs: seq<Region>, cr3: FrameNo, s: Vm, tlb: Tlb, f: FrameNo, p: int, g: Flags, force: bool)
    requires Inv(rs, cr3, s) && IsLow(p) && IsPage(p) && g.present && WindowFresh(s.ram, cr3, tlb, p)
    ensures var (s', r) := Map(rs, cr3, s, f, p, g, force);
            Stale(s'.ram, cr3, MapTlb(rs, cr3, s, tlb, p, g, r)) <= Stale(s.ram, cr3, tlb)
  {
    LowDir(p);
    var (s', r) := Map(rs, cr3, s, f, p, g, force);
    var tlb' := MapTlb(rs, cr3, s, tlb, p, g, r);
    MapDirectory(rs, cr3, s, f, p, g, force);
    WindowWalk(s.ram, cr3, p);
    WindowWalk(s'.ram, cr3, p);
    if WithTable(rs, cr3, s, p, g).Some? {
      WindowWalk(WithTable(rs, cr3, s, p, g).value.ram, cr3, p);
    }
    forall q | q in tlb' && q !in Stale(s.ram, cr3, tlb)
      ensures IsPage(q) && Walk(s'.ram, cr3, q) == Some(tlb'[q])
    {
      if q != WindowPage(p) {
        assert q in tlb && tlb'[q] == tlb[q] && Walk(s.ram, cr3, q) == Some(tlb[q]);
        if IsLow(q) {
          MapLowWalk(rs, cr3, s, f, p, g, force, q);
        } else {
          WindowOf(q);
          WindowWalk(s.ram, cr3, ENTRIES * Idx(q));
          WindowWalk(s'.ram, cr3, ENTRIES * Idx(q));
          assert Idx(q) != Dir(p);
        }
      }
    }
  }

  lemma MapLowWalk(rs: seq<Region>, cr3: FrameNo, s: Vm, f: FrameNo, p: int, g: Flags, force: bool, q: int)
    requires Inv(rs, cr3, s) && IsLow(p) && IsPage(p) && g.present && IsLow(q) && Walk(s.ram, cr3, q).Some?
    requires q == p ==> Map(rs, cr3, s, f, p, g, force).1 != Done
    ensures Walk(Map(rs, cr3, s, f, p, g, force).0.ram, cr3, q) == Walk(s.ram, cr3, q)
  {
    LowDir(p);
    if q != p { MapKeepsMapped(rs, cr3, s, f, p, g, force, q); }
  }

  /** unmap_page leaves no new stale translation but one: the window page of a table it released. */
  lemma UnmapKeepsTlb(rs: seq<Region>, cr3: FrameNo, s: Vm, tlb: Tlb, p: int)
    requires Inv(rs, cr3, s) && IsLow(p) && IsPage(p) && Walk(s.ram, cr3, p).Some? && WindowFresh(s.ram, cr3, tlb, p)
    requires PlainFrame(rs, cr3, s, Walk(s.ram, cr3, p).value)
    ensures var s' := Unmap(rs, cr3, s, p).0;
            var tlb' := UnmapTlb(cr3, s.ram, tlb, p, Done);
            && Unmap(rs, cr3, s, p).1 == Done
            && Stale(s'.ram, cr3, tlb') <= Stale(s.ram, cr3, tlb) + {WindowPage(p)}
            && (WindowPage(p) in Stale(s'.ram, cr3, tlb') <==> !HasTable(s'.ram, cr3, Dir(p)))
  {
    UnmapRefines(rs, cr3, s, p);
    UnmapLeavesStale(rs, cr3, s, tlb, p, Unmap(rs, cr3, s, p).0);
  }

  lemma UnmapLeavesStale(rs: seq<Region>, cr3: FrameNo, s: Vm, tlb: Tlb, p: int, s': Vm)
    requires Inv(rs, cr3, s) && IsLow(p) && IsPage(p) && Walk(s.ram, cr3, p).Some? && WindowFresh(s.ram, cr3, tlb, p)
    requires Unmapped(rs, cr3, s, s', p, Walk(s.ram, cr3, p).value)
    ensures var tlb' := UnmapTlb(cr3, s.ram, tlb, p, Done);
            && Stale(s'.ram, cr3, tlb') <= Stale(s.ram, cr3, tlb) + {WindowPage(p)}
            && (WindowPage(p) in Stale(s'.ram, cr3, tlb') <==> !HasTable(s'.ram, cr3, Dir(p)))
  {
    LowDir(p);
    WindowWalk(s.ram, cr3, p);
    WindowWalk(s'.ram, cr3, p);
    CachedKept(s.ram, s'.ram, cr3, tlb, p);
  }

  /** Cached translations other than that of `p` and its window page are as good as they were. */
  lemma CachedKept(m: Ram, m': Ram, cr3: FrameNo, tlb: Tlb, p: int)
    requires IsLow(p) && IsPage(p) && SelfMapped(m, cr3) && SelfMapped(m', cr3) && KeepsTables(m', m, cr3)
    requires forall d :: d != Dir(p) ==> HasTable(m', cr3, d) == HasTable(m, cr3, d)
    requires OnlyPage(m, m', cr3, p, None)
    ensures forall q :: q in tlb && q != p && q != WindowPage(p) && q in Stale(m', cr3, tlb) ==> q in Stale(m, cr3, tlb)
  {
    forall q | q in tlb && q != p && q != WindowPage(p) && q !in Stale(m, cr3, tlb)
      ensures IsPage(q) && Walk(m', cr3, q) == Some(tlb[q])
    {
      assert Walk(m, cr3, q) == Some(tlb[q]);
      if !IsLow(q) {
        WindowOf(q);
        WindowWalk(m, cr3, ENTRIES * Idx(q));
        WindowWalk(m', cr3, ENTRIES * Idx(q));
        SlotKept(m, m', cr3, Dir(p), Idx(q));
      }
    }
  }

  lemma SlotKept(m: Ram, m': Ram, cr3: FrameNo, d: nat, e: nat)
    requires SelfMapped(m, cr3) && SelfMapped(m', cr3) && KeepsTables(m', m, cr3) && e < ENTRIES && e != d
    requires forall h :: h != d ==> HasTable(m', cr3, h) == HasTable(m, cr3, h)
    ensures m'[cr3][e].present == m[cr3][e].present
    ensures m[cr3][e].present ==> m'[cr3][e].address == m[cr3][e].address
  {
    if e < SELF {
      assert HasTable(m', cr3, e) == HasTable(m, cr3, e);
      if HasTable(m', cr3, e) { assert TableOf(m, cr3, e) == TableOf(m', cr3, e); }
    }
  }

  /**
   What the missing flush costs.  When a slot gets a new, blank table while the TLB still caches
   its window page, map_page reports success, and the page is mapped exactly when the cached frame
   happens to be the new table.
   */
  lemma StaleWindowMapsIff(rs: seq<Region>, cr3: FrameNo, s: Vm, tlb: Tlb, f: FrameNo, p: int, g: Flags, force: bool)
    requires Inv(rs, cr3, s) && IsLow(p) && IsPage(p) && g.present && !HasTable(s.ram, cr3, Dir(p))
    requires NextFrame(rs, s).Some? && Empty(s.ram[NextFrame(rs, s).value])
    requires WindowPage(p) in tlb && tlb[WindowPage(p)] != cr3
    ensures var (s', r) := MapThrough(rs, cr3, s, tlb, f, p, g, force);
            r == Done && (Walk(s'.ram, cr3, p) == Some(f) <==> tlb[WindowPage(p)] == NextFrame(rs, s).value)
  {
    LowDir(p);
    NewTable(rs, cr3, s, p, g);
    var s1, t := WithTable(rs, cr3, s, p, g).value, NextFrame(rs, s).value;
    WalkAfterPut(s1.ram, cr3, tlb[WindowPage(p)], Idx(p), PageEntry(f, g), p);
    assert s1.ram[t] == s.ram[t];
  }

  // ---------------------------------------------------------------- what may be stale

  /** Stale translations are at most those of window pages whose slot has no table any more. */
  ghost predicate StaleOnlyReleased(m: Ram, cr3: FrameNo, tlb: Tlb) {
    forall q <- Stale(m, cr3, tlb) :: IsPage(q) && !IsLow(q) && !m[cr3][Idx(q)].present
  }

  lemma FreshWhenMapped(rs: seq<Region>, cr3: FrameNo, s: Vm, tlb: Tlb, p: int)
    requires Inv(rs, cr3, s) && IsLow(p) && IsPage(p) && Walk(s.ram, cr3, p).Some? && StaleOnlyReleased(s.ram, cr3, tlb)
    ensures WindowFresh(s.ram, cr3, tlb, p)
  {
    LowDir(p);
    var w := WindowPage(p);
    assert Idx(w) == Dir(p) && !IsLow(w);
    if w in tlb {
      assert w !in Stale(s.ram, cr3, tlb);
    }
  }

  /** unmap_page on a page whose frame came from the allocator succeeds, and leaves at most a released window stale. */
  lemma UnmapPlainPage(rs: seq<Region>, cr3: FrameNo, s: Vm, tlb: Tlb, p: int, s': Vm, r: Outcome, tlb': Tlb)
    requires Inv(rs, cr3, s) && IsLow(p) && IsPage(p) && Walk(s.ram, cr3, p).Some?
             && PlainFrame(rs, cr3, s, Walk(s.ram, cr3, p).value)
    requires WindowFresh(s.ram, cr3, tlb, p) && StaleOnlyReleased(s.ram, cr3, tlb)
    requires (s', r) == UnmapThrough(rs, cr3, s, tlb, p) && tlb' == UnmapTlb(cr3, s.ram, tlb, p, r)
    ensures r == Done && Unmapped(rs, cr3, s, s', p, Walk(s.ram, cr3, p).value)
    ensures StaleOnlyReleased(s'.ram, cr3, tlb')
  {
    LowDir(p);
    UnmapThroughIsUnmap(rs, cr3, s, tlb, p);
    UnmapRefines(rs, cr3, s, p);
    UnmapKeepsTlb(rs, cr3, s, tlb, p);
    ReleasedOnly(s.ram, s'.ram, cr3, tlb, tlb', p);
  }

  /** Stale translations after unmap_page, given what it does to the directory and the TLB. */
  lemma ReleasedOnly(m: Ram, m': Ram, cr3: FrameNo, tlb: Tlb, tlb': Tlb, p: int)
    requires IsLow(p) && IsPage(p) && SelfMapped(m, cr3) && SelfMapped(m', cr3) && KeepsTables(m', m, cr3)
    requires forall d :: d != Dir(p) ==> HasTable(m', cr3, d) == HasTable(m, cr3, d)
    requires StaleOnlyReleased(m, cr3, tlb) && Stale(m', cr3, tlb') <= Stale(m, cr3, tlb) + {WindowPage(p)}
    requires WindowPage(p) in Stale(m', cr3, tlb') ==> !HasTable(m', cr3, Dir(p))
    ensures StaleOnlyReleased(m', cr3, tlb')
  {
    LowDir(p);
    forall q <- Stale(m', cr3, tlb') ensures IsPage(q) && !IsLow(q) && !m'[cr3][Idx(q)].present {
      WindowIsHigh(p);
      if q != WindowPage(p) {
        assert q in Stale(m, cr3, tlb);
        WindowOf(q);
        SlotKept(m, m', cr3, Dir(p), Idx(q));
      }
    }
  }

  lemma WindowIsHigh(p: int)
    requires IsPage(p)
    ensures !IsLow(WindowPage(p)) && Idx(WindowPage(p)) == Dir(p)
  {
    DirIdx(p);
  }

  // ---------------------------------------------------------------- reaching the bitmaps

  /** An access to page number `k` of the pool does not fault; if the page holds bits, it goes to its frame. */
  ghost predicate ReachesFrame(m: Ram, cr3: FrameNo, tlb: Tlb, pool: Pool, k: nat) {
    && IsLow(pool.page + k) && IsPage(pool.page + k) && Reach(m, cr3, tlb, pool.page + k).Some?
    && (k < pool.pages ==> Reach(m, cr3, tlb, pool.page + k).value as int == pool.frame + k)
  }

  /** get_free_frame and free_frame work on the bitmaps. */
  ghost predicate PoolReached(m: Ram, cr3: FrameNo, tlb: Tlb, pool: Pool) {
    forall k: nat :: k < pool.span ==> ReachesFrame(m, cr3, tlb, pool, k)
  }

  /** That is so when they are in place and no client page is cached stale. */
  lemma InPlaceIsReached(rs: seq<Region>, cr3: FrameNo, s: Vm, tlb: Tlb, pool: Pool)
    requires InPlace(rs, cr3, s, pool) && StaleOnlyReleased(s.ram, cr3, tlb)
    ensures PoolReached(s.ram, cr3, tlb, pool)
  {
    forall k: nat | k < pool.span ensures ReachesFrame(s.ram, cr3, tlb, pool, k) {
      assert PageInPlace(rs, cr3, s, pool, k);
      if pool.page + k in tlb {
        assert pool.page + k !in Stale(s.ram, cr3, tlb);
      }
    }
  }

  /** Every word that bitmap.c touches for a block is mapped, and the byte with the block's bit is in its frame. */
  lemma WordIsReached(rs: seq<Region>, m: Ram, cr3: FrameNo, tlb: Tlb, pool: Pool, i: nat, b: nat, j: nat)
    requires pool.Covers(rs) && PoolReached(m, cr3, tlb, pool)
    requires i < |rs| && rs[i].Ok() && b < rs[i].totalBlocks && j < 4
    ensures var k := (rs[i].bitmap + b / 32 * 4 + j) / PAGE_SIZE;
            && k < pool.span && IsPage(pool.page + k) && Reach(m, cr3, tlb, pool.page + k).Some?
            && (j == b % 32 / 8 ==> Reach(m, cr3, tlb, pool.page + k).value as int == pool.frame + k)
  {
    var a := rs[i].bitmap + b / 32 * 4 + j;
    assert a < rs[i].bitmap + WordBytes(rs[i]);
    assert j == b % 32 / 8 ==> a < rs[i].bitmap + rs[i].bitmapSize;
    assert ReachesFrame(m, cr3, tlb, pool, a / PAGE_SIZE);
  }

  /** At both calls of free_frame in unmap_page the bitmaps are reached. */
  ghost predicate SparesPool(m: Ram, cr3: FrameNo, tlb: Tlb, p: int, pool: Pool)
    requires IsPage(p)
  {
    match Reach(m, cr3, tlb, WindowPage(p))
    case None => true
    case Some(t) => m[t][Idx(p)].present ==> SparesPoolIn(m, cr3, tlb, t, Dir(p), Idx(p), pool)
  }

  ghost predicate SparesPoolIn(m: Ram, cr3: FrameNo, tlb: Tlb, t: FrameNo, d: nat, i: nat, pool: Pool)
    requires d < ENTRIES && i < ENTRIES
  {
    var m1 := Put(m, t, i, m[t][i].(present := false, address := 0));
    && PoolReached(Put(m, t, i, m[t][i].(present := false)), cr3, tlb, pool)
    && (Empty(m1[t]) ==> PoolReached(Put(m1, cr3, d, m1[cr3][d].(present := false)), cr3, tlb, pool))
  }

  /** Caching a window page changes no access to the bitmaps. */
  lemma WindowKeepsReach(m: Ram, cr3: FrameNo, tlb: Tlb, w: int, t: FrameNo, pool: Pool)
    requires PoolReached(m, cr3, tlb, pool) && !IsLow(w)
    ensures PoolReached(m, cr3, tlb[w := t], pool)
  {
    var tlb' := tlb[w := t];
    forall k: nat | k < pool.span ensures ReachesFrame(m, cr3, tlb', pool, k) {
      assert ReachesFrame(m, cr3, tlb, pool, k);
    }
  }

  lemma WindowKeepsSpares(m: Ram, cr3: FrameNo, tlb: Tlb, w: int, t: FrameNo, d: nat, i: nat, pool: Pool)
    requires d < ENTRIES && i < ENTRIES && SparesPoolIn(m, cr3, tlb, t, d, i, pool) && !IsLow(w)
    ensures SparesPoolIn(m, cr3, tlb[w := t], t, d, i, pool)
  {
    var m1 := Put(m, t, i, m[t][i].(present := false, address := 0));
    WindowKeepsReach(Put(m, t, i, m[t][i].(present := false)), cr3, tlb, w, t, pool);
    if Empty(m1[t]) {
      WindowKeepsReach(Put(m1, cr3, d, m1[cr3][d].(present := false)), cr3, tlb, w, t, pool);
    }
  }

  /** What unmap_page demands of its caller still holds once the window page is cached. */
  lemma TableMayGo(rs: seq<Region>, cr3: FrameNo, m: Ram, tlb: Tlb, p: int, t: FrameNo, pool: Pool)
    requires IsPage(p) && Releasable(rs, cr3, m, tlb, p) && SparesPool(m, cr3, tlb, p, pool)
    requires Reach(m, cr3, tlb, WindowPage(p)) == Some(t) && m[t][Idx(p)].present
    ensures Supported(rs, m[t][Idx(p)].address) && Supported(rs, m[cr3][Dir(p)].address)
    ensures SparesPoolIn(m, cr3, tlb[WindowPage(p) := t], t, Dir(p), Idx(p), pool)
  {
    WindowIsHigh(p);
    WindowKeepsSpares(m, cr3, tlb, WindowPage(p), t, Dir(p), Idx(p), pool);
  }

  /** Clearing the entry of another page than those of the pool does not concern the bitmaps. */
  lemma ClearSparesPage(rs: seq<Region>, cr3: FrameNo, s: Vm, tlb: Tlb, p: int, e: Entry, pool: Pool, k: nat)
    requires Inv(rs, cr3, s) && IsLow(p) && IsPage(p) && HasTable(s.ram, cr3, Dir(p)) && !pool.Has(p)
    requires InPlace(rs, cr3, s, pool) && k < pool.span && ReachesFrame(s.ram, cr3, tlb, pool, k)
    ensures ReachesFrame(Put(s.ram, TableOf(s.ram, cr3, Dir(p)), Idx(p), e), cr3, tlb, pool, k)
  {
    var q := pool.page + k;
    assert PageInPlace(rs, cr3, s, pool, k) && pool.Has(q);
    assert TableOk(rs, cr3, s, Dir(p));
    EntryWritten(s.ram, cr3, p, e);
    assert IsLow(q) && q != p;
  }

  /** A slot whose table has become empty holds no page of the pool. */
  lemma EmptySlotSparesPage(m: Ram, cr3: FrameNo, tlb: Tlb, d: nat, pool: Pool, k: nat)
    requires d < SELF && m[cr3][d].present && Empty(m[m[cr3][d].address]) && ReachesFrame(m, cr3, tlb, pool, k)
    requires pool.page + k in tlb || forall h :: HasTable(m, cr3, h) && h != d ==> TableOf(m, cr3, h) != cr3
    ensures ReachesFrame(Put(m, cr3, d, m[cr3][d].(present := false)), cr3, tlb, pool, k)
  {
    var q := pool.page + k;
    LowDir(q);
    if q !in tlb {
      assert m[cr3][Dir(q)].present && HasTable(m, cr3, Dir(q));
      assert m[m[cr3][Dir(q)].address][Idx(q)].present;
      WalkAfterDir(m, cr3, d, m[cr3][d].(present := false), q);
    }
  }

  /** unmap_page on a mapped page outside the pool spares it. */
  lemma UnmapSparesPool(rs: seq<Region>, cr3: FrameNo, s: Vm, tlb: Tlb, p: int, pool: Pool)
    requires Inv(rs, cr3, s) && IsLow(p) && IsPage(p) && Walk(s.ram, cr3, p).Some? && !pool.Has(p)
    requires InPlace(rs, cr3, s, pool) && StaleOnlyReleased(s.ram, cr3, tlb)
    ensures PoolReached(s.ram, cr3, tlb, pool) && SparesPool(s.ram, cr3, tlb, p, pool)
  {
    LowDir(p);
    InPlaceIsReached(rs, cr3, s, tlb, pool);
    FreshWhenMapped(rs, cr3, s, tlb, p);
    WindowWalk(s.ram, cr3, p);
    var d, i, t := Dir(p), Idx(p), TableOf(s.ram, cr3, Dir(p));
    var e := s.ram[t][i].(present := false);
    var m1 := Put(s.ram, t, i, s.ram[t][i].(present := false, address := 0));
    assert TableOk(rs, cr3, s, d);
    SameTables(s.ram, m1, cr3);
    forall k: nat | k < pool.span
      ensures ReachesFrame(Put(s.ram, t, i, e), cr3, tlb, pool, k)
      ensures Empty(m1[t]) ==> ReachesFrame(Put(m1, cr3, d, m1[cr3][d].(present := false)), cr3, tlb, pool, k)
    {
      assert ReachesFrame(s.ram, cr3, tlb, pool, k);
      ClearSparesPage(rs, cr3, s, tlb, p, e, pool, k);
      ClearSparesPage(rs, cr3, s, tlb, p, s.ram[t][i].(present := false, address := 0), pool, k);
      if Empty(m1[t]) {
        NoTableIsDirectory(rs, cr3, s, m1);
        EmptySlotSparesPage(m1, cr3, tlb, d, pool, k);
      }
    }
  }

  lemma NoTableIsDirectory(rs: seq<Region>, cr3: FrameNo, s: Vm, m: Ram)
    requires Inv(rs, cr3, s) && m[cr3] == s.ram[cr3]
    ensures forall h :: HasTable(m, cr3, h) ==> TableOf(m, cr3, h) != cr3
  {
    forall h | HasTable(m, cr3, h) ensures TableOf(m, cr3, h) != cr3 {
      assert HasTable(s.ram, cr3, h) && TableOk(rs, cr3, s, h);
    }
  }

  // ---------------------------------------------------------------- the code

  /** The bits of the flags argument. */
  function FlagsOf(flags: nat): Flags {
    Flags(flags % 2 == 1, flags / 2 % 2 == 1, flags / 4 % 2 == 1, flags / 8 % 2 == 1, flags / 16 % 2 == 1,
          flags / 256 % 2 == 1)
  }

  /** An entry as the processor reads it: presence, rights and cache control in bits 0 to 4, global in bit 8. */
  function Word(e: Entry): nat {
    (if e.present then 1 else 0) + (if e.attrs.readWrite then 2 else 0) + (if e.attrs.userSupervisor then 4 else 0)
    + (if e.attrs.writeThrough then 8 else 0) + (if e.attrs.cacheDisable then 16 else 0)
    + (if e.attrs.global then 256 else 0) + 4096 * e.address
  }

  /** The low bits of a number, one by one. */
  lemma FiveBits(n: nat)
    ensures n % 32 == n % 2 + n / 2 % 2 * 2 + n / 4 % 2 * 4 + n / 8 % 2 * 8 + n / 16 % 2 * 16
  {
    var b0, b1, b2, b3, b4 := n % 2, n / 2 % 2, n / 4 % 2, n / 8 % 2, n / 16 % 2;
    Halved(n, n / 2, n / 4);
    Halved(n / 2, n / 4, n / 8);
    Halved(n / 4, n / 8, n / 16);
    Halved(n / 8, n / 16, n / 32);
    assert n == 32 * (n / 16 / 2) + b0 + 2 * b1 + 4 * b2 + 8 * b3 + 16 * b4;
    Mod32(n, n / 16 / 2, b0 + 2 * b1 + 4 * b2 + 8 * b3 + 16 * b4);
  }

  lemma Halved(n: nat, half: nat, quarter: nat)
    requires half == n / 2 && quarter == n / 4
    ensures n == 2 * half + n % 2 && quarter == half / 2
  {
  }

  lemma Mod32(n: nat, q: nat, r: nat)
    requires n == 32 * q + r && r < 32
    ensures n % 32 == r
  {
  }

  lemma Div256(n: nat, q: nat, r: nat)
    requires n == 256 * q + r && r < 256
    ensures n / 256 == q
  {
  }

  lemma BitEight(low: nat, bit: nat, address: nat)
    requires low < 32 && bit <= 1
    ensures (low + 256 * bit + 4096 * address) / 256 % 2 == bit
  {
    var x := bit + 16 * address;
    Div256(low + 256 * bit + 4096 * address, x, low);
    Odd(x, 8 * address, bit);
  }

  lemma Odd(x: nat, half: nat, bit: nat)
    requires x == 2 * half + bit && bit <= 1
    ensures x % 2 == bit
  {
  }

  /** map_page writes the page's frame and bits 0 to 4 and 8 of its flags into the table. */
  lemma PageWord(f: FrameNo, flags: nat)
    ensures Word(PageEntry(f, FlagsOf(flags))) == 4096 * f + flags % 32 + flags / 256 % 2 * 256
  {
    FiveBits(flags);
  }

  /** Into the directory it writes the table's frame and bits 0 to 4, and leaves bit 8 as it was. */
  lemma TableWord(e: Entry, f: FrameNo, flags: nat)
    ensures Word(DirEntry(e, f, FlagsOf(flags))) == 4096 * f + flags % 32 + Word(e) / 256 % 2 * 256
  {
    FiveBits(flags);
    var global := if e.attrs.global then 1 else 0;
    BitEight(Word(e) - 256 * global - 4096 * e.address, global, e.address);
  }

  /** What map_page leaves in memory when it succeeds: the table entry, and for a new table the directory entry. */
  lemma MapWrites(rs: seq<Region>, cr3: FrameNo, s: Vm, tlb: Tlb, f: FrameNo, p: int, flags: nat, force: bool,
                  t: FrameNo)
    requires Sane(rs, s) && IsPage(p) && MapThrough(rs, cr3, s, tlb, f, p, FlagsOf(flags), force).1 == Done
    requires WithTable(rs, cr3, s, p, FlagsOf(flags)).Some?
    requires Reach(WithTable(rs, cr3, s, p, FlagsOf(flags)).value.ram, cr3, tlb, WindowPage(p)) == Some(t)
    ensures var s' := MapThrough(rs, cr3, s, tlb, f, p, FlagsOf(flags), force).0;
            && Word(s'.ram[t][Idx(p)]) == 4096 * f + flags % 32 + flags / 256 % 2 * 256
            && (!s.ram[cr3][Dir(p)].present && t != cr3 ==>
                  && NextFrame(rs, s).Some?
                  && Word(s'.ram[cr3][Dir(p)])
                     == 4096 * NextFrame(rs, s).value + flags % 32 + Word(s.ram[cr3][Dir(p)]) / 256 % 2 * 256)
  {
    PageWord(f, flags);
    if NextFrame(rs, s).Some? {
      TableWord(s.ram[cr3][Dir(p)], NextFrame(rs, s).value, flags);
    }
  }

  lemma Cleared(e: Entry)
    requires e.present
    ensures Word(e.(present := false, address := 0)) == Word(e) % 4096 - 1
  {
    Mod4096(Word(e), e.address, Word(e) - 4096 * e.address);
  }

  lemma Mod4096(n: nat, q: nat, r: nat)
    requires n == 4096 * q + r && r < 4096
    ensures n % 4096 == r
  {
  }

  /**
   What unmap_page leaves in memory when it succeeds: in the table entry, and in the directory entry of a table it
   gives back, presence and address are cleared and the other bits stay.
   */
  lemma UnmapWrites(rs: seq<Region>, cr3: FrameNo, s: Vm, t: FrameNo, d: nat, i: nat)
    requires Sane(rs, s) && d < ENTRIES && i < ENTRIES && t != cr3 && UnmapIn(rs, cr3, s, t, d, i).1 == Done
    ensures var s' := UnmapIn(rs, cr3, s, t, d, i).0;
            && s.ram[t][i].present && Word(s'.ram[t][i]) == Word(s.ram[t][i]) % 4096 - 1
            && (Empty(s'.ram[t]) ==> s.ram[cr3][d].present && Word(s'.ram[cr3][d]) == Word(s.ram[cr3][d]) % 4096 - 1)
            && (!Empty(s'.ram[t]) ==> s'.ram[cr3] == s.ram[cr3])
  {
    Cleared(s.ram[t][i]);
    if s.ram[cr3][d].present {
      Cleared(s.ram[cr3][d]);
    }
  }

  /** The frames unmap_page may hand to free_frame. */
  ghost predicate Releasable(rs: seq<Region>, cr3: FrameNo, m: Ram, tlb: Tlb, p: int)
    requires IsPage(p)
  {
    match Reach(m, cr3, tlb, WindowPage(p))
    case None => true
    case Some(t) =>
      m[t][Idx(p)].present ==> Supported(rs, m[t][Idx(p)].address) && Supported(rs, m[cr3][Dir(p)].address)
  }

  lemma FrameBelow(rs: seq<Region>, s: Vm)
    requires Sane(rs, s)
    ensures match Alloc(rs, s.frames).1
            case None => true
            case Some(a) => a != NO_FRAME && 0 <= a / PAGE_SIZE < 0x10_0000
  {
    AllocTakesOne(rs, s.frames);
    if Alloc(rs, s.frames).1.Some? {
      FrameInRange(rs, s);
    }
  }

  class AddressSpace {
    const cr3: FrameNo
    const pmm: Pmm
    const pool: Pool               // where the bitmaps of `pmm` are in memory
    var ram: Ram
    var tlb: Tlb

    constructor (cr3: FrameNo, pmm: Pmm, pool: Pool, ram: Ram)
      requires pmm.Valid() && Sane(pmm.regions, Vm(ram, pmm.View())) && pool.Covers(pmm.regions)
      ensures Valid() && this.cr3 == cr3 && this.pmm == pmm && this.pool == pool && this.ram == ram && tlb == map[]
    {
      this.cr3 := cr3;
      this.pmm := pmm;
      this.pool := pool;
      this.ram := ram;
      tlb := map[];
    }

    ghost function View(): Vm
      reads this, pmm, pmm.mem
    {
      Vm(ram, pmm.View())
    }

    ghost predicate Valid()
      reads this, pmm, pmm.mem
    {
      pmm.Valid() && Sane(pmm.regions, View()) && pool.Covers(pmm.regions)
    }

    /** An access to a page: through the TLB, or by a walk whose result is then cached; -1 is a fault. */
    method Touch(q: int) returns (f: int)
      requires IsPage(q)
      modifies this`tlb
      ensures match Reach(ram, cr3, old(tlb), q)
              case None => f == -1 && tlb == old(tlb)
              case Some(h) => f == h && tlb == old(tlb)[q := h]
    {
      if q in tlb {
        return tlb[q];
      }
      match Walk(ram, cr3, q)
      case None => return -1;
      case Some(h) =>
        tlb := tlb[q := h];
        return h;
    }

    /** get_free_frame, which reads and writes the bitmaps. */
    method GetFreeFrame() returns (frame: nat)
      requires Valid() && PoolReached(ram, cr3, tlb, pool)
      modifies pmm, pmm.mem
      ensures Valid()
      ensures pmm.View() == Alloc(pmm.regions, old(pmm.View())).0
      ensures frame == match Alloc(pmm.regions, old(pmm.View())).1 case None => NO_FRAME case Some(a) => a
    {
      frame := pmm.GetFreeFrame();
    }

    /** free_frame, which does so too. */
    method FreeFrame(f: FrameNo) returns (ok: bool)
      requires Valid() && PoolReached(ram, cr3, tlb, pool) && Supported(pmm.regions, f)
      modifies pmm, pmm.mem
      ensures Valid()
      ensures match FreeOf(pmm.regions, old(pmm.View()), f)
              case None => !ok && pmm.View() == old(pmm.View())
              case Some(frames) => ok && pmm.View() == frames
    {
      ok := pmm.FreeFrame(f * PAGE_SIZE);
    }

    /** Makes sure that the slot of page `p` has a table; `ok` is false when no frame is left for one. */
    method EnsureTable(dirIdx: nat, g: Flags, ghost p: int) returns (ok: bool, dirCreated: bool)
      requires Valid() && PoolReached(ram, cr3, tlb, pool) && IsPage(p) && dirIdx == Dir(p) && dirIdx < ENTRIES
      modifies this`ram, pmm, pmm.mem
      ensures Valid() && dirCreated == (ok && !old(ram)[cr3][dirIdx].present)
      ensures match WithTable(pmm.regions, cr3, old(View()), p, g)
              case None => !ok && View() == old(View())
              case Some(s1) => ok && View() == s1
    {
      dirCreated := false;
      if !ram[cr3][dirIdx].present {
        FrameBelow(pmm.regions, View());
        var frame := GetFreeFrame();
        if frame == NO_FRAME {
          return false, false;
        }
        ram := Put(ram, cr3, dirIdx, DirEntry(ram[cr3][dirIdx], frame / PAGE_SIZE, g));
        dirCreated := true;
      }
      return true, dirCreated;
    }

    /** An access to the table of an address, through its window page. */
    method TouchTable(va: int, ghost p: int) returns (t: int)
      requires Valid() && 0 <= va < PAGES * PAGE_SIZE && p == va / PAGE_SIZE && IsPage(p)
      modifies this`tlb
      ensures Valid()
      ensures match Reach(ram, cr3, old(tlb), WindowPage(p))
              case None => t == -1 && tlb == old(tlb)
              case Some(h) => t == h && tlb == old(tlb)[WindowPage(p) := h]
    {
      WindowArithmetic(va, 0);
      t := Touch(GetTableVirtualAddress(va) / PAGE_SIZE);
    }

    /** The processor forgets the translation of a page. */
    method Flush(p: int)
      requires Valid()
      modifies this`tlb
      ensures Valid() && tlb == old(tlb) - {p}
    {
      tlb := tlb - {p};
    }

    method MapPage(phys: int, virt: int, flags: nat, kmallocInit: bool) returns (r: Outcome)
      requires Valid() && PoolReached(ram, cr3, tlb, pool)
      requires 0 <= phys < PAGES * PAGE_SIZE && 0 <= virt < PAGES * PAGE_SIZE
      modifies this`ram, this`tlb, pmm, pmm.mem
      ensures Valid()
      ensures (View(), r) == MapThrough(pmm.regions, cr3, old(View()), old(tlb), phys / PAGE_SIZE, virt / PAGE_SIZE,
              FlagsOf(flags), kmallocInit)
      ensures tlb == MapTlb(pmm.regions, cr3, old(View()), old(tlb), virt / PAGE_SIZE, FlagsOf(flags), r)
    {
      var dirIdx := virt / 0x40_0000 % 0x400;
      var tblIdx := virt / 0x1000 % 0x400;
      var g := FlagsOf(flags);
      var p := virt / PAGE_SIZE;
      SlotArithmetic(virt);
      var ok, dirCreated := EnsureTable(dirIdx, g, p);
      if !ok {
        return Failed;
      }
      var t := TouchTable(virt, p);
      if t == -1 {
        return Faulted;
      }
      if !dirCreated && !kmallocInit && ram[t][tblIdx].present {
        return Failed;
      }
      ram := Put(ram, t, tblIdx, PageEntry(phys / PAGE_SIZE, g));
      Flush(p);
      return Done;
    }

    /** Scans a table for a present entry. */
    method IsEmpty(t: FrameNo) returns (empty: bool)
      ensures empty <==> Empty(ram[t])
    {
      for i := 0 to ENTRIES
        invariant forall j :: 0 <= j < i ==> !ram[t][j].present
      {
        if ram[t][i].present {
          return false;
        }
      }
      return true;
    }

    /** Gives an empty table back and clears its directory entry. */
    method UnmapDirectory(dirIdx: nat) returns (r: Outcome)
      requires Valid() && dirIdx < ENTRIES
      requires ram[cr3][dirIdx].present ==>
        && Supported(pmm.regions, ram[cr3][dirIdx].address)
        && PoolReached(Put(ram, cr3, dirIdx, ram[cr3][dirIdx].(present := false)), cr3, tlb, pool)
      modifies this`ram, pmm, pmm.mem
      ensures Valid()
      ensures (View(), r) == ReleaseTable(pmm.regions, cr3, old(View()), dirIdx)
    {
      var e := ram[cr3][dirIdx];
      if !e.present {
        return Failed;
      }
      PutTwice(ram, cr3, dirIdx, e.(present := false), e.(present := false, address := 0));
      ram := Put(ram, cr3, dirIdx, e.(present := false));
      var ok := FreeFrame(ram[cr3][dirIdx].address);
      if !ok {
        return Panicked;
      }
      ram := Put(ram, cr3, dirIdx, ram[cr3][dirIdx].(address := 0));
      return Done;
    }

    /** Clears a table entry and gives its frame back; `ok` is false when free_frame panics. */
    method ClearEntry(t: FrameNo, tblIdx: nat) returns (ok: bool)
      requires Valid() && tblIdx < ENTRIES && ram[t][tblIdx].present
      requires Supported(pmm.regions, ram[t][tblIdx].address)
      requires PoolReached(Put(ram, t, tblIdx, ram[t][tblIdx].(present := false)), cr3, tlb, pool)
      modifies this`ram, pmm, pmm.mem
      ensures Valid()
      ensures match FreeOf(pmm.regions, old(View()).frames, old(ram[t][tblIdx].address))
              case None =>
                var e := old(ram[t][tblIdx]).(present := false);
                !ok && View() == old(View()).(ram := Put(old(ram), t, tblIdx, e))
              case Some(frames) =>
                var e := old(ram[t][tblIdx]).(present := false, address := 0);
                ok && View() == Vm(Put(old(ram), t, tblIdx, e), frames)
    {
      var e := ram[t][tblIdx];
      PutTwice(ram, t, tblIdx, e.(present := false), e.(present := false, address := 0));
      ram := Put(ram, t, tblIdx, e.(present := false));
      ok := FreeFrame(ram[t][tblIdx].address);
      if !ok {
        return;
      }
      ram := Put(ram, t, tblIdx, ram[t][tblIdx].(address := 0));
    }

    /** Clears an entry of the table in frame `t`, and gives the table back when that was its last one. */
    method UnmapInTable(t: FrameNo, dirIdx: nat, tblIdx: nat) returns (r: Outcome)
      requires Valid() && dirIdx < ENTRIES && tblIdx < ENTRIES
      requires ram[t][tblIdx].present ==>
        && Supported(pmm.regions, ram[t][tblIdx].address) && Supported(pmm.regions, ram[cr3][dirIdx].address)
        && SparesPoolIn(ram, cr3, tlb, t, dirIdx, tblIdx, pool)
      modifies this`ram, pmm, pmm.mem
      ensures Valid()
      ensures (View(), r) == UnmapIn(pmm.regions, cr3, old(View()), t, dirIdx, tblIdx)
    {
      if !ram[t][tblIdx].present {
        return Failed;
      }
      var ok := ClearEntry(t, tblIdx);
      if !ok {
        return Panicked;
      }
      r := Done;
      var unmapDirectory := IsEmpty(t);
      if unmapDirectory {
        r := UnmapDirectory(dirIdx);
      }
    }

    method UnmapPage(address: int) returns (r: Outcome)
      requires Valid() && 0 <= address < PAGES * PAGE_SIZE
      requires Releasable(pmm.regions, cr3, ram, tlb, address / PAGE_SIZE)
      requires SparesPool(ram, cr3, tlb, address / PAGE_SIZE, pool)
      modifies this`ram, this`tlb, pmm, pmm.mem
      ensures Valid()
      ensures (View(), r) == UnmapThrough(pmm.regions, cr3, old(View()), old(tlb), address / PAGE_SIZE)
      ensures tlb == UnmapTlb(cr3, old(ram), old(tlb), address / PAGE_SIZE, r)
    {
      var dirIdx := address / 0x40_0000 % 0x400;
      var tblIdx := address / 0x1000 % 0x400;
      var p := address / PAGE_SIZE;
      SlotArithmetic(address);
      var t := TouchTable(address, p);
      if t == -1 {
        return Faulted;
      }
      if ram[t][tblIdx].present {
        TableMayGo(pmm.regions, cr3, ram, old(tlb), p, t, pool);
      }
      r := UnmapInTable(t, dirIdx, tblIdx);
      if r == Done {
        Flush(p);
      }
    }
  }
}
