/**
 The bitmaps of the frame allocator are themselves in paged memory.  The allocator works on them only as long
 as their pages translate to their frames and nobody else is given these frames.
 */
module BitmapPool {
  import opened Wrappers
  import opened FrameSpec
  import opened Paging
  import opened PagingLaws
  import opened PagingRuns

  /**
   Pages [page, page + pages) of the kernel hold the bitmaps, in frames [frame, frame + pages).  The words the
   bitmaps are accessed in may reach a little behind them: they are on pages [page, page + span).
   */
  datatype Pool = Pool(page: int, frame: int, pages: nat, span: nat) {
    predicate Has(p: int) {
      page <= p < page + span
    }

    /** All bytes of the bitmaps are on the pages of the pool, and all words that hold them on its span. */
    ghost predicate Covers(rs: seq<Region>) {
      && 1 <= pages <= span
      && (forall i :: 0 <= i < |rs| ==> rs[i].bitmap + rs[i].bitmapSize <= pages * PAGE_SIZE)
      && (forall i :: 0 <= i < |rs| ==> rs[i].bitmap + WordBytes(rs[i]) <= span * PAGE_SIZE)
    }
  }

  /** Bytes of the 32-bit words that hold the bits of a region. */
  function WordBytes(r: Region): nat {
    (r.totalBlocks + 31) / 32 * 4
  }

  /** Page number `k` is mapped; if it holds bits, to its frame, which is neither free nor part of the page tables. */
  ghost predicate PageInPlace(rs: seq<Region>, cr3: FrameNo, s: Vm, pool: Pool, k: nat)
    requires Sane(rs, s)
  {
    var p := pool.page + k;
    IsLow(p) && IsPage(p) && Walk(s.ram, cr3, p).Some? && (k < pool.pages ==> HoldsBits(rs, cr3, s, pool, k, p))
  }

  ghost predicate HoldsBits(rs: seq<Region>, cr3: FrameNo, s: Vm, pool: Pool, k: nat, p: int)
    requires Sane(rs, s) && IsPage(p)
  {
    var f := pool.frame + k;
    && 0 <= f < PAGES && Walk(s.ram, cr3, p) == Some(f)
    && !IsFree(rs, s, f) && f != cr3 && forall d :: HasTable(s.ram, cr3, d) ==> TableOf(s.ram, cr3, d) != f
  }

  ghost predicate InPlace(rs: seq<Region>, cr3: FrameNo, s: Vm, pool: Pool) {
    Sane(rs, s) && forall k: nat :: k < pool.span ==> PageInPlace(rs, cr3, s, pool, k)
  }

  lemma TableIsManaged(rs: seq<Region>, cr3: FrameNo, s: Vm, d: int)
    requires Inv(rs, cr3, s) && HasTable(s.ram, cr3, d)
    ensures TableOf(s.ram, cr3, d) in AllFrames(rs) && TableOf(s.ram, cr3, d) in InUse(rs, s)
  {
    assert TableOk(rs, cr3, s, d);
  }

  /** Mapping and unmapping other pages leaves the bitmaps in place: new tables and owned frames were free before. */
  lemma PoolStays(rs: seq<Region>, cr3: FrameNo, s0: Vm, s: Vm, owned: map<int, FrameNo>, gone: set<int>, pool: Pool)
    requires Books(rs, cr3, s0, s, owned, gone) && InPlace(rs, cr3, s0, pool)
    requires forall p :: pool.Has(p) ==> p !in owned && p !in gone
    ensures InPlace(rs, cr3, s, pool)
  {
    forall k: nat | k < pool.span ensures PageInPlace(rs, cr3, s, pool, k) {
      assert PageInPlace(rs, cr3, s0, pool, k) && pool.Has(pool.page + k);
      PageStays(rs, cr3, s0, s, owned, gone, pool, k);
    }
  }

  lemma PageStays(rs: seq<Region>, cr3: FrameNo, s0: Vm, s: Vm, owned: map<int, FrameNo>, gone: set<int>, pool: Pool,
                  k: nat)
    requires Books(rs, cr3, s0, s, owned, gone) && PageInPlace(rs, cr3, s0, pool, k)
    requires pool.page + k !in owned && pool.page + k !in gone
    ensures PageInPlace(rs, cr3, s, pool, k)
  {
    var f := pool.frame + k;
    if k < pool.pages {
      forall d | HasTable(s.ram, cr3, d) ensures TableOf(s.ram, cr3, d) != f {
        NoTableInPool(rs, cr3, s0, s, owned, gone, pool, k, d, f);
      }
    }
  }

  lemma NoTableInPool(rs: seq<Region>, cr3: FrameNo, s0: Vm, s: Vm, owned: map<int, FrameNo>, gone: set<int>,
                      pool: Pool, k: nat, d: int, f: int)
    requires Books(rs, cr3, s0, s, owned, gone) && PageInPlace(rs, cr3, s0, pool, k) && f == pool.frame + k
    requires k < pool.pages && HasTable(s.ram, cr3, d)
    ensures TableOf(s.ram, cr3, d) != f
  {
    TableIsManaged(rs, cr3, s, d);
    TableIsOldOrNew(rs, cr3, s0, s, d);
    if HasTable(s0.ram, cr3, d) {
      assert TableOf(s.ram, cr3, d) == TableOf(s0.ram, cr3, d);
    }
  }

  /** Taking frames moves no page. */
  lemma PoolStaysWhenTaking(rs: seq<Region>, cr3: FrameNo, s: Vm, s': Vm, pool: Pool)
    requires InPlace(rs, cr3, s, pool) && Sane(rs, s') && s'.ram == s.ram && InUse(rs, s) <= InUse(rs, s')
    ensures InPlace(rs, cr3, s', pool)
  {
    forall k: nat | k < pool.span ensures PageInPlace(rs, cr3, s', pool, k) {
      assert PageInPlace(rs, cr3, s, pool, k);
    }
  }

  /**
   Mapping a page of the bitmaps on a free frame, as map_page does when it is told not to check, takes the bitmaps away.
   */
  lemma RemapDisplacesPool(rs: seq<Region>, cr3: FrameNo, s: Vm, s': Vm, pool: Pool, p: int, f: FrameNo)
    requires InPlace(rs, cr3, s, pool) && IsFree(rs, s, f) && IsLow(p)
    requires pool.page <= p < pool.page + pool.pages && pool.pages <= pool.span
    requires Sane(rs, s') && OnlyPage(s.ram, s'.ram, cr3, p, Some(f))
    ensures !InPlace(rs, cr3, s', pool)
  {
    var k: nat := p - pool.page;
    PoolFrameIsTaken(rs, cr3, s, pool, k);
    OtherFrame(rs, cr3, s', pool, k, p, f);
  }

  lemma PoolFrameIsTaken(rs: seq<Region>, cr3: FrameNo, s: Vm, pool: Pool, k: nat)
    requires InPlace(rs, cr3, s, pool) && k < pool.pages <= pool.span
    ensures !IsFree(rs, s, pool.frame + k)
  {
    assert PageInPlace(rs, cr3, s, pool, k);
  }

  lemma OtherFrame(rs: seq<Region>, cr3: FrameNo, s: Vm, pool: Pool, k: nat, p: int, f: FrameNo)
    requires Sane(rs, s) && k < pool.pages <= pool.span
    requires p == pool.page + k && IsPage(p) && Walk(s.ram, cr3, p) == Some(f) && f != pool.frame + k
    ensures !InPlace(rs, cr3, s, pool)
  {
    assert !PageInPlace(rs, cr3, s, pool, k);
  }

  /** No run of mapping fresh frames at unmapped pages, unmapping them and storing to them moves the bitmaps. */
  lemma RunKeepsPool(rs: seq<Region>, cr3: FrameNo, s0: Vm, w: World, ops: seq<Op>, pool: Pool)
    requires InBooks(rs, cr3, s0, w) && Legal(rs, cr3, w, ops) && InPlace(rs, cr3, s0, pool)
    ensures InPlace(rs, cr3, Run(rs, cr3, w, ops).vm, pool)
  {
    RunKeepsBooks(rs, cr3, s0, w, ops);
    WorldKeepsPool(rs, cr3, s0, Run(rs, cr3, w, ops), pool);
  }

  lemma WorldKeepsPool(rs: seq<Region>, cr3: FrameNo, s0: Vm, w: World, pool: Pool)
    requires InBooks(rs, cr3, s0, w) && InPlace(rs, cr3, s0, pool)
    ensures InPlace(rs, cr3, w.vm, pool)
  {
    forall p | pool.Has(p) ensures p !in w.owned {
      assert PageInPlace(rs, cr3, s0, pool, p - pool.page);
    }
    PoolStays(rs, cr3, s0, w.vm, w.owned, {}, pool);
  }
}
