/**
 pmm_init: one list element per usable entry of the firmware memory map, a place for all the
 bitmaps, and the reservations that are made before the first frame is given out.
 */
module MemoryMap {
  import opened Wrappers
  import opened Bitmap
  import opened FrameSpec
  import opened PhysicalMemory

  const LOW_MEMORY := 0x10_0000
  const KERNEL_OFFSET := 0xC000_0000       // KERNEL_VIRTUAL_BASE - KERNEL_PHYSICAL_BASE
  const NOT_FOUND := -1

  datatype Kind = Available | Reclaimable | Reserved

  datatype MapEntry = MapEntry(base: nat, length: nat, kind: Kind) {
    predicate Usable() {
      kind != Reserved
    }

    function End(): nat {
      base + length
    }

    /** Whole pages, and not up to the end of the address space, where rounding up would wrap. */
    predicate Aligned() {
      length > 0 && base % BLOCK_SIZE == 0 && length % BLOCK_SIZE == 0 && End() <= 0xFFFF_F000
    }
  }

  function PageRoundUp(a: nat): nat {
    (a + BLOCK_SIZE - 1) / BLOCK_SIZE * BLOCK_SIZE
  }

  function PageRoundDown(a: nat): nat {
    a / BLOCK_SIZE * BLOCK_SIZE
  }

  /** Usable entries are page aligned, ascending and disjoint. */
  ghost predicate Sorted(mm: seq<MapEntry>) {
    && (forall i :: 0 <= i < |mm| && mm[i].Usable() ==> mm[i].Aligned())
    && (forall i, j :: 0 <= i < j < |mm| && mm[i].Usable() && mm[j].Usable() ==> mm[i].End() <= mm[j].base)
  }

  ghost predicate MapOk(mm: seq<MapEntry>) {
    Sorted(mm) && mm != [] && mm[0].Usable()
  }

  // ---------------------------------------------------------------- the list of regions

  /** The list element for a usable entry, before its bitmap has a place. */
  function RegionFor(e: MapEntry): Region
    requires e.length >= BLOCK_SIZE
  {
    Region(0xDEAD_BEEF, (e.length / BLOCK_SIZE + 7) / 8, e.base, e.End() - BLOCK_SIZE, e.length / BLOCK_SIZE)
  }

  function Sizes(list: seq<Region>): seq<nat> {
    seq(|list|, i requires 0 <= i < |list| => list[i].bitmapSize)
  }

  ghost function Listed(mm: seq<MapEntry>): seq<Region>
    requires Sorted(mm)
  {
    if mm == [] then []
    else
      var n := |mm| - 1;
      Listed(mm[..n]) + if mm[n].Usable() then [RegionFor(mm[n])] else []
  }

  /** Bytes of memory all bitmaps take. */
  ghost function PoolSize(mm: seq<MapEntry>): nat
    requires Sorted(mm)
  {
    Sum(Sizes(Listed(mm)))
  }

  lemma {:induction false} SumAppend(s: seq<nat>, v: nat)
    ensures Sum(s + [v]) == Sum(s) + v
  {
    if s != [] {
      assert (s + [v])[1..] == s[1..] + [v];
      SumAppend(s[1..], v);
    } else {
      assert (s + [v])[1..] == [];
    }
  }

  /** A list element stands for exactly one usable entry. */
  lemma {:induction false} ListedIff(mm: seq<MapEntry>, r: Region)
    requires Sorted(mm)
    ensures r in Listed(mm) <==> exists i :: 0 <= i < |mm| && StandsFor(r, mm[i])
  {
    if mm != [] {
      var n := |mm| - 1;
      ListedIff(mm[..n], r);
      if r in Listed(mm[..n]) {
        var i :| 0 <= i < n && StandsFor(r, mm[..n][i]);
        assert StandsFor(r, mm[i]);
      }
      if i :| 0 <= i < n && StandsFor(r, mm[i]) {
        assert StandsFor(r, mm[..n][i]);
      }
    }
  }

  ghost predicate StandsFor(r: Region, e: MapEntry) {
    e.Usable() && e.length >= BLOCK_SIZE && r == RegionFor(e)
  }

  /** Ascending and disjoint, as far as addresses go. */
  ghost predicate Ascending(list: seq<Region>) {
    && (forall i :: 0 <= i < |list| ==> list[i].Ok())
    && (forall i, j :: 0 <= i < j < |list| ==> list[i].lastAddr + BLOCK_SIZE <= list[j].firstAddr)
  }

  lemma {:induction false} ListedAscends(mm: seq<MapEntry>)
    requires Sorted(mm)
    ensures Ascending(Listed(mm))
  {
    if mm != [] {
      var n := |mm| - 1;
      ListedAscends(mm[..n]);
      var list := Listed(mm[..n]);
      if mm[n].Usable() {
        forall i | 0 <= i < |list| ensures list[i].lastAddr + BLOCK_SIZE <= mm[n].base {
          ListedIff(mm[..n], list[i]);
        }
      }
    }
  }

  ghost predicate Offers(e: MapEntry, a: nat) {
    e.Usable() && e.base <= a < e.End()
  }

  lemma SameBytes(r: Region, e: MapEntry, a: nat)
    requires e.Aligned() && StandsFor(r, e)
    ensures r.Holds(a) <==> Offers(e, a)
  {
  }

  /** The list manages exactly the bytes of the usable entries. */
  lemma ListCoversMap(mm: seq<MapEntry>, a: nat)
    requires Sorted(mm)
    ensures (exists r <- Listed(mm) :: r.Holds(a)) <==> exists e <- mm :: Offers(e, a)
  {
    if r :| r in Listed(mm) && r.Holds(a) {
      HeldIsOffered(mm, r, a);
    }
    if e :| e in mm && Offers(e, a) {
      OfferedIsHeld(mm, e, a);
    }
  }

  lemma HeldIsOffered(mm: seq<MapEntry>, r: Region, a: nat)
    requires Sorted(mm) && r in Listed(mm) && r.Holds(a)
    ensures exists e <- mm :: Offers(e, a)
  {
    ListedIff(mm, r);
    var i :| 0 <= i < |mm| && StandsFor(r, mm[i]);
    SameBytes(r, mm[i], a);
    assert mm[i] in mm;
  }

  lemma OfferedIsHeld(mm: seq<MapEntry>, e: MapEntry, a: nat)
    requires Sorted(mm) && e in mm && Offers(e, a)
    ensures RegionFor(e) in Listed(mm) && RegionFor(e).Holds(a)
  {
    var i :| 0 <= i < |mm| && mm[i] == e;
    assert StandsFor(RegionFor(e), mm[i]);
    ListedIff(mm, RegionFor(e));
    SameBytes(RegionFor(e), e, a);
  }

  /** The list element pmm_init makes for one entry. */
  method NewRegion(e: MapEntry) returns (tmp: Region)
    requires e.Aligned()
    ensures tmp == RegionFor(e)
  {
    var bitmapBlocks := e.length / BLOCK_SIZE;
    var bitmapSize := bitmapBlocks / 8;
    if bitmapBlocks % 8 != 0 {
      bitmapSize := bitmapSize + 1;
    }
    tmp := Region(0xDEAD_BEEF, bitmapSize, PageRoundUp(e.base), PageRoundDown(e.End() - 1), bitmapBlocks);
  }

  lemma OneMoreRegion(list: seq<Region>, r: Region)
    ensures Sum(Totals(list + [r])) == Sum(Totals(list)) + r.totalBlocks
    ensures Sum(Sizes(list + [r])) == Sum(Sizes(list)) + r.bitmapSize
  {
    assert Totals(list + [r]) == Totals(list) + [r.totalBlocks] && Sizes(list + [r]) == Sizes(list) + [r.bitmapSize];
    SumAppend(Totals(list), r.totalBlocks);
    SumAppend(Sizes(list), r.bitmapSize);
  }

  method BuildList(mm: seq<MapEntry>) returns (list: seq<Region>, totalBlocks: nat, allBitmapsSize: nat)
    requires MapOk(mm)
    ensures list == Listed(mm) && list != []
    ensures totalBlocks == Sum(Totals(list)) && allBitmapsSize == Sum(Sizes(list))
  {
    list, totalBlocks, allBitmapsSize := [], 0, 0;
    for i := 0 to |mm|
      invariant list == Listed(mm[..i]) && (i > 0 ==> list != [])
      invariant totalBlocks == Sum(Totals(list)) && allBitmapsSize == Sum(Sizes(list))
    {
      ghost var before := list;
      assert mm[..i + 1][..i] == mm[..i];
      if mm[i].kind == Available || mm[i].kind == Reclaimable {
        assert mm[i].Aligned();
        var tmp := NewRegion(mm[i]);
        totalBlocks := totalBlocks + tmp.totalBlocks;
        allBitmapsSize := allBitmapsSize + tmp.bitmapSize;
        list := if i == 0 then [tmp] else list + [tmp];
        assert list == before + [tmp];
        OneMoreRegion(before, tmp);
      }
    }
    assert mm[..|mm|] == mm;
  }

  // ---------------------------------------------------------------- a place for the bitmaps

  /** The bitmaps must end below this when they go to the start of the entry. */
  function Limit(e: MapEntry, kStart: nat): nat {
    if kStart <= e.End() then kStart else e.End()
  }

  /** Where in (or, see PlaceIsSafe, near) an entry the bitmaps go: at its start, or behind the kernel. */
  function Place(e: MapEntry, kStart: nat, kEnd: nat, size: nat): Option<nat>
    requires size >= 1
  {
    if !e.Usable() || e.base < LOW_MEMORY || e.length < size then None
    else if PageRoundUp(e.base + size - 1) < Limit(e, kStart) then Some(e.base)
    else if kStart <= e.End() && PageRoundUp(kEnd + size - 1) < e.End() then Some(PageRoundUp(kEnd))
    else None
  }

  /** `p` is the first page boundary from `a` on. */
  predicate FirstPageFrom(a: nat, p: nat) {
    p % 4096 == 0 && a <= p < a + 4096
  }

  /**
   The exact condition.  `top` and `end` are the page boundaries behind the last byte but one that bitmaps at the
   start of the entry, or directly behind the kernel, would have; `behind` is the first page behind the kernel.
   */
  lemma PlaceIff(e: MapEntry, kStart: nat, kEnd: nat, size: nat, top: nat, behind: nat, end: nat)
    requires size >= 1 && FirstPageFrom(e.base + size - 1, top) && FirstPageFrom(kEnd, behind)
    requires FirstPageFrom(kEnd + size - 1, end)
    ensures var candidate := e.Usable() && e.base >= 0x10_0000 && size <= e.length;
            var front := candidate && top < e.base + e.length && (kStart <= e.base + e.length ==> top < kStart);
            var back := candidate && kStart <= e.base + e.length && end < e.base + e.length;
            Place(e, kStart, kEnd, size) == if front then Some(e.base) else if back then Some(behind) else None
  {
    RoundsUpTo(e.base + size - 1, top);
    RoundsUpTo(kEnd, behind);
    RoundsUpTo(kEnd + size - 1, end);
  }

  lemma RoundsUpTo(a: nat, p: nat)
    requires FirstPageFrom(a, p)
    ensures PageRoundUp(a) == p
  {
  }

  /** The place is page aligned and clear of the kernel; it lies in the entry unless that starts above the kernel. */
  lemma PlaceIsSafe(e: MapEntry, kStart: nat, kEnd: nat, size: nat)
    requires e.Aligned() && 0 < kStart < kEnd && size >= 1 && Place(e, kStart, kEnd, size).Some?
    ensures var s := Place(e, kStart, kEnd, size).value;
            && s % BLOCK_SIZE == 0
            && (s + size <= kStart || kEnd <= s)
            && (LOW_MEMORY <= e.base <= s && s + size <= e.End() <==> !(kStart < e.base && PageRoundUp(kEnd) < e.base))
  {
  }

  /**
   With the kernel at the start of one entry and too little room behind it, the next entry makes
   the search settle on the page behind the kernel, which belongs to no entry.
   */
  lemma PlaceOutsideTheMap() returns (mm: seq<MapEntry>, kStart: nat, kEnd: nat)
    ensures MapOk(mm) && 0 < kStart < kEnd && PoolSize(mm) >= 1
    ensures var start := FirstPlace(mm, kStart, kEnd, PoolSize(mm));
            start.Some? && forall e <- mm :: !Offers(e, start.value)
  {
    var low := MapEntry(0, 0x9_F000, Available);
    var kernels := MapEntry(0x10_0000, 0x5_0000, Available);
    var high := MapEntry(0x20_0000, 0x10_0000, Available);
    mm, kStart, kEnd := [low, kernels, high], 0x10_0000, 0x14_F800;
    PoolOfThree(low, kernels, high);
    FirstPlaceIs(mm, kStart, kEnd, PoolSize(mm), 2);
  }

  lemma PoolOfThree(a: MapEntry, b: MapEntry, c: MapEntry)
    requires Sorted([a, b, c]) && a.Usable() && b.Usable() && c.Usable()
    requires a.length >= BLOCK_SIZE && b.length >= BLOCK_SIZE && c.length >= BLOCK_SIZE
    ensures PoolSize([a, b, c]) == RegionFor(a).bitmapSize + RegionFor(b).bitmapSize + RegionFor(c).bitmapSize
  {
    var mm := [a, b, c];
    assert mm[..2] == [a, b] && [a, b][..1] == [a] && [a][..0] == [];
    assert Listed(mm) == Listed([a, b]) + [RegionFor(c)];
    assert Listed([a, b]) == Listed([a]) + [RegionFor(b)];
    assert Listed([a]) == [RegionFor(a)];
    var x, y, z := RegionFor(a).bitmapSize, RegionFor(b).bitmapSize, RegionFor(c).bitmapSize;
    assert Sizes(Listed(mm)) == [x] + [y] + [z];
    SumAppend([x] + [y], z);
    SumAppend([x], y);
  }

  /** The tests pmm_init makes on one entry. */
  method TryEntry(e: MapEntry, kStart: nat, kEnd: nat, allBitmapsSize: nat) returns (start: int)
    requires (e.Usable() ==> e.Aligned()) && 0 < kStart < kEnd && allBitmapsSize >= 1
    ensures start == match Place(e, kStart, kEnd, allBitmapsSize) case None => NOT_FOUND case Some(s) => s
    ensures start == NOT_FOUND || start > 0
  {
    start := NOT_FOUND;
    if e.kind == Available || e.kind == Reclaimable {
      if e.base < LOW_MEMORY {
        return;
      }
      if e.length >= allBitmapsSize {
        if e.base != kStart {
          if kStart <= e.base + e.length {
            if PageRoundUp(e.base + allBitmapsSize - 1) < kStart {
              return PageRoundUp(e.base);
            } else {
              if kEnd >= e.base + e.length - 1 {
                return;
              }
              if PageRoundUp(kEnd + allBitmapsSize - 1) <= e.base + e.length - 1 {
                return PageRoundUp(kEnd);
              }
            }
          } else {
            if PageRoundUp(e.base + allBitmapsSize - 1) <= e.base + e.length - 1 {
              return PageRoundUp(e.base);
            }
          }
        } else {
          if kEnd >= e.base + e.length - 1 {
            return;
          }
          if PageRoundUp(kEnd + allBitmapsSize - 1) <= e.base + e.length - 1 {
            return PageRoundUp(kEnd);
          }
        }
      }
    }
  }

  /** 0 stands for NULL and NOT_FOUND for (void*) -1; only the first of these makes pmm_init panic. */
  method FindPlace(mm: seq<MapEntry>, kStart: nat, kEnd: nat, allBitmapsSize: nat) returns (start: int, ghost at: nat)
    requires Sorted(mm) && 0 < kStart < kEnd && allBitmapsSize >= 1
    ensures start >= NOT_FOUND && (start == 0 <==> mm == [])
    ensures start == NOT_FOUND
            <==> mm != [] && forall j :: 0 <= j < |mm| ==> Place(mm[j], kStart, kEnd, allBitmapsSize).None?
    ensures start > 0 ==>
      && at < |mm| && Place(mm[at], kStart, kEnd, allBitmapsSize) == Some(start)
      && forall j :: 0 <= j < at ==> Place(mm[j], kStart, kEnd, allBitmapsSize).None?
  {
    start, at := 0, 0;
    for i := 0 to |mm|
      invariant start == if i == 0 then 0 else NOT_FOUND
      invariant forall j :: 0 <= j < i ==> Place(mm[j], kStart, kEnd, allBitmapsSize).None?
    {
      at := i;
      start := TryEntry(mm[i], kStart, kEnd, allBitmapsSize);
      if start != NOT_FOUND {
        break;
      }
    }
  }

  // ---------------------------------------------------------------- the bitmaps are laid out

  /** The list with its bitmaps one behind the other, from byte `at` of the pool on. */
  function Pack(list: seq<Region>, at: nat): seq<Region> {
    if list == [] then [] else [list[0].(bitmap := at)] + Pack(list[1..], at + list[0].bitmapSize)
  }

  lemma {:induction false} PackAppend(list: seq<Region>, r: Region, at: nat)
    ensures Pack(list + [r], at) == Pack(list, at) + [r.(bitmap := at + Sum(Sizes(list)))]
    ensures Sum(Sizes(list + [r])) == Sum(Sizes(list)) + r.bitmapSize
  {
    assert Sizes(list + [r]) == Sizes(list) + [r.bitmapSize];
    SumAppend(Sizes(list), r.bitmapSize);
    if list != [] {
      assert (list + [r])[1..] == list[1..] + [r];
      assert Sizes(list)[1..] == Sizes(list[1..]);
      PackAppend(list[1..], r, at + list[0].bitmapSize);
    } else {
      assert (list + [r])[1..] == [];
    }
  }

  /** Packing changes nothing but the bitmap addresses, and the bitmaps do not overlap. */
  lemma {:induction false} PackedApart(list: seq<Region>, at: nat)
    ensures |Pack(list, at)| == |list|
    ensures forall k :: 0 <= k < |list| ==> Pack(list, at)[k] == list[k].(bitmap := Pack(list, at)[k].bitmap)
    ensures forall k :: 0 <= k < |list| ==>
      at <= Pack(list, at)[k].bitmap && Pack(list, at)[k].bitmap + list[k].bitmapSize <= at + Sum(Sizes(list))
    ensures forall j, k :: 0 <= j < k < |list|
                ==> Pack(list, at)[j].bitmap + list[j].bitmapSize <= Pack(list, at)[k].bitmap
  {
    if list != [] {
      assert Sizes(list)[1..] == Sizes(list[1..]);
      PackedApart(list[1..], at + list[0].bitmapSize);
    }
  }

  /** The packed list is what the allocator needs; words of the last bitmap may reach 3 bytes past the pool. */
  lemma PackedIsWellFormed(list: seq<Region>)
    requires Ascending(list) && list != []
    ensures WellFormed(Pack(list, 0), 8 * (Sum(Sizes(list)) + 3)) && Totals(Pack(list, 0)) == Totals(list)
  {
    var rs, pool := Pack(list, 0), Sum(Sizes(list));
    PackedApart(list, 0);
    forall k | 0 <= k < |rs| ensures rs[k].Ok() && Fits(rs[k], 8 * (pool + 3)) {
      assert list[k].Ok() && rs[k].bitmap + list[k].bitmapSize <= pool;
    }
    forall j, k | 0 <= j < k < |rs| ensures Apart(rs[j], rs[k]) {
      assert rs[j].bitmap + list[j].bitmapSize <= rs[k].bitmap;
    }
    assert Totals(rs) == Totals(list);
  }

  /** Lays the bitmaps out in the pool and clears them. */
  method PlaceBitmaps(list: seq<Region>, mem: array<bool>) returns (rs: seq<Region>)
    requires list != [] && mem.Length == 8 * (Sum(Sizes(list)) + 3)
    modifies mem
    ensures rs == Pack(list, 0)
    ensures forall i :: 0 <= i < 8 * Sum(Sizes(list)) ==> !mem[i]
  {
    rs := [];
    var at, curr := 0, 0;
    while true
      invariant curr < |list| && rs == Pack(list[..curr], 0) && at == Sum(Sizes(list[..curr]))
      invariant 8 * at <= mem.Length && forall i :: 0 <= i < 8 * at ==> !mem[i]
      decreases |list| - curr
    {
      ghost var before := list[..curr];
      assert list[..curr + 1] == before + [list[curr]];
      PackAppend(before, list[curr], 0);
      SumPrefix(list, curr + 1);
      rs := rs + [list[curr].(bitmap := at)];
      forall i | 8 * at <= i < 8 * (at + list[curr].bitmapSize) {
        mem[i] := false;
      }
      at := at + list[curr].bitmapSize;
      if curr + 1 == |list| {
        break;
      }
      curr := curr + 1;
    }
    assert list[..curr + 1] == list;
  }

  lemma {:induction false} SumPrefix(list: seq<Region>, n: nat)
    requires n <= |list|
    ensures Sum(Sizes(list[..n])) <= Sum(Sizes(list))
    decreases |list| - n
  {
    if n < |list| {
      assert list[..n + 1] == list[..n] + [list[n]];
      PackAppend(list[..n], list[n], 0);
      SumPrefix(list, n + 1);
    } else {
      assert list[..n] == list;
    }
  }

  // ---------------------------------------------------------------- reservations

  datatype Claim = Claim(start: nat, size: nat) {
    /** The blocks reserve_region sets for this claim. */
    predicate Takes(block: nat) {
      start / BLOCK_SIZE <= block < start / BLOCK_SIZE + BlocksFor(size)
    }
  }

  /** Interrupt vectors, BIOS data, extended BIOS data. */
  function LowClaims(): seq<Claim> {
    [Claim(0, 0x3FF), Claim(0x400, 0x4FF - 0x400), Claim(0x8_0000, 0x9_FFFF - 0x8_0000)]
  }

  /** Low memory, the kernel, and the trampoline for other CPUs. */
  function FixedClaims(kStart: nat, kEnd: nat, smp: bool): seq<Claim>
    requires kStart <= kEnd
  {
    LowClaims() + [Claim(kStart, kEnd - kStart)] + if smp then [Claim(0x1000, 0x2000)] else []
  }

  function BitmapClaims(rs: seq<Region>, base: nat): seq<Claim> {
    seq(|rs|, i requires 0 <= i < |rs| => Claim(base + rs[i].bitmap, rs[i].bitmapSize))
  }

  function ReclaimClaims(mm: seq<MapEntry>): seq<Claim> {
    if mm == [] then []
    else
      var n := |mm| - 1;
      ReclaimClaims(mm[..n]) + if mm[n].kind == Reclaimable then [Claim(mm[n].base, mm[n].length)] else []
  }

  function Plan(mm: seq<MapEntry>, rs: seq<Region>, base: nat, kStart: nat, kEnd: nat, smp: bool): seq<Claim>
    requires kStart <= kEnd
  {
    FixedClaims(kStart, kEnd, smp) + BitmapClaims(rs, base) + ReclaimClaims(mm)
  }

  /** Some region reaches up to the claim's start; if not, reserve_region fails. */
  ghost predicate Reached(rs: seq<Region>, c: Claim) {
    Lookup(rs, c.start, 0) < |rs|
  }

  /** The blocks of the claim belong to the region that addr_to_bitmap finds. */
  ghost predicate Fitting(rs: seq<Region>, c: Claim)
    requires forall i :: 0 <= i < |rs| ==> rs[i].Ok()
  {
    Reached(rs, c) ==>
      var r := rs[Lookup(rs, c.start, 0)];
      r.Owns(c.start) && r.Block(c.start) + BlocksFor(c.size) <= r.totalBlocks
  }

  ghost predicate Claimed(plan: seq<Claim>, block: nat) {
    exists c <- plan :: c.Takes(block)
  }

  /** The bits that are set are exactly those of claimed blocks. */
  ghost predicate MarksExactly(rs: seq<Region>, mem: seq<bool>, plan: seq<Claim>)
    requires WellFormed(rs, |mem|)
  {
    forall i, b: nat :: 0 <= i < |rs| && b < rs[i].totalBlocks ==>
      (Taken(rs[i], mem, b) <==> Claimed(plan, rs[i].Address(b) / BLOCK_SIZE))
  }

  lemma ClaimedAppend(plan: seq<Claim>, c: Claim, block: nat)
    ensures Claimed(plan + [c], block) <==> Claimed(plan, block) || c.Takes(block)
  {
    if Claimed(plan, block) {
      var d :| d in plan && d.Takes(block);
      assert d in plan + [c];
    }
    assert c in plan + [c];
  }

  /** reserve_region on one more claim marks its blocks and no others, whatever was marked before. */
  lemma MarksOneMore(rs: seq<Region>, mem: seq<bool>, plan: seq<Claim>, c: Claim)
    requires WellFormed(rs, |mem|) && MarksExactly(rs, mem, plan) && Reached(rs, c) && Fitting(rs, c)
    ensures var r := rs[Lookup(rs, c.start, 0)];
            MarksExactly(rs, SetRange(mem, r.Pos(r.Block(c.start)), BlocksFor(c.size)), plan + [c])
  {
    var k := Lookup(rs, c.start, 0);
    var r := rs[k];
    var p, n := r.Pos(r.Block(c.start)), BlocksFor(c.size);
    var mem' := SetRange(mem, p, n);
    forall i, b: nat | 0 <= i < |rs| && b < rs[i].totalBlocks
      ensures Taken(rs[i], mem', b) <==> Claimed(plan + [c], rs[i].Address(b) / BLOCK_SIZE)
    {
      AddressBlock(rs[i], b);
      ClaimedAppend(plan, c, rs[i].Address(b) / BLOCK_SIZE);
      InRangeIff(rs, |mem|, c, k, i, b);
    }
  }

  /** A block's bit is in the range of a claim exactly when the claim takes the block. */
  lemma InRangeIff(rs: seq<Region>, m: nat, c: Claim, k: nat, i: nat, b: nat)
    requires WellFormed(rs, m) && k < |rs| && rs[k].Owns(c.start)
             && rs[k].Block(c.start) + BlocksFor(c.size) <= rs[k].totalBlocks
    requires i < |rs| && b < rs[i].totalBlocks
    ensures var p := rs[k].Pos(rs[k].Block(c.start));
            p <= rs[i].Pos(b) < p + BlocksFor(c.size) <==> c.Takes(rs[i].Address(b) / BLOCK_SIZE)
  {
    if i < k {
      assert Apart(rs[i], rs[k]);
    } else if k < i {
      assert Apart(rs[k], rs[i]);
    }
  }

  // ---------------------------------------------------------------- where the claims lie

  /** The list with its bitmaps laid out. */
  ghost function Layout(mm: seq<MapEntry>): (rs: seq<Region>)
    requires MapOk(mm)
    ensures WellFormed(rs, 8 * (PoolSize(mm) + 3))
  {
    ListedAscends(mm);
    HeadIsListed(mm);
    PackedIsWellFormed(Listed(mm));
    Pack(Listed(mm), 0)
  }

  lemma HeadIsListed(mm: seq<MapEntry>)
    requires MapOk(mm)
    ensures Listed(mm) != [] && PoolSize(mm) >= 1
  {
    ListedIff(mm, RegionFor(mm[0]));
    assert StandsFor(RegionFor(mm[0]), mm[0]);
    ListedAscends(mm);
    assert Sizes(Listed(mm))[0] >= 1;
  }

  /** The region that stands for a usable entry. */
  lemma RegionOfEntry(mm: seq<MapEntry>, i: nat) returns (k: nat)
    requires MapOk(mm) && i < |mm| && mm[i].Usable()
    ensures k < |Layout(mm)| && Layout(mm)[k].firstAddr == mm[i].base
            && Layout(mm)[k].lastAddr == mm[i].End() - BLOCK_SIZE
    ensures Layout(mm)[k].totalBlocks == mm[i].length / BLOCK_SIZE
  {
    ListedIff(mm, RegionFor(mm[i]));
    assert StandsFor(RegionFor(mm[i]), mm[i]);
    k :| 0 <= k < |Listed(mm)| && Listed(mm)[k] == RegionFor(mm[i]);
    PackedApart(Listed(mm), 0);
  }

  /** addr_to_bitmap finds the region that holds the claim's first byte. */
  ghost predicate Lands(rs: seq<Region>, c: Claim) {
    Reached(rs, c) && rs[Lookup(rs, c.start, 0)].Holds(c.start)
  }

  /** A claim inside an entry lands in its region exactly when it starts no later than the last block does. */
  lemma ClaimLandsIff(mm: seq<MapEntry>, i: nat, c: Claim)
    requires MapOk(mm) && i < |mm| && mm[i].Usable()
    requires mm[i].base <= c.start < mm[i].End() && c.start + c.size <= mm[i].End()
    ensures Lands(Layout(mm), c) <==> c.start <= mm[i].End() - BLOCK_SIZE
    ensures Lands(Layout(mm), c) ==> Fitting(Layout(mm), c)
  {
    var k := RegionOfEntry(mm, i);
    var rs := Layout(mm);
    assert rs[k].Ok();
    LookupFindsOwner(rs, 8 * (PoolSize(mm) + 3), c.start, k);
    if c.start > rs[k].lastAddr && k + 1 < |rs| {
      assert Apart(rs[k], rs[k + 1]);
    }
  }

  lemma ClaimInEntry(mm: seq<MapEntry>, i: nat, c: Claim)
    requires MapOk(mm) && i < |mm| && mm[i].Usable()
    requires mm[i].base <= c.start <= mm[i].End() - BLOCK_SIZE && c.start + c.size <= mm[i].End()
    ensures Reached(Layout(mm), c) && Fitting(Layout(mm), c)
  {
    ClaimLandsIff(mm, i, c);
  }

  /** Offset of the last bitmap in the pool. */
  ghost function LastOffset(mm: seq<MapEntry>): nat
    requires MapOk(mm)
  {
    Layout(mm)[|Layout(mm)| - 1].bitmap
  }

  /**
   With the pool inside an entry all bitmaps are reserved there exactly when the last one starts no later than the
   last block.
   */
  lemma BitmapClaimsLandIff(mm: seq<MapEntry>, i: nat, start: nat)
    requires MapOk(mm) && i < |mm| && mm[i].Usable()
    requires mm[i].base <= start && start + PoolSize(mm) <= mm[i].End()
    ensures (forall c <- BitmapClaims(Layout(mm), start) :: Lands(Layout(mm), c))
            <==> start + LastOffset(mm) <= mm[i].End() - BLOCK_SIZE
    ensures start + LastOffset(mm) <= mm[i].End() - BLOCK_SIZE
            ==> forall c <- BitmapClaims(Layout(mm), start) :: Reached(Layout(mm), c) && Fitting(Layout(mm), c)
  {
    var rs, cs := Layout(mm), BitmapClaims(Layout(mm), start);
    forall k: nat | k < |cs|
      ensures cs[k].start <= Last(cs).start && LandsUpTo(rs, cs[k], mm[i].End() - BLOCK_SIZE) {
      OneBitmapLandsIff(mm, i, start, k);
    }
    AllLandIff(rs, cs, mm[i].End() - BLOCK_SIZE);
  }

  ghost predicate LandsUpTo(rs: seq<Region>, c: Claim, limit: int)
    requires forall i :: 0 <= i < |rs| ==> rs[i].Ok()
  {
    (Lands(rs, c) <==> c.start <= limit) && (Lands(rs, c) ==> Fitting(rs, c))
  }

  ghost function Last(cs: seq<Claim>): Claim
    requires cs != []
  {
    cs[|cs| - 1]
  }

  lemma AllLandIff(rs: seq<Region>, cs: seq<Claim>, limit: int)
    requires forall i :: 0 <= i < |rs| ==> rs[i].Ok()
    requires cs != [] && forall k: nat :: k < |cs| ==> cs[k].start <= Last(cs).start && LandsUpTo(rs, cs[k], limit)
    ensures (forall c <- cs :: Lands(rs, c)) <==> Last(cs).start <= limit
    ensures Last(cs).start <= limit ==> forall c <- cs :: Reached(rs, c) && Fitting(rs, c)
  {
    assert Last(cs) in cs;
  }

  lemma OneBitmapLandsIff(mm: seq<MapEntry>, i: nat, start: nat, k: nat)
    requires MapOk(mm) && i < |mm| && mm[i].Usable() && k < |Layout(mm)|
    requires mm[i].base <= start && start + PoolSize(mm) <= mm[i].End()
    ensures var rs, c := Layout(mm), BitmapClaims(Layout(mm), start)[k];
            c.start <= start + LastOffset(mm) && LandsUpTo(rs, c, mm[i].End() - BLOCK_SIZE)
  {
    PackedApart(Listed(mm), 0);
    ListedAscends(mm);
    assert Layout(mm)[k].Ok();
    ClaimLandsIff(mm, i, BitmapClaims(Layout(mm), start)[k]);
  }

  /**
   At the start of an entry the last bitmap always starts early enough; behind the kernel it does so
   exactly when rounding up the kernel's end leaves room for the bitmaps before it.
   */
  lemma PlaceLeavesRoomIff(e: MapEntry, kStart: nat, kEnd: nat, size: nat, last: nat)
    requires e.Aligned() && 0 < kStart < kEnd && last < size && Place(e, kStart, kEnd, size).Some?
    ensures Place(e, kStart, kEnd, size).value + last <= e.End() - BLOCK_SIZE
            <==> PageRoundUp(e.base + size - 1) < Limit(e, kStart) || PageRoundUp(kEnd) + last <= e.End() - BLOCK_SIZE
  {
  }

  lemma {:induction false} ReclaimClaimsFit(mm: seq<MapEntry>, n: nat, c: Claim)
    requires MapOk(mm) && n <= |mm| && c in ReclaimClaims(mm[..n])
    ensures Reached(Layout(mm), c) && Fitting(Layout(mm), c)
  {
    assert mm[..n][..n - 1] == mm[..n - 1];
    if c in ReclaimClaims(mm[..n - 1]) {
      ReclaimClaimsFit(mm, n - 1, c);
    } else {
      ClaimInEntry(mm, n - 1, c);
    }
  }

  /** The reservation of the extended BIOS data area stops one page short of its end. */
  lemma EbdaTailNotClaimed(kStart: nat, kEnd: nat, smp: bool)
    requires LOW_MEMORY <= kStart <= kEnd
    ensures !Claimed(FixedClaims(kStart, kEnd, smp), 0x9_FFFF / BLOCK_SIZE)
    ensures Claimed(FixedClaims(kStart, kEnd, smp), 0x9_EFFF / BLOCK_SIZE)
  {
    assert FixedClaims(kStart, kEnd, smp)[2].Takes(0x9_EFFF / BLOCK_SIZE);
  }

  // ---------------------------------------------------------------- pmm_init

  ghost function FirstPlace(mm: seq<MapEntry>, kStart: nat, kEnd: nat, size: nat): Option<nat>
    requires size >= 1
  {
    if mm == [] then None
    else if Place(mm[0], kStart, kEnd, size).Some? then Place(mm[0], kStart, kEnd, size)
    else FirstPlace(mm[1..], kStart, kEnd, size)
  }

  lemma {:induction false} FirstPlaceIs(mm: seq<MapEntry>, kStart: nat, kEnd: nat, size: nat, i: nat)
    requires size >= 1 && i <= |mm| && (forall j :: 0 <= j < i ==> Place(mm[j], kStart, kEnd, size).None?)
    requires i < |mm| ==> Place(mm[i], kStart, kEnd, size).Some?
    ensures FirstPlace(mm, kStart, kEnd, size) == if i < |mm| then Place(mm[i], kStart, kEnd, size) else None
  {
    if i > 0 {
      FirstPlaceIs(mm[1..], kStart, kEnd, size, i - 1);
    }
  }

  /** The first entry with a place decides. */
  lemma {:induction false} FirstPlaceIsFirst(mm: seq<MapEntry>, kStart: nat, kEnd: nat, size: nat) returns (i: nat)
    requires size >= 1
    ensures i <= |mm| && forall j :: 0 <= j < i ==> Place(mm[j], kStart, kEnd, size).None?
    ensures i < |mm| ==> Place(mm[i], kStart, kEnd, size).Some?
    ensures FirstPlace(mm, kStart, kEnd, size) == if i < |mm| then Place(mm[i], kStart, kEnd, size) else None
  {
    if mm == [] || Place(mm[0], kStart, kEnd, size).Some? {
      i := 0;
    } else {
      var k := FirstPlaceIsFirst(mm[1..], kStart, kEnd, size);
      i := k + 1;
      assert forall j :: 0 < j < i ==> mm[j] == mm[1..][j - 1];
    }
  }

  ghost predicate AllReached(rs: seq<Region>, plan: seq<Claim>) {
    forall c <- plan :: Reached(rs, c)
  }

  /** The claims made so far are marked, and nothing else is. */
  ghost predicate Progress(pmm: Pmm, done: seq<Claim>)
    reads pmm, pmm.mem
  {
    && pmm.Valid() && MarksExactly(pmm.regions, pmm.mem[..], done) && AllReached(pmm.regions, done)
    && pmm.totalReserved == pmm.totalUsed
  }

  /** The claims of a plan can be made one after the other. */
  ghost predicate Feasible(rs: seq<Region>, plan: seq<Claim>)
    requires forall i :: 0 <= i < |rs| ==> rs[i].Ok()
  {
    forall k :: 0 <= k < |plan| ==> Fitting(rs, plan[k])
  }

  /** The first `k` claims of a feasible plan have been made. */
  ghost predicate Made(pmm: Pmm, plan: seq<Claim>, k: nat)
    reads pmm, pmm.mem
  {
    k <= |plan| && Progress(pmm, plan[..k]) && Feasible(pmm.regions, plan)
  }

  /** Makes claim number `k` of the plan. */
  method Reserve(pmm: Pmm, start: nat, size: nat, ghost plan: seq<Claim>, ghost k: nat) returns (r: int)
    requires Made(pmm, plan, k) && k < |plan| && plan[k] == Claim(start, size)
    modifies pmm`used, pmm`reserved, pmm`totalUsed, pmm`totalReserved, pmm.mem
    ensures r == 0 || r == -1
    ensures if r == 0 then Made(pmm, plan, k + 1) else !AllReached(pmm.regions, plan)
  {
    ghost var was := pmm.mem[..];
    assert Fitting(pmm.regions, plan[k]) && plan[..k + 1] == plan[..k] + [plan[k]] && plan[k] in plan;
    r := pmm.ReserveRegion(start, size);
    if r == 0 {
      MarksOneMore(pmm.regions, was, plan[..k], plan[k]);
    }
  }

  /** What the reservations need: no claim runs over the end of the region it starts in. */
  ghost predicate PlanFits(mm: seq<MapEntry>, kStart: nat, kEnd: nat, smp: bool)
    requires MapOk(mm) && 0 < kStart < kEnd
  {
    HeadIsListed(mm);
    var start := FirstPlace(mm, kStart, kEnd, PoolSize(mm));
    start.Some? && Feasible(Layout(mm), Plan(mm, Layout(mm), start.value, kStart, kEnd, smp))
  }

  /** The reservations below the kernel; `ok` is false when the code panics. */
  method ReserveLow(pmm: Pmm, ghost plan: seq<Claim>) returns (ok: bool)
    requires Made(pmm, plan, 0) && LowClaims() <= plan
    modifies pmm`used, pmm`reserved, pmm`totalUsed, pmm`totalReserved, pmm.mem
    ensures if ok then Made(pmm, plan, 3) else !AllReached(pmm.regions, plan)
  {
    ghost var low := LowClaims();
    assert plan[0] == low[0] && plan[1] == low[1] && plan[2] == low[2];
    var r := Reserve(pmm, 0, 0x3FF, plan, 0);
    if r != 0 {
      return false;
    }
    r := Reserve(pmm, 0x400, 0x4FF - 0x400, plan, 1);
    if r != 0 {
      return false;
    }
    r := Reserve(pmm, 0x8_0000, 0x9_FFFF - 0x8_0000, plan, 2);
    return r == 0;
  }

  /** The fixed reservations, in order. */
  method ReserveFixed(pmm: Pmm, kStart: nat, kEnd: nat, smp: bool, ghost plan: seq<Claim>) returns (ok: bool)
    requires kStart <= kEnd && FixedClaims(kStart, kEnd, smp) <= plan && Made(pmm, plan, 0)
    modifies pmm`used, pmm`reserved, pmm`totalUsed, pmm`totalReserved, pmm.mem
    ensures if ok then Made(pmm, plan, |FixedClaims(kStart, kEnd, smp)|) else !AllReached(pmm.regions, plan)
  {
    ghost var fixed := FixedClaims(kStart, kEnd, smp);
    assert LowClaims() <= fixed && plan[3] == fixed[3] && (smp ==> plan[4] == fixed[4]);
    ok := ReserveLow(pmm, plan);
    if !ok {
      return;
    }
    var r := Reserve(pmm, kStart, kEnd - kStart, plan, 3);
    if r != 0 {
      return false;
    }
    if smp {
      r := Reserve(pmm, 0x1000, 0x2000, plan, 4);
    }
    return r == 0;
  }

  /** The reservation of the memory the bitmaps themselves take. */
  method ReserveBitmaps(pmm: Pmm, base: nat, ghost plan: seq<Claim>, ghost from: nat) returns (ok: bool)
    requires from + |pmm.regions| <= |plan| && plan[from..from + |pmm.regions|] == BitmapClaims(pmm.regions, base)
    requires Made(pmm, plan, from)
    modifies pmm`used, pmm`reserved, pmm`totalUsed, pmm`totalReserved, pmm.mem
    ensures if ok then Made(pmm, plan, from + |pmm.regions|) else !AllReached(pmm.regions, plan)
  {
    var curr := 0;
    while true
      invariant curr < |pmm.regions| && Made(pmm, plan, from + curr)
      decreases |pmm.regions| - curr
    {
      assert plan[from + curr] == BitmapClaims(pmm.regions, base)[curr];
      var r := Reserve(pmm, base + pmm.regions[curr].bitmap, pmm.regions[curr].bitmapSize, plan, from + curr);
      if r != 0 {
        return false;
      }
      if curr + 1 == |pmm.regions| {
        break;
      }
      curr := curr + 1;
    }
    return true;
  }

  lemma {:induction false} ReclaimPrefix(mm: seq<MapEntry>, n: nat)
    requires n <= |mm|
    ensures ReclaimClaims(mm[..n]) <= ReclaimClaims(mm)
    decreases |mm| - n
  {
    if n < |mm| {
      assert mm[..n + 1][..n] == mm[..n];
      ReclaimPrefix(mm, n + 1);
    } else {
      assert mm[..n] == mm;
    }
  }

  /** Reclaimable memory starts out reserved. */
  method ReserveReclaimable(pmm: Pmm, mm: seq<MapEntry>, ghost plan: seq<Claim>, ghost from: nat) returns (ok: bool)
    requires from <= |plan| && plan[from..] == ReclaimClaims(mm)
    requires Made(pmm, plan, from)
    modifies pmm`used, pmm`reserved, pmm`totalUsed, pmm`totalReserved, pmm.mem
    ensures if ok then Progress(pmm, plan) else !AllReached(pmm.regions, plan)
  {
    ghost var k := from;
    for i := 0 to |mm|
      invariant k == from + |ReclaimClaims(mm[..i])| && Made(pmm, plan, k)
    {
      assert mm[..i + 1][..i] == mm[..i];
      ReclaimPrefix(mm, i + 1);
      if mm[i].kind == Reclaimable {
        assert plan[k] == ReclaimClaims(mm)[k - from] == ReclaimClaims(mm[..i + 1])[k - from]
            == Claim(mm[i].base, mm[i].length);
        var r := Reserve(pmm, mm[i].base, mm[i].length, plan, k);
        if r != 0 {
          return false;
        }
        k := k + 1;
      }
    }
    assert mm[..|mm|] == mm && plan[..k] == plan;
    return true;
  }

  /** Steps up to the cleared bitmaps: the list, a place for the pool, and its layout. */
  method SetUp(mm: seq<MapEntry>, kStart: nat, kEnd: nat, mem: array<bool>) returns (pmm: Pmm, size: nat, start: int)
    requires MapOk(mm) && 0 < kStart < kEnd && mem.Length == 8 * (PoolSize(mm) + 3)
    modifies mem
    ensures fresh(pmm) && size == PoolSize(mm) >= 1 && pmm.regions == Layout(mm) && pmm.mem == mem && Progress(pmm, [])
    ensures start == match FirstPlace(mm, kStart, kEnd, size) case None => NOT_FOUND case Some(s) => s
  {
    HeadIsListed(mm);
    var list, totalBlocks;
    list, totalBlocks, size := BuildList(mm);
    ghost var at;
    start, at := FindPlace(mm, kStart, kEnd, size);
    FirstPlaceIs(mm, kStart, kEnd, size, if start > 0 then at else |mm|);
    var rs := PlaceBitmaps(list, mem);
    ListedAscends(mm);
    PackedIsWellFormed(list);
    PackedApart(list, 0);
    forall i | 0 <= i < |rs| ensures Blank(rs[i], mem[..]) {
      assert rs[i].Ok() && rs[i].bitmap + list[i].bitmapSize <= size;
    }
    pmm := new Pmm(rs, mem, totalBlocks);
    NothingMarked(rs, mem[..]);
  }

  lemma NothingMarked(rs: seq<Region>, mem: seq<bool>)
    requires WellFormed(rs, |mem|) && forall i :: 0 <= i < |rs| ==> Blank(rs[i], mem)
    ensures MarksExactly(rs, mem, [])
  {
    forall i, b: nat | 0 <= i < |rs| && b < rs[i].totalBlocks ensures !Taken(rs[i], mem, b) {
      assert Blank(rs[i], mem);
    }
  }

  /**
   The memory manager after boot: it manages the usable entries, and the blocks in use are exactly
   those some reservation takes, each counted once.  `ok` is false when a reservation fails and the code panics.
   */
  method PmmInit(mm: seq<MapEntry>, kStart: nat, kEnd: nat, smp: bool, mem: array<bool>)
    returns (ok: bool, pmm: Pmm, kernelVirtualEnd: nat, start: nat)
    requires MapOk(mm) && 0 < kStart < kEnd && PlanFits(mm, kStart, kEnd, smp)
    requires mem.Length == 8 * (PoolSize(mm) + 3)
    modifies mem
    ensures PoolSize(mm) >= 1 && FirstPlace(mm, kStart, kEnd, PoolSize(mm)) == Some(start)
    ensures kernelVirtualEnd == kEnd + KERNEL_OFFSET + PoolSize(mm)
    ensures ok <==> AllReached(Layout(mm), Plan(mm, Layout(mm), start, kStart, kEnd, smp))
    ensures ok ==> pmm.regions == Layout(mm) && pmm.mem == mem
                   && Progress(pmm, Plan(mm, Layout(mm), start, kStart, kEnd, smp))
  {
    HeadIsListed(mm);
    var size;
    pmm, size, start := SetUp(mm, kStart, kEnd, mem);
    kernelVirtualEnd := kEnd + KERNEL_OFFSET + size;
    ghost var fixed, bitmaps := FixedClaims(kStart, kEnd, smp), BitmapClaims(pmm.regions, start);
    ghost var plan := Plan(mm, pmm.regions, start, kStart, kEnd, smp);
    assert plan[..0] == [] && plan[|fixed|..|fixed| + |bitmaps|] == bitmaps
        && plan[|fixed| + |bitmaps|..] == ReclaimClaims(mm);
    ok := ReserveFixed(pmm, kStart, kEnd, smp, plan);
    if ok {
      ok := ReserveBitmaps(pmm, start, plan, |fixed|);
    }
    if ok {
      ok := ReserveReclaimable(pmm, mm, plan, |fixed| + |bitmaps|);
    }
  }
}
