/**
 What the reservations of pmm_init cover, and what they leave out: the bytes of the kernel and of
 the bitmaps themselves.
 */
module BootMemory {
  import opened FrameSpec
  import opened PhysicalMemory
  import opened MemoryMap

  /** The blocks of a claim lie between those of its first and its last byte. */
  lemma ClaimPages(c: Claim, b: nat)
    requires c.size >= 1 && c.Takes(b)
    ensures c.start / BLOCK_SIZE <= b <= (c.start + c.size - 1) / BLOCK_SIZE
  {
  }

  lemma {:induction false} ReclaimClaimIs(mm: seq<MapEntry>, c: Claim) returns (i: nat)
    requires c in ReclaimClaims(mm)
    ensures i < |mm| && mm[i].kind == Reclaimable && c == Claim(mm[i].base, mm[i].length)
  {
    var n := |mm| - 1;
    if c in ReclaimClaims(mm[..n]) {
      i := ReclaimClaimIs(mm[..n], c);
    } else {
      i := n;
    }
  }

  lemma {:induction false} ReclaimClaimOf(mm: seq<MapEntry>, i: nat)
    requires i < |mm| && mm[i].kind == Reclaimable
    ensures Claim(mm[i].base, mm[i].length) in ReclaimClaims(mm)
  {
    var n := |mm| - 1;
    if i < n {
      ReclaimClaimOf(mm[..n], i);
    }
  }

  /** A block inside an available entry is not claimed as reclaimable memory. */
  lemma NotReclaimed(mm: seq<MapEntry>, i: nat, a: nat)
    requires Sorted(mm) && i < |mm| && mm[i].kind == Available && mm[i].base <= a < mm[i].End()
    ensures !Claimed(ReclaimClaims(mm), a / BLOCK_SIZE)
  {
    if c :| c in ReclaimClaims(mm) && c.Takes(a / BLOCK_SIZE) {
      var j := ReclaimClaimIs(mm, c);
      assert mm[j].Usable() && mm[j].Aligned() && mm[i].Aligned();
      ClaimPages(c, a / BLOCK_SIZE);
      assert mm[j].End() <= mm[i].base || mm[i].End() <= mm[j].base;
    }
  }

  lemma ClaimedParts(a: seq<Claim>, b: seq<Claim>, c: seq<Claim>, block: nat)
    ensures Claimed(a + b + c, block) <==> Claimed(a, block) || Claimed(b, block) || Claimed(c, block)
  {
    forall d ensures d in a + b + c <==> d in a || d in b || d in c {
    }
  }

  /** Who claims a block above 1 MB inside an available entry. */
  lemma ClaimersAbove(mm: seq<MapEntry>, i: nat, start: nat, kStart: nat, kEnd: nat, smp: bool, a: nat)
    requires MapOk(mm) && LOW_MEMORY <= kStart < kEnd && LOW_MEMORY <= a
    requires i < |mm| && mm[i].kind == Available && mm[i].base <= a < mm[i].End()
    ensures Claimed(Plan(mm, Layout(mm), start, kStart, kEnd, smp), a / BLOCK_SIZE)
            <==> Claim(kStart, kEnd - kStart).Takes(a / BLOCK_SIZE)
                 || Claimed(BitmapClaims(Layout(mm), start), a / BLOCK_SIZE)
  {
    var b := a / BLOCK_SIZE;
    ClaimedParts(FixedClaims(kStart, kEnd, smp), BitmapClaims(Layout(mm), start), ReclaimClaims(mm), b);
    NotReclaimed(mm, i, a);
  }

  /** Bitmap claims stay on the pages of the pool. */
  lemma BitmapClaimPages(mm: seq<MapEntry>, start: nat, b: nat)
    requires MapOk(mm) && PoolSize(mm) >= 1 && Claimed(BitmapClaims(Layout(mm), start), b)
    ensures start / BLOCK_SIZE <= b <= (start + PoolSize(mm) - 1) / BLOCK_SIZE
  {
    var c :| c in BitmapClaims(Layout(mm), start) && c.Takes(b);
    var k :| 0 <= k < |Layout(mm)| && c == BitmapClaims(Layout(mm), start)[k];
    PackedApart(Listed(mm), 0);
    assert Layout(mm)[k].Ok();
    ClaimPages(c, b);
  }

  // ---------------------------------------------------------------- low memory

  /** The blocks below 1 MB that pmm_init keeps from being handed out, wherever the kernel and the bitmaps are above. */
  predicate LowReserved(b: nat, smp: bool) {
    || b == 0                            // interrupt vectors and BIOS data
    || 0x80 <= b < 0x9F                  // extended BIOS data, but for its last page
    || (smp && 1 <= b < 3)               // trampoline for the other CPUs
  }

  lemma FixedBelow(kStart: nat, kEnd: nat, smp: bool, b: nat)
    requires LOW_MEMORY <= kStart < kEnd && b < 0x100
    ensures Claimed(FixedClaims(kStart, kEnd, smp), b) <==> LowReserved(b, smp)
  {
    var fixed := FixedClaims(kStart, kEnd, smp);
    assert fixed[0].Takes(b) <==> b == 0;
    assert fixed[1].Takes(b) <==> b == 0;
    assert fixed[2].Takes(b) <==> 0x80 <= b < 0x9F;
    assert !fixed[3].Takes(b);
    if smp {
      assert fixed[4].Takes(b) <==> 1 <= b < 3;
    }
    assert fixed[0] in fixed && fixed[2] in fixed && (smp ==> fixed[4] in fixed);
  }

  /** With the bitmaps above 1 MB, the blocks of available memory below it that some reservation takes. */
  lemma LowClaimedIff(mm: seq<MapEntry>, i: nat, start: nat, kStart: nat, kEnd: nat, smp: bool, b: nat)
    requires MapOk(mm) && PoolSize(mm) >= 1 && LOW_MEMORY <= kStart < kEnd && LOW_MEMORY <= start
    requires i < |mm| && mm[i].kind == Available && mm[i].base <= b * BLOCK_SIZE < mm[i].End() && b < 0x100
    ensures Claimed(Plan(mm, Layout(mm), start, kStart, kEnd, smp), b) <==> LowReserved(b, smp)
  {
    var fixed, bitmaps := FixedClaims(kStart, kEnd, smp), BitmapClaims(Layout(mm), start);
    ClaimedParts(fixed, bitmaps, ReclaimClaims(mm), b);
    FixedBelow(kStart, kEnd, smp, b);
    NotReclaimed(mm, i, b * BLOCK_SIZE);
    if Claimed(bitmaps, b) {
      BitmapClaimPages(mm, start, b);
    }
  }

  /** So these frames, and no others of available memory below 1 MB, are in use after pmm_init. */
  lemma LowUsedIff(mm: seq<MapEntry>, mem: seq<bool>, i: nat, start: nat, kStart: nat, kEnd: nat, smp: bool, b: nat)
    requires MapOk(mm) && PoolSize(mm) >= 1 && LOW_MEMORY <= kStart < kEnd && LOW_MEMORY <= start
    requires i < |mm| && mm[i].kind == Available && mm[i].base <= b * BLOCK_SIZE < mm[i].End() && b < 0x100
    requires |mem| == 8 * (PoolSize(mm) + 3)
    requires MarksExactly(Layout(mm), mem, Plan(mm, Layout(mm), start, kStart, kEnd, smp))
    ensures b in UsedFrames(Layout(mm), mem) <==> LowReserved(b, smp)
  {
    UsedIffClaimed(mm, mem, Plan(mm, Layout(mm), start, kStart, kEnd, smp), i, b * BLOCK_SIZE);
    LowClaimedIff(mm, i, start, kStart, kEnd, smp, b);
  }

  // ---------------------------------------------------------------- the kernel

  /**
   Every byte of the kernel is in a used block after pmm_init exactly when it lies in reclaimable memory, which is
   reserved as a whole, or the offset of its start leaves room in the whole blocks of its size.
   */
  lemma KernelClaimedIff(mm: seq<MapEntry>, i: nat, start: nat, kStart: nat, kEnd: nat, smp: bool)
    requires MapOk(mm) && PoolSize(mm) >= 1 && LOW_MEMORY <= kStart < kEnd
    requires i < |mm| && mm[i].Usable() && mm[i].base <= kStart && kEnd <= mm[i].End()
    requires start + PoolSize(mm) <= kStart || PageRoundUp(kEnd) <= start
    ensures (forall a :: kStart <= a < kEnd ==> Claimed(Plan(mm, Layout(mm), start, kStart, kEnd, smp), a / BLOCK_SIZE))
            <==> || mm[i].kind == Reclaimable
                 || kStart % BLOCK_SIZE + (kEnd - kStart) <= BLOCK_SIZE * BlocksFor(kEnd - kStart)
  {
    var own := Claim(kStart, kEnd - kStart);
    ReservationCoversIff(kStart, kEnd - kStart);
    if mm[i].kind == Reclaimable {
      forall a | kStart <= a < kEnd ensures Claimed(Plan(mm, Layout(mm), start, kStart, kEnd, smp), a / BLOCK_SIZE) {
        ReclaimableClaimed(mm, i, start, kStart, kEnd, smp, a);
      }
    } else if kStart % BLOCK_SIZE + (kEnd - kStart) <= BLOCK_SIZE * BlocksFor(kEnd - kStart) {
      forall a | kStart <= a < kEnd ensures Claimed(Plan(mm, Layout(mm), start, kStart, kEnd, smp), a / BLOCK_SIZE) {
        ClaimersAbove(mm, i, start, kStart, kEnd, smp, a);
        assert own.Takes(a / BLOCK_SIZE);
      }
    } else {
      ClaimersAbove(mm, i, start, kStart, kEnd, smp, kEnd - 1);
      LastPageMissed(kStart, kEnd);
      if Claimed(BitmapClaims(Layout(mm), start), (kEnd - 1) / BLOCK_SIZE) {
        BitmapClaimPages(mm, start, (kEnd - 1) / BLOCK_SIZE);
        PoolOffLastPage(start, PoolSize(mm), kStart, kEnd);
      }
    }
  }

  lemma LastPageMissed(kStart: nat, kEnd: nat)
    requires kStart < kEnd && kStart % BLOCK_SIZE + (kEnd - kStart) > BLOCK_SIZE * BlocksFor(kEnd - kStart)
    ensures !Claim(kStart, kEnd - kStart).Takes((kEnd - 1) / BLOCK_SIZE)
            && kStart / BLOCK_SIZE < (kEnd - 1) / BLOCK_SIZE
  {
  }

  lemma PoolOffLastPage(start: nat, size: nat, kStart: nat, kEnd: nat)
    requires size >= 1 && kStart / BLOCK_SIZE < (kEnd - 1) / BLOCK_SIZE
    requires start + size <= kStart || PageRoundUp(kEnd) <= start
    ensures (start + size - 1) / BLOCK_SIZE < (kEnd - 1) / BLOCK_SIZE || (kEnd - 1) / BLOCK_SIZE < start / BLOCK_SIZE
  {
  }

  // ---------------------------------------------------------------- the bitmaps

  /**
   The pages of bitmap `k` are claimed by its own reservation, or the last one by that of the next bitmap, which
   starts there.
   */
  ghost predicate Kept(rs: seq<Region>, start: nat, k: nat)
    requires k < |rs|
  {
    var at, size := start + rs[k].bitmap, rs[k].bitmapSize;
    var shared := k + 1 < |rs| && (at + size) % BLOCK_SIZE != 0;
    at % BLOCK_SIZE + size <= BLOCK_SIZE * (BlocksFor(size) + if shared then 1 else 0)
  }

  /** The bitmaps of a layout follow one another without a gap. */
  lemma {:induction false} PackedTight(list: seq<Region>, at: nat)
    ensures |Pack(list, at)| == |list|
    ensures list != [] ==> Pack(list, at)[0].bitmap == at
    ensures forall k :: 0 <= k < |list| - 1
                ==> Pack(list, at)[k + 1].bitmap == Pack(list, at)[k].bitmap + list[k].bitmapSize
    ensures list != [] ==> Pack(list, at)[|list| - 1].bitmap + list[|list| - 1].bitmapSize == at + Sum(Sizes(list))
  {
    if list != [] {
      assert Sizes(list)[1..] == Sizes(list[1..]);
      PackedTight(list[1..], at + list[0].bitmapSize);
    }
  }

  /** The bitmap a byte of the pool belongs to. */
  lemma {:induction false} BitmapOfByte(list: seq<Region>, at: nat, a: nat) returns (k: nat)
    requires at <= a < at + Sum(Sizes(list))
    ensures k < |list| == |Pack(list, at)|
            && Pack(list, at)[k].bitmap <= a < Pack(list, at)[k].bitmap + list[k].bitmapSize
    ensures Pack(list, at)[k].bitmapSize == list[k].bitmapSize
  {
    PackedApart(list, at);
    assert Sizes(list)[1..] == Sizes(list[1..]);
    if a < at + list[0].bitmapSize {
      k := 0;
    } else {
      var j := BitmapOfByte(list[1..], at + list[0].bitmapSize, a);
      k := j + 1;
    }
  }

  /** The layout as the lemmas below use it. */
  lemma LayoutIsTight(mm: seq<MapEntry>)
    requires MapOk(mm)
    ensures var rs := Layout(mm);
            && rs[|rs| - 1].bitmap + rs[|rs| - 1].bitmapSize == PoolSize(mm)
            && (forall k :: 0 <= k < |rs| ==> rs[k].bitmapSize >= 1 && rs[k].bitmap + rs[k].bitmapSize <= PoolSize(mm))
            && (forall k :: 0 <= k < |rs| - 1 ==> rs[k + 1].bitmap == rs[k].bitmap + rs[k].bitmapSize)
            && (forall j, k :: 0 <= j < k < |rs| ==> rs[j].bitmap + rs[j].bitmapSize <= rs[k].bitmap)
  {
    PackedTight(Listed(mm), 0);
    PackedApart(Listed(mm), 0);
    ListedAscends(mm);
    forall k | 0 <= k < |Layout(mm)| ensures Layout(mm)[k].bitmapSize >= 1 {
      assert Layout(mm)[k].Ok();
    }
  }

  /** If all bitmaps are kept, every byte of the pool is in a claimed block. */
  lemma KeptIsClaimed(mm: seq<MapEntry>, start: nat, a: nat)
    requires MapOk(mm) && start <= a < start + PoolSize(mm)
    requires forall k :: 0 <= k < |Layout(mm)| ==> Kept(Layout(mm), start, k)
    ensures Claimed(BitmapClaims(Layout(mm), start), a / BLOCK_SIZE)
  {
    var k := BitmapOfByte(Listed(mm), 0, a - start);
    assert Kept(Layout(mm), start, k);
    KeptByteIsClaimed(mm, start, k, a);
  }

  lemma KeptByteIsClaimed(mm: seq<MapEntry>, start: nat, k: nat, a: nat)
    requires MapOk(mm) && k < |Layout(mm)| && Kept(Layout(mm), start, k)
    requires var r := Layout(mm)[k]; start + r.bitmap <= a < start + r.bitmap + r.bitmapSize
    ensures Claimed(BitmapClaims(Layout(mm), start), a / BLOCK_SIZE)
  {
    var rs, claims := Layout(mm), BitmapClaims(Layout(mm), start);
    LayoutIsTight(mm);
    assert claims[k] in claims;
    if !claims[k].Takes(a / BLOCK_SIZE) {
      assert claims[k + 1] in claims && claims[k + 1].Takes(a / BLOCK_SIZE);
    }
  }

  /** A bitmap that is not kept has a byte in a block that no bitmap's reservation takes. */
  lemma NotKeptIsMissed(mm: seq<MapEntry>, start: nat, k: nat) returns (a: nat)
    requires MapOk(mm) && k < |Layout(mm)| && !Kept(Layout(mm), start, k)
    ensures start <= a < start + PoolSize(mm) && !Claimed(BitmapClaims(Layout(mm), start), a / BLOCK_SIZE)
  {
    var rs := Layout(mm);
    var at, size := start + rs[k].bitmap, rs[k].bitmapSize;
    LayoutIsTight(mm);
    var p := at / BLOCK_SIZE + BlocksFor(size);
    a := p * BLOCK_SIZE;
    if c :| c in BitmapClaims(rs, start) && c.Takes(p) {
      var j: nat :| j < |rs| && c == BitmapClaims(rs, start)[j];
      ClaimMisses(mm, start, k, j, p);
    }
  }

  lemma ClaimMisses(mm: seq<MapEntry>, start: nat, k: nat, j: nat, p: nat)
    requires MapOk(mm) && k < |Layout(mm)| && !Kept(Layout(mm), start, k) && j < |Layout(mm)|
    requires p == (start + Layout(mm)[k].bitmap) / BLOCK_SIZE + BlocksFor(Layout(mm)[k].bitmapSize)
    ensures !BitmapClaims(Layout(mm), start)[j].Takes(p)
  {
    var rs := Layout(mm);
    var at, size := start + rs[k].bitmap, rs[k].bitmapSize;
    LayoutIsTight(mm);
    if j < k {
    } else if j > k {
      assert rs[k + 1].bitmap <= rs[j].bitmap;
    }
  }

  /**
   Every byte of the bitmaps is in a used block after pmm_init exactly when they lie in reclaimable memory,
   which is reserved as a whole, or each bitmap is kept by its own reservation and the next one's.
   */
  lemma PoolClaimedIff(mm: seq<MapEntry>, i: nat, start: nat, kStart: nat, kEnd: nat, smp: bool)
    requires MapOk(mm) && LOW_MEMORY <= kStart < kEnd && kStart % BLOCK_SIZE == 0
    requires i < |mm| && mm[i].Usable() && LOW_MEMORY <= mm[i].base <= start && start + PoolSize(mm) <= mm[i].End()
    requires start % BLOCK_SIZE == 0 && (start + PoolSize(mm) <= kStart || kEnd <= start)
    ensures (forall a :: start <= a < start + PoolSize(mm)
                ==> Claimed(Plan(mm, Layout(mm), start, kStart, kEnd, smp), a / BLOCK_SIZE))
            <==> mm[i].kind == Reclaimable || forall k :: 0 <= k < |Layout(mm)| ==> Kept(Layout(mm), start, k)
  {
    var plan := Plan(mm, Layout(mm), start, kStart, kEnd, smp);
    if mm[i].kind == Reclaimable {
      forall a | start <= a < start + PoolSize(mm) ensures Claimed(plan, a / BLOCK_SIZE) {
        ReclaimedWhole(mm, i, a);
        ClaimedParts(FixedClaims(kStart, kEnd, smp), BitmapClaims(Layout(mm), start), ReclaimClaims(mm),
            a / BLOCK_SIZE);
      }
    } else if forall k :: 0 <= k < |Layout(mm)| ==> Kept(Layout(mm), start, k) {
      forall a | start <= a < start + PoolSize(mm) ensures Claimed(plan, a / BLOCK_SIZE) {
        KeptIsClaimed(mm, start, a);
        ClaimersAbove(mm, i, start, kStart, kEnd, smp, a);
      }
    } else {
      var k :| 0 <= k < |Layout(mm)| && !Kept(Layout(mm), start, k);
      var a := NotKeptIsMissed(mm, start, k);
      ClaimersAbove(mm, i, start, kStart, kEnd, smp, a);
      KernelOffPool(start, PoolSize(mm), kStart, kEnd, a);
    }
  }

  lemma KernelOffPool(start: nat, size: nat, kStart: nat, kEnd: nat, a: nat)
    requires kStart < kEnd && kStart % BLOCK_SIZE == 0 && start % BLOCK_SIZE == 0 && start <= a < start + size
    requires start + size <= kStart || kEnd <= start
    ensures !Claim(kStart, kEnd - kStart).Takes(a / BLOCK_SIZE)
  {
    if Claim(kStart, kEnd - kStart).Takes(a / BLOCK_SIZE) {
      ClaimPages(Claim(kStart, kEnd - kStart), a / BLOCK_SIZE);
    }
  }

  lemma ReclaimedWhole(mm: seq<MapEntry>, i: nat, a: nat)
    requires Sorted(mm) && i < |mm| && mm[i].kind == Reclaimable && mm[i].base <= a < mm[i].End()
    ensures Claimed(ReclaimClaims(mm), a / BLOCK_SIZE)
  {
    ReclaimClaimOf(mm, i);
    assert mm[i].Aligned();
    assert Claim(mm[i].base, mm[i].length).Takes(a / BLOCK_SIZE);
  }

  /** For a byte of a usable entry, its frame is in use after pmm_init exactly when a reservation takes its block. */
  lemma UsedIffClaimed(mm: seq<MapEntry>, mem: seq<bool>, plan: seq<Claim>, i: nat, a: nat)
    requires MapOk(mm) && |mem| == 8 * (PoolSize(mm) + 3) && MarksExactly(Layout(mm), mem, plan)
    requires i < |mm| && mm[i].Usable() && mm[i].base <= a < mm[i].End()
    ensures a / BLOCK_SIZE in UsedFrames(Layout(mm), mem) <==> Claimed(plan, a / BLOCK_SIZE)
  {
    var rs := Layout(mm);
    var k := RegionOfEntry(mm, i);
    assert rs[k].Ok() && mm[i].Aligned();
    var b := a / BLOCK_SIZE - rs[k].firstAddr / BLOCK_SIZE;
    assert b < rs[k].totalBlocks && rs[k].Address(b) / BLOCK_SIZE == a / BLOCK_SIZE;
    UsedFramesAfterWrite(rs, mem, k, b, true);
  }

  // ---------------------------------------------------------------- what is in use after boot

  /** Block `b` is one of the whole blocks of `size` bytes, and at least one, counted from the block of `start`. */
  predicate Occupies(start: nat, size: nat, b: nat) {
    start / 4096 <= b && (b == start / 4096 || (b + 1 - start / 4096) * 4096 <= size)
  }

  lemma TakesWhole(c: Claim, b: nat)
    ensures c.Takes(b) <==> Occupies(c.start, c.size, b)
  {
  }

  ghost predicate InBitmaps(rs: seq<Region>, start: nat, b: nat) {
    exists k :: 0 <= k < |rs| && Occupies(start + rs[k].bitmap, rs[k].bitmapSize, b)
  }

  lemma BitmapClaimsIff(rs: seq<Region>, start: nat, b: nat)
    ensures Claimed(BitmapClaims(rs, start), b) <==> InBitmaps(rs, start, b)
  {
    var claims := BitmapClaims(rs, start);
    forall k | 0 <= k < |rs|
      ensures claims[k] in claims && (claims[k].Takes(b) <==> Occupies(start + rs[k].bitmap, rs[k].bitmapSize, b))
    {
      TakesWhole(claims[k], b);
    }
  }

  /** Above 1 MB a frame of available memory is in use after pmm_init for the kernel or for a bitmap only. */
  lemma HighUsedIff(mm: seq<MapEntry>, mem: seq<bool>, i: nat, start: nat, kStart: nat, kEnd: nat, smp: bool, b: nat)
    requires MapOk(mm) && LOW_MEMORY <= kStart < kEnd && |mem| == 8 * (PoolSize(mm) + 3)
    requires i < |mm| && mm[i].kind == Available && mm[i].base <= b * BLOCK_SIZE < mm[i].End() && 0x100 <= b
    requires MarksExactly(Layout(mm), mem, Plan(mm, Layout(mm), start, kStart, kEnd, smp))
    ensures b in UsedFrames(Layout(mm), mem)
            <==> Occupies(kStart, kEnd - kStart, b) || InBitmaps(Layout(mm), start, b)
  {
    UsedIffClaimed(mm, mem, Plan(mm, Layout(mm), start, kStart, kEnd, smp), i, b * BLOCK_SIZE);
    ClaimersAbove(mm, i, start, kStart, kEnd, smp, b * BLOCK_SIZE);
    TakesWhole(Claim(kStart, kEnd - kStart), b);
    BitmapClaimsIff(Layout(mm), start, b);
  }

  lemma ReclaimableClaimed(mm: seq<MapEntry>, i: nat, start: nat, kStart: nat, kEnd: nat, smp: bool, a: nat)
    requires MapOk(mm) && kStart <= kEnd
    requires i < |mm| && mm[i].kind == Reclaimable && mm[i].base <= a < mm[i].End()
    ensures Claimed(Plan(mm, Layout(mm), start, kStart, kEnd, smp), a / BLOCK_SIZE)
  {
    ReclaimedWhole(mm, i, a);
    ClaimedParts(FixedClaims(kStart, kEnd, smp), BitmapClaims(Layout(mm), start), ReclaimClaims(mm), a / BLOCK_SIZE);
  }

  /** Every frame of reclaimable memory is: `a` is any of its bytes. */
  lemma ReclaimableUsed(mm: seq<MapEntry>, mem: seq<bool>, i: nat, start: nat, kStart: nat, kEnd: nat, smp: bool,
                        a: nat)
    requires MapOk(mm) && kStart <= kEnd && |mem| == 8 * (PoolSize(mm) + 3)
    requires i < |mm| && mm[i].kind == Reclaimable && mm[i].base <= a < mm[i].End()
    requires MarksExactly(Layout(mm), mem, Plan(mm, Layout(mm), start, kStart, kEnd, smp))
    ensures a / BLOCK_SIZE in UsedFrames(Layout(mm), mem)
  {
    ReclaimableClaimed(mm, i, start, kStart, kEnd, smp, a);
    UsedIffClaimed(mm, mem, Plan(mm, Layout(mm), start, kStart, kEnd, smp), i, a);
  }

  // ---------------------------------------------------------------- witnesses

  lemma LayoutOfTwo(a: MapEntry, b: MapEntry)
    requires MapOk([a, b]) && b.Usable() && a.length >= BLOCK_SIZE && b.length >= BLOCK_SIZE
    ensures Layout([a, b]) == [RegionFor(a).(bitmap := 0), RegionFor(b).(bitmap := RegionFor(a).bitmapSize)]
    ensures PoolSize([a, b]) == RegionFor(a).bitmapSize + RegionFor(b).bitmapSize
  {
    var x, y := RegionFor(a), RegionFor(b);
    assert [a, b][..1] == [a] && [a][..0] == [];
    assert Listed([a]) == [x];
    assert Listed([a, b]) == [x, y];
    assert [x, y][1..] == [y] && [y][1..] == [];
    assert Pack([y], x.bitmapSize) == [y.(bitmap := x.bitmapSize)];
    assert Pack([x, y], 0) == [x.(bitmap := 0)] + Pack([y], x.bitmapSize);
    assert Sizes([x, y]) == [x.bitmapSize] + [y.bitmapSize];
    SumAppend([x.bitmapSize], y.bitmapSize);
  }

  const LOW := MapEntry(0, 0x9_F000, Available)

  /** 256 MB of memory: the bitmap of the upper entry takes two pages, and only one is reserved. */
  lemma PoolPageUnreserved() returns (mm: seq<MapEntry>, kStart: nat, kEnd: nat, a: nat)
    ensures MapOk(mm) && LOW_MEMORY <= kStart < kEnd && PoolSize(mm) >= 1
    ensures var start := FirstPlace(mm, kStart, kEnd, PoolSize(mm));
            && start.Some? && start.value <= a < start.value + PoolSize(mm)
            && !Claimed(Plan(mm, Layout(mm), start.value, kStart, kEnd, true), a / BLOCK_SIZE)
  {
    var high := MapEntry(0x10_0000, 0xFF0_0000, Available);
    mm, kStart, kEnd := [LOW, high], 0x10_0000, 0x12_0000;
    LayoutOfTwo(LOW, high);
    FirstPlaceIs(mm, kStart, kEnd, PoolSize(mm), 1);
    var start := FirstPlace(mm, kStart, kEnd, PoolSize(mm)).value;
    assert start == 0x12_0000 && !Kept(Layout(mm), start, 1);
    PoolClaimedIff(mm, 1, start, kStart, kEnd, true);
    a :| start <= a < start + PoolSize(mm) && !Claimed(Plan(mm, Layout(mm), start, kStart, kEnd, true), a / BLOCK_SIZE);
  }

  /**
   The kernel ends in the last but one page of its entry and the pool goes to the last one: the second
   bitmap starts behind the last block's first byte, no region reaches up to it, and pmm_init panics.
   */
  lemma PoolMissesItsRegion() returns (mm: seq<MapEntry>, kStart: nat, kEnd: nat)
    ensures MapOk(mm) && LOW_MEMORY <= kStart < kEnd && PoolSize(mm) >= 1
    ensures var start := FirstPlace(mm, kStart, kEnd, PoolSize(mm));
            && start.Some? && (exists e <- mm :: e.base <= start.value && start.value + PoolSize(mm) <= e.End())
            && !AllReached(Layout(mm), Plan(mm, Layout(mm), start.value, kStart, kEnd, true))
  {
    var high := MapEntry(0x10_0000, 0x5_0000, Available);
    mm, kStart, kEnd := [LOW, high], 0x10_0000, 0x14_E100;
    LayoutOfTwo(LOW, high);
    FirstPlaceIs(mm, kStart, kEnd, PoolSize(mm), 1);
    var start := FirstPlace(mm, kStart, kEnd, PoolSize(mm)).value;
    var rs, c := Layout(mm), Claim(start + 20, 10);
    assert start == 0x14_F000 && high in mm;
    assert c == BitmapClaims(rs, start)[1] && c in BitmapClaims(rs, start);
    assert c in Plan(mm, rs, start, kStart, kEnd, true);
    LookupFindsOwner(rs, 8 * (PoolSize(mm) + 3), c.start, 1);
  }
}
