/**
 The physical memory manager as the kernel runs it on one CPU: bitmaps changed in place
 through word accesses, per-region and global counters, and the search hint.

 The list of regions is a sequence in list order; `next` of the last one is the first.
 */
module PhysicalMemory {
  import opened Wrappers
  import opened Bitmap
  import opened FrameSpec

  /** (phys_addr_t) -1 */
  const NO_FRAME := 0xFFFF_FFFF

  function Sum(s: seq<nat>): nat {
    if s == [] then 0 else s[0] + Sum(s[1..])
  }

  lemma {:induction false} SumUpdate(s: seq<nat>, i: nat, v: nat)
    requires i < |s|
    ensures Sum(s[i := v]) == Sum(s) - s[i] + v
  {
    if i > 0 {
      SumUpdate(s[1..], i - 1, v);
      assert s[i := v][1..] == s[1..][i - 1 := v];
    } else {
      assert s[i := v][1..] == s[1..];
    }
  }

  lemma {:induction false} SumBounds(s: seq<nat>, t: seq<nat>)
    requires |s| == |t| && forall i :: 0 <= i < |s| ==> s[i] <= t[i]
    ensures Sum(s) <= Sum(t)
    ensures Sum(s) == Sum(t) <==> s == t
  {
    if s != [] {
      SumBounds(s[1..], t[1..]);
      assert s == [s[0]] + s[1..] && t == [t[0]] + t[1..];
    }
  }

  ghost function Totals(rs: seq<Region>): seq<nat> {
    seq(|rs|, i requires 0 <= i < |rs| => rs[i].totalBlocks)
  }

  /** Every counter says what the bitmaps say. */
  ghost predicate Accounted(rs: seq<Region>, mem: seq<bool>, used: seq<nat>) {
    && WellFormed(rs, |mem|)
    && |used| == |rs|
    && forall i :: 0 <= i < |rs| ==> used[i] == Used(rs[i], mem)
  }

  /** Memory with the bits [p, p + n) set. */
  function SetRange(mem: seq<bool>, p: nat, n: nat): seq<bool> {
    seq(|mem|, i requires 0 <= i < |mem| => p <= i < p + n || mem[i])
  }

  lemma RangeStart(mem: seq<bool>, p: nat)
    ensures SetRange(mem, p, 0) == mem
  {
  }

  lemma RangeStep(mem: seq<bool>, p: nat, n: nat)
    requires p + n < |mem|
    ensures SetRange(mem, p, n)[p + n := true] == SetRange(mem, p, n + 1)
  {
  }

  /** Two lists of counters that differ at most at position k. */
  predicate OnlyAt(s: seq<nat>, t: seq<nat>, k: nat) {
    |s| == |t| && forall j :: 0 <= j < |s| && j != k ==> s[j] == t[j]
  }

  /** How many blocks a reservation of `size` bytes takes. */
  function BlocksFor(size: nat): nat {
    if size < BLOCK_SIZE then 1 else size / BLOCK_SIZE
  }

  /**
   A reservation covers every byte of [start, start + size) exactly when the offset of the first
   byte in its block leaves room: the size is rounded down to whole blocks.
   */
  lemma ReservationCoversIff(start: nat, size: nat)
    requires size > 0
    ensures (forall a :: start <= a < start + size
                ==> start / BLOCK_SIZE <= a / BLOCK_SIZE < start / BLOCK_SIZE + BlocksFor(size))
            <==> start % BLOCK_SIZE + size <= BLOCK_SIZE * BlocksFor(size)
  {
    var last := start + size - 1;
    if start % BLOCK_SIZE + size <= BLOCK_SIZE * BlocksFor(size) {
      forall a | start <= a < start + size
        ensures start / BLOCK_SIZE <= a / BLOCK_SIZE < start / BLOCK_SIZE + BlocksFor(size)
      {
      }
    } else {
      assert last / BLOCK_SIZE >= start / BLOCK_SIZE + BlocksFor(size);
    }
  }

  /** Flipping one bit and adjusting one counter keeps all accounts right. */
  lemma WriteKeepsAccounts(rs: seq<Region>, mem: seq<bool>, used: seq<nat>, i: nat, b: nat, v: bool)
    requires Accounted(rs, mem, used) && i < |rs| && b < rs[i].totalBlocks && Taken(rs[i], mem, b) != v
    ensures v || used[i] >= 1
    ensures Accounted(rs, mem[rs[i].Pos(b) := v], used[i := if v then used[i] + 1 else used[i] - 1])
  {
    UsedAfterWrite(rs, mem, i, b, v, i);
    var mem' := mem[rs[i].Pos(b) := v];
    var used' := used[i := if v then used[i] + 1 else used[i] - 1];
    forall j | 0 <= j < |rs| ensures used'[j] == Used(rs[j], mem') {
      UsedAfterWrite(rs, mem, i, b, v, j);
    }
  }

  /** The word that holds a block's bit lies inside the pool. */
  lemma WordInside(r: Region, m: nat, b: nat)
    requires Fits(r, m) && b < r.totalBlocks
    ensures 8 * (r.bitmap + b / 32 * 4) + 32 <= m
  {
    assert b / 32 < (r.totalBlocks + 31) / 32;
  }

  lemma {:induction false} NothingSet(mem: seq<bool>, lo: nat, n: nat)
    requires lo + n <= |mem| && forall i :: lo <= i < lo + n ==> !mem[i]
    ensures Count(mem, lo, n) == 0
  {
    if n > 0 {
      NothingSet(mem, lo, n - 1);
    }
  }

  lemma {:induction false} SumZero(s: seq<nat>)
    requires forall i :: 0 <= i < |s| ==> s[i] == 0
    ensures Sum(s) == 0
  {
    if s != [] {
      SumZero(s[1..]);
    }
  }

  /** The total counter equals the number of blocks exactly when every region is full. */
  lemma AllFull(rs: seq<Region>, mem: seq<bool>, used: seq<nat>)
    requires Accounted(rs, mem, used)
    ensures Sum(used) <= Sum(Totals(rs))
    ensures Sum(used) == Sum(Totals(rs)) <==> forall i: nat :: i < |rs| ==> Full(rs[i], mem)
  {
    forall i: nat | i < |rs| ensures used[i] <= Totals(rs)[i] && (used[i] == Totals(rs)[i] <==> Full(rs[i], mem)) {
      UsedFull(rs[i], mem);
    }
    SumBounds(used, Totals(rs));
  }

  /** Nothing free was found between the hint and region `curr`. */
  ghost predicate Searching(rs: seq<Region>, s: Frames, curr: nat)
    requires FrameSpec.Valid(rs, s)
  {
    StartOf(s.hint) <= curr <= |rs| && forall j: nat :: StartOf(s.hint) <= j < curr ==> Full(rs[j], s.mem)
  }

  lemma NothingFound(rs: seq<Region>, s: Frames)
    requires FrameSpec.Valid(rs, s) && Searching(rs, s, |rs|)
    ensures Alloc(rs, s) == (s, None)
  {
    AllocFailsIff(rs, s);
  }

  lemma FoundHere(rs: seq<Region>, s: Frames, curr: nat, index: nat)
    requires FrameSpec.Valid(rs, s) && curr < |rs| && Searching(rs, s, curr)
    requires index < rs[curr].totalBlocks && LeastFree(rs[curr], s.mem, 0) == index
    ensures Alloc(rs, s) == (Mark(rs, s, curr, index), Some(rs[curr].Address(index)))
  {
    FirstFreeSkips(rs, s.mem, StartOf(s.hint), curr);
  }

  lemma {:induction false} FirstFreeSkips(rs: seq<Region>, mem: seq<bool>, i: nat, k: nat)
    requires WellFormed(rs, |mem|) && i <= k <= |rs|
    requires forall j: nat :: i <= j < k ==> Full(rs[j], mem)
    ensures FirstFree(rs, mem, i) == FirstFree(rs, mem, k)
    decreases k - i
  {
    if i < k {
      LeastFreeFrom(rs[i], mem, 0, rs[i].totalBlocks);
      FirstFreeSkips(rs, mem, i + 1, k);
    }
  }

  lemma LeastFreeIs(r: Region, mem: seq<bool>, index: int)
    requires Fits(r, |mem|) && -1 <= index < r.totalBlocks
    requires forall b: nat :: b < (if index == -1 then r.totalBlocks else index) ==> Bit(mem, r.bitmap, b)
    requires index >= 0 ==> !Bit(mem, r.bitmap, index)
    ensures index == -1 ==> Full(r, mem)
    ensures LeastFree(r, mem, 0) == if index == -1 then r.totalBlocks else index
  {
    var k := if index == -1 then r.totalBlocks else index;
    forall b: nat | b < k ensures Taken(r, mem, b) {
      assert Bit(mem, r.bitmap, b);
    }
    LeastFreeFrom(r, mem, 0, k);
  }

  lemma {:induction false} LeastFreeFrom(r: Region, mem: seq<bool>, b: nat, k: nat)
    requires Fits(r, |mem|) && b <= k <= r.totalBlocks
    requires forall i: nat :: b <= i < k ==> Taken(r, mem, i)
    requires k < r.totalBlocks ==> !Taken(r, mem, k)
    ensures LeastFree(r, mem, b) == k
    decreases k - b
  {
    if b < k {
      LeastFreeFrom(r, mem, b + 1, k);
    }
  }

  /** No bit of the region's bitmap is set. */
  ghost predicate Blank(r: Region, mem: seq<bool>)
    requires Fits(r, |mem|)
  {
    forall i :: r.Pos(0) <= i < r.Pos(0) + r.totalBlocks ==> !mem[i]
  }

  class Pmm {
    const regions: seq<Region>
    const mem: array<bool>
    var hint: int
    var used: seq<nat>
    var reserved: seq<nat>
    var totalBlocks: nat
    var totalUsed: nat
    var totalReserved: nat

    ghost function View(): Frames
      reads this, mem
    {
      Frames(mem[..], hint)
    }

    ghost predicate Valid()
      reads this, mem
    {
      && FrameSpec.Valid(regions, View())
      && Accounted(regions, mem[..], used) && |reserved| == |regions|
      && totalBlocks == Sum(Totals(regions))
      && totalUsed == Sum(used)
      && totalReserved == Sum(reserved)
    }

    /** The state right after the bitmaps have been cleared. */
    constructor (regions: seq<Region>, mem: array<bool>, totalBlocks: nat)
      requires WellFormed(regions, mem.Length) && totalBlocks == Sum(Totals(regions))
      requires forall i :: 0 <= i < |regions| ==> Blank(regions[i], mem[..])
      ensures Valid() && this.regions == regions && this.mem == mem && totalUsed == totalReserved == 0
      ensures View() == Frames(mem[..], -1) && forall i :: 0 <= i < |regions| ==> used[i] == 0
    {
      this.regions := regions;
      this.mem := mem;
      this.totalBlocks := totalBlocks;
      hint := -1;
      used := seq(|regions|, _ => 0);
      reserved := seq(|regions|, _ => 0);
      totalUsed := 0;
      totalReserved := 0;
      new;
      forall i | 0 <= i < |regions| ensures Used(regions[i], mem[..]) == 0 {
        assert Blank(regions[i], mem[..]);
        NothingSet(mem[..], regions[i].Pos(0), regions[i].totalBlocks);
      }
      SumZero(used);
      SumZero(reserved);
    }

    /** Index of the list element that manages `address`, or -1 for NULL. */
    method AddrToBitmap(address: nat) returns (r: int)
      requires WellFormed(regions, mem.Length)
      ensures r == if Lookup(regions, address, 0) == |regions| then -1 else Lookup(regions, address, 0)
    {
      var curr := 0;
      while true
        invariant curr < |regions|
        invariant Lookup(regions, address, 0) == Lookup(regions, address, curr)
        decreases |regions| - curr
      {
        if address <= regions[curr].lastAddr {
          return curr;
        }
        if curr + 1 == |regions| {
          break;
        }
        curr := curr + 1;
      }
      return -1;
    }

    /** Sets or clears the bit of a block. */
    method WriteBit(r: Region, b: nat, v: bool)
      requires Fits(r, mem.Length) && b < r.totalBlocks
      modifies mem
      ensures mem[..] == old(mem[..])[r.Pos(b) := v]
    {
      WordInside(r, mem.Length, b);
      if v {
        BitmapSet(mem, r.bitmap, b);
      } else {
        BitmapUnset(mem, r.bitmap, b);
      }
    }

    /** Sets a block's bit and counts it. */
    method MarkUsed(i: nat, b: nat)
      requires Valid() && i < |regions| && b < regions[i].totalBlocks && !Taken(regions[i], mem[..], b)
      modifies this`used, this`totalUsed, mem
      ensures Valid()
      ensures mem[..] == old(mem[..])[regions[i].Pos(b) := true]
      ensures used == old(used)[i := old(used[i]) + 1] && totalUsed == old(totalUsed) + 1
    {
      WriteKeepsAccounts(regions, mem[..], used, i, b, true);
      SumUpdate(used, i, used[i] + 1);
      WriteBit(regions[i], b, true);
      used := used[i := used[i] + 1];
      totalUsed := totalUsed + 1;
    }

    /** Clears a block's bit and takes it out of the counts. */
    method MarkFree(i: nat, b: nat)
      requires Valid() && i < |regions| && b < regions[i].totalBlocks && Taken(regions[i], mem[..], b)
      modifies this`used, this`totalUsed, mem
      ensures Valid()
      ensures mem[..] == old(mem[..])[regions[i].Pos(b) := false]
      ensures used[i] + 1 == old(used[i]) && totalUsed + 1 == old(totalUsed)
    {
      WriteKeepsAccounts(regions, mem[..], used, i, b, false);
      SumUpdate(used, i, used[i] - 1);
      WriteBit(regions[i], b, false);
      used := used[i := used[i] - 1];
      totalUsed := totalUsed - 1;
    }

    /** Reserves one block, unless it is in use already. */
    method ReserveBlock(i: nat, b: nat)
      requires Valid() && i < |regions| && b < regions[i].totalBlocks
      modifies this`used, this`reserved, this`totalUsed, this`totalReserved, mem
      ensures Valid()
      ensures mem[..] == old(mem[..])[regions[i].Pos(b) := true]
      ensures OnlyAt(old(used), used, i) && OnlyAt(old(reserved), reserved, i)
      ensures totalUsed == old(totalUsed) + used[i] - old(used[i])
      ensures totalReserved == old(totalReserved) + used[i] - old(used[i])
    {
      WordInside(regions[i], mem.Length, b);
      var taken := BitmapTest(mem, regions[i].bitmap, b);
      if !taken {
        SumUpdate(reserved, i, reserved[i] + 1);
        reserved := reserved[i := reserved[i] + 1];
        totalReserved := totalReserved + 1;
        MarkUsed(i, b);
      }
    }

    /** Marks a run of blocks as reserved; a block that is already in use is not counted again. */
    method ReserveRegion(startAddr: nat, size: nat) returns (r: int)
      requires Valid()
      requires var k := Lookup(regions, startAddr, 0);
               k < |regions| ==> regions[k].Owns(startAddr)
                                 && regions[k].Block(startAddr) + BlocksFor(size) <= regions[k].totalBlocks
      modifies this`used, this`reserved, this`totalUsed, this`totalReserved, mem
      ensures Valid()
      ensures r == if Lookup(regions, startAddr, 0) == |regions| then -1 else 0
      ensures r == -1 ==> mem[..] == old(mem[..]) && used == old(used) && reserved == old(reserved)
      ensures r == 0 ==>
        var k := Lookup(regions, startAddr, 0);
        && mem[..] == SetRange(old(mem[..]), regions[k].Pos(regions[k].Block(startAddr)), BlocksFor(size))
        && totalUsed == old(totalUsed) + used[k] - old(used[k])
        && totalReserved == old(totalReserved) + used[k] - old(used[k])
        && OnlyAt(old(used), used, k) && OnlyAt(old(reserved), reserved, k)
    {
      var bitmap := AddrToBitmap(startAddr);
      if bitmap == -1 {
        return -1;
      }
      var regionInBlocks := if size < BLOCK_SIZE then 1 else size / BLOCK_SIZE;
      var bit := startAddr / BLOCK_SIZE - regions[bitmap].firstAddr / BLOCK_SIZE;
      ghost var p := regions[bitmap].Pos(bit);
      ghost var first, was := bit, mem[..];
      RangeStart(was, p);
      for i := 0 to regionInBlocks
        invariant Valid() && bit == first + i
        invariant mem[..] == SetRange(was, p, i)
        invariant totalUsed == old(totalUsed) + used[bitmap] - old(used[bitmap])
        invariant totalReserved == old(totalReserved) + used[bitmap] - old(used[bitmap])
        invariant OnlyAt(old(used), used, bitmap) && OnlyAt(old(reserved), reserved, bitmap)
      {
        RangeStep(was, p, i);
        assert regions[bitmap].Pos(bit) == p + i;
        ReserveBlock(bitmap, bit);
        bit := bit + 1;
      }
      return 0;
    }

    /**
     What happens under the lock: take the first unset bit of one bitmap and move the hint on when that was the last.
     */
    method TakeFirst(curr: nat) returns (index: int)
      requires Valid() && curr < |regions|
      modifies this`hint, this`used, this`totalUsed, mem
      ensures Valid()
      ensures index == -1 ==> View() == old(View()) && Full(regions[curr], old(View()).mem)
      ensures index != -1 ==>
                && 0 <= index < regions[curr].totalBlocks
                && LeastFree(regions[curr], old(View()).mem, 0) == index
      ensures index != -1 ==> View() == Mark(regions, old(View()), curr, index)
    {
      index := BitmapFirstUnset(mem, regions[curr].bitmap, regions[curr].totalBlocks);
      LeastFreeIs(regions[curr], mem[..], index);
      if index != -1 {
        MarkUsed(curr, index);
        if used[curr] == regions[curr].totalBlocks {
          hint := Next(curr, |regions|);
        }
      }
    }

    /** A free frame's address, or NO_FRAME. */
    method GetFreeFrame() returns (frame: nat)
      requires Valid()
      modifies this`hint, this`used, this`totalUsed, mem
      ensures Valid()
      ensures View() == Alloc(regions, old(View())).0
      ensures frame == match Alloc(regions, old(View())).1 case None => NO_FRAME case Some(a) => a
    {
      ghost var s := View();
      if totalBlocks - totalUsed == 0 {
        AllFull(regions, mem[..], used);
        AllocFailsIff(regions, s);
        return NO_FRAME;
      }
      var curr := if hint != -1 then hint else 0;
      while true
        invariant Valid() && View() == s
        invariant curr < |regions| && Searching(regions, s, curr)
        decreases |regions| - curr
      {
        if regions[curr].totalBlocks - used[curr] > 0 {
          var index := TakeFirst(curr);
          if index != -1 {
            FoundHere(regions, s, curr, index);
            return BLOCK_SIZE * index + regions[curr].firstAddr;
          }
        } else {
          UsedFull(regions[curr], s.mem);
        }
        if curr + 1 == |regions| {
          NothingFound(regions, s);
          break;
        }
        curr := curr + 1;
      }
      return NO_FRAME;
    }

    /**
     Gives a frame back.  `ok` is false when the code panics: no region reaches up to the address,
     or the block is already free.  Addresses in a gap between regions are not supported.
     */
    method FreeFrame(addr: nat) returns (ok: bool)
      requires Valid()
      requires Lookup(regions, addr, 0) < |regions| ==> Managed(regions, addr)
      modifies this`used, this`totalUsed, mem
      ensures Valid()
      ensures ok <==> IsTaken(regions, old(View()), addr)
      ensures View() == if ok then Release(regions, old(View()), addr) else old(View())
    {
      LookupManaged(regions, mem.Length, addr);
      var bitmap := AddrToBitmap(addr);
      if bitmap == -1 {
        return false;
      }
      BlockAddress(regions[bitmap], addr);
      var index := addr / BLOCK_SIZE - regions[bitmap].firstAddr / BLOCK_SIZE;
      WordInside(regions[bitmap], mem.Length, index);
      var taken := BitmapTest(mem, regions[bitmap].bitmap, index);
      if !taken {
        return false;
      }
      MarkFree(bitmap, index);
      return true;
    }
  }
}
