/**
 The physical frame allocator as functions on its abstract state: one bitmap per memory
 region, packed in a shared pool, and the hint that remembers where to search first.
 */
module FrameSpec {
  import opened Wrappers
  import opened Bitmap

  const BLOCK_SIZE := 4096

  /** The fields of a list element that never change once the list is built. */
  datatype Region = Region(bitmap: nat, bitmapSize: nat, firstAddr: nat, lastAddr: nat, totalBlocks: nat) {
    /** A page-aligned region: `lastAddr` is the address of its last block. */
    predicate Ok() {
      && totalBlocks >= 1
      && firstAddr % BLOCK_SIZE == 0
      && lastAddr == firstAddr + BLOCK_SIZE * (totalBlocks - 1)
      && bitmapSize == (totalBlocks + 7) / 8
    }

    /** `addr` is a byte of one of the blocks. */
    predicate Holds(addr: nat) {
      firstAddr <= addr < lastAddr + BLOCK_SIZE
    }

    /** The same, as far as addr_to_bitmap sees it: up to the first byte of the last block. */
    predicate Owns(addr: nat) {
      firstAddr <= addr <= lastAddr
    }

    function Block(addr: nat): nat
      requires Ok() && Owns(addr)
    {
      addr / BLOCK_SIZE - firstAddr / BLOCK_SIZE
    }

    function Address(b: nat): nat {
      BLOCK_SIZE * b + firstAddr
    }

    /** Position in the pool of the bit of block `b`. */
    function Pos(b: nat): nat {
      8 * bitmap + b
    }
  }

  /** The shared bitmap pool and `last_with_free_blocks`, an index into the list or -1 for NULL. */
  datatype Frames = Frames(mem: seq<bool>, hint: int)

  ghost predicate Fits(r: Region, m: nat) {
    8 * r.bitmap + (r.totalBlocks + 31) / 32 * 32 <= m
  }

  /** Ascending, disjoint, page-aligned regions whose bitmaps are packed one after the other. */
  ghost predicate WellFormed(rs: seq<Region>, m: nat) {
    && rs != []
    && (forall i :: 0 <= i < |rs| ==> rs[i].Ok() && Fits(rs[i], m))
    && (forall i, j :: 0 <= i < j < |rs| ==> Apart(rs[i], rs[j]))
  }

  ghost predicate Apart(r: Region, q: Region) {
    && r.lastAddr + BLOCK_SIZE <= q.firstAddr
    && r.bitmap + r.bitmapSize <= q.bitmap
  }

  predicate Taken(r: Region, mem: seq<bool>, b: nat)
    requires r.Pos(b) < |mem|
  {
    mem[r.Pos(b)]
  }

  ghost predicate Full(r: Region, mem: seq<bool>)
    requires Fits(r, |mem|)
  {
    forall b: nat :: b < r.totalBlocks ==> Taken(r, mem, b)
  }

  ghost function Used(r: Region, mem: seq<bool>): nat
    requires Fits(r, |mem|)
  {
    Count(mem, r.Pos(0), r.totalBlocks)
  }

  // ---------------------------------------------------------------- allocation

  ghost function LeastFree(r: Region, mem: seq<bool>, b: nat): (k: nat)
    requires Fits(r, |mem|) && b <= r.totalBlocks
    ensures b <= k <= r.totalBlocks
    ensures forall i: nat :: b <= i < k ==> Taken(r, mem, i)
    ensures k < r.totalBlocks ==> !Taken(r, mem, k)
    decreases r.totalBlocks - b
  {
    if b < r.totalBlocks && Taken(r, mem, b) then LeastFree(r, mem, b + 1) else b
  }

  /** First free block in list order from region `i` to the end of the list. */
  ghost function FirstFree(rs: seq<Region>, mem: seq<bool>, i: nat): (f: Option<(nat, nat)>)
    requires WellFormed(rs, |mem|) && i <= |rs|
    ensures f.Some? ==>
      && i <= f.value.0 < |rs| && f.value.1 < rs[f.value.0].totalBlocks
      && !Taken(rs[f.value.0], mem, f.value.1)
      && (forall b: nat :: b < f.value.1 ==> Taken(rs[f.value.0], mem, b))
      && forall j: nat :: i <= j < f.value.0 ==> Full(rs[j], mem)
    ensures f.None? ==> forall j: nat :: i <= j < |rs| ==> Full(rs[j], mem)
    decreases |rs| - i
  {
    if i == |rs| then None
    else
      var b := LeastFree(rs[i], mem, 0);
      if b < rs[i].totalBlocks then Some((i, b)) else FirstFree(rs, mem, i + 1)
  }

  function StartOf(hint: int): int {
    if hint == -1 then 0 else hint
  }

  function Next(i: nat, n: nat): nat {
    if i + 1 < n then i + 1 else 0
  }

  ghost predicate Valid(rs: seq<Region>, s: Frames) {
    WellFormed(rs, |s.mem|) && -1 <= s.hint < |rs|
  }

  ghost function Mark(rs: seq<Region>, s: Frames, i: nat, b: nat): Frames
    requires Valid(rs, s) && i < |rs| && b < rs[i].totalBlocks
  {
    var mem := s.mem[rs[i].Pos(b) := true];
    Frames(mem, if Used(rs[i], mem) == rs[i].totalBlocks then Next(i, |rs|) else s.hint)
  }

  ghost function Alloc(rs: seq<Region>, s: Frames): (Frames, Option<nat>)
    requires Valid(rs, s)
  {
    match FirstFree(rs, s.mem, StartOf(s.hint))
    case None => (s, None)
    case Some((i, b)) => (Mark(rs, s, i, b), Some(rs[i].Address(b)))
  }

  // ---------------------------------------------------------------- lookup and release

  /** First region in list order whose last block is not below `addr`; |rs| when there is none. */
  ghost function Lookup(rs: seq<Region>, addr: nat, i: nat): (k: nat)
    requires i <= |rs|
    ensures i <= k <= |rs|
    ensures forall j :: i <= j < k ==> addr > rs[j].lastAddr
    ensures k < |rs| ==> addr <= rs[k].lastAddr
    decreases |rs| - i
  {
    if i == |rs| || addr <= rs[i].lastAddr then i else Lookup(rs, addr, i + 1)
  }

  ghost predicate Managed(rs: seq<Region>, addr: nat) {
    exists i :: 0 <= i < |rs| && rs[i].Owns(addr)
  }

  /**
   The search finds the region of a byte, except that from the second byte of its last block on it goes one too far.
   */
  lemma LookupFindsOwner(rs: seq<Region>, m: nat, addr: nat, i: nat)
    requires WellFormed(rs, m) && i < |rs| && rs[i].Holds(addr)
    ensures Lookup(rs, addr, 0) == if addr <= rs[i].lastAddr then i else i + 1
  {
    forall j | 0 <= j < i ensures rs[j].lastAddr < addr {
      assert Apart(rs[j], rs[i]);
    }
    if i + 1 < |rs| {
      assert Apart(rs[i], rs[i + 1]);
    }
  }

  /** A block address is managed exactly when the search finds the region that owns it. */
  lemma LookupManaged(rs: seq<Region>, m: nat, addr: nat)
    requires WellFormed(rs, m)
    ensures var k := Lookup(rs, addr, 0); Managed(rs, addr) <==> k < |rs| && rs[k].Owns(addr)
  {
    if i :| 0 <= i < |rs| && rs[i].Owns(addr) {
      assert rs[i].Ok() && rs[i].Holds(addr);
      LookupFindsOwner(rs, m, addr, i);
    }
  }

  /**
   A byte is held by some region exactly when that is so, or when the search has just passed the region that holds it.
   */
  lemma LookupOwns(rs: seq<Region>, m: nat, addr: nat)
    requires WellFormed(rs, m)
    ensures var k := Lookup(rs, addr, 0);
            (exists i :: 0 <= i < |rs| && rs[i].Holds(addr))
            <==> (k < |rs| && rs[k].Owns(addr)) || (k > 0 && rs[k - 1].Holds(addr))
  {
    if i :| 0 <= i < |rs| && rs[i].Holds(addr) {
      LookupFindsOwner(rs, m, addr, i);
    }
    var k := Lookup(rs, addr, 0);
    assert k < |rs| && rs[k].Owns(addr) ==> rs[k].Ok() && rs[k].Holds(addr);
  }

  ghost predicate IsTaken(rs: seq<Region>, s: Frames, addr: nat)
    requires Valid(rs, s)
  {
    var k := Lookup(rs, addr, 0);
    k < |rs| && rs[k].Owns(addr) && Taken(rs[k], s.mem, rs[k].Block(addr))
  }

  ghost function Release(rs: seq<Region>, s: Frames, addr: nat): Frames
    requires Valid(rs, s) && IsTaken(rs, s, addr)
  {
    var k := Lookup(rs, addr, 0);
    s.(mem := s.mem[rs[k].Pos(rs[k].Block(addr)) := false])
  }

  // ---------------------------------------------------------------- one bit at a time

  lemma AddressBlock(r: Region, b: nat)
    requires r.Ok() && b < r.totalBlocks
    ensures r.Owns(r.Address(b)) && r.Block(r.Address(b)) == b
    ensures r.Address(b) % BLOCK_SIZE == 0
  {
  }

  lemma BlockAddress(r: Region, addr: nat)
    requires r.Ok() && r.Owns(addr)
    ensures r.Block(addr) < r.totalBlocks
    ensures addr % BLOCK_SIZE == 0 ==> r.Address(r.Block(addr)) == addr
  {
  }

  /** The bitmaps of different regions share no bit. */
  lemma BitsDisjoint(rs: seq<Region>, m: nat, i: nat, j: nat, b: nat, c: nat)
    requires WellFormed(rs, m) && i < |rs| && j < |rs|
    requires b < rs[i].totalBlocks && c < rs[j].totalBlocks
    ensures rs[i].Pos(b) == rs[j].Pos(c) <==> i == j && b == c
  {
    if i < j { assert Apart(rs[i], rs[j]); } else if j < i { assert Apart(rs[j], rs[i]); }
  }

  /** Writing one block's bit changes the used count of its own region only. */
  lemma UsedAfterWrite(rs: seq<Region>, mem: seq<bool>, i: nat, b: nat, v: bool, j: nat)
    requires WellFormed(rs, |mem|) && i < |rs| && j < |rs| && b < rs[i].totalBlocks
    ensures var mem' := mem[rs[i].Pos(b) := v];
            Used(rs[j], mem') == Used(rs[j], mem)
              + (if i == j then (if v then 1 else 0) - (if Taken(rs[i], mem, b) then 1 else 0) else 0)
  {
    if i < j { assert Apart(rs[i], rs[j]); } else if j < i { assert Apart(rs[j], rs[i]); }
    CountUpdate(mem, rs[i].Pos(b), v, rs[j].Pos(0), rs[j].totalBlocks);
  }

  lemma UsedFull(r: Region, mem: seq<bool>)
    requires Fits(r, |mem|)
    ensures Used(r, mem) <= r.totalBlocks
    ensures Used(r, mem) == r.totalBlocks <==> Full(r, mem)
  {
    CountFull(mem, r.Pos(0), r.totalBlocks);
    if Full(r, mem) {
      forall k | r.Pos(0) <= k < r.Pos(0) + r.totalBlocks ensures mem[k] {
        assert Taken(r, mem, k - r.Pos(0));
      }
    }
  }

  // ---------------------------------------------------------------- what callers rely on

  /** Block numbers of all frames that are in use. */
  ghost function UsedFrames(rs: seq<Region>, mem: seq<bool>): set<nat>
    requires WellFormed(rs, |mem|)
  {
    set i, b | 0 <= i < |rs| && 0 <= b < rs[i].totalBlocks && Taken(rs[i], mem, b) :: rs[i].Address(b) / BLOCK_SIZE
  }

  /** Block numbers of all frames the allocator manages. */
  ghost function AllFrames(rs: seq<Region>): set<nat> {
    set i, b | 0 <= i < |rs| && 0 <= b < rs[i].totalBlocks :: rs[i].Address(b) / BLOCK_SIZE
  }

  lemma SameFrame(rs: seq<Region>, m: nat, i: nat, b: nat, j: nat, c: nat)
    requires WellFormed(rs, m) && i < |rs| && j < |rs|
    requires b < rs[i].totalBlocks && c < rs[j].totalBlocks
    ensures rs[i].Address(b) / BLOCK_SIZE == rs[j].Address(c) / BLOCK_SIZE <==> i == j && b == c
  {
    AddressBlock(rs[i], b);
    AddressBlock(rs[j], c);
    if i < j { assert Apart(rs[i], rs[j]); } else if j < i { assert Apart(rs[j], rs[i]); }
  }

  /** Writing one bit adds or removes exactly that block's frame. */
  lemma UsedFramesAfterWrite(rs: seq<Region>, mem: seq<bool>, i: nat, b: nat, v: bool)
    requires WellFormed(rs, |mem|) && i < |rs| && b < rs[i].totalBlocks
    ensures var f := rs[i].Address(b) / BLOCK_SIZE;
            && UsedFrames(rs, mem[rs[i].Pos(b) := v])
               == (if v then UsedFrames(rs, mem) + {f} else UsedFrames(rs, mem) - {f})
            && (f in UsedFrames(rs, mem) <==> Taken(rs[i], mem, b))
            && f in AllFrames(rs)
  {
    var mem' := mem[rs[i].Pos(b) := v];
    var f := rs[i].Address(b) / BLOCK_SIZE;
    forall j: nat, c: nat | j < |rs| && c < rs[j].totalBlocks
      ensures Taken(rs[j], mem', c) == (if j == i && c == b then v else Taken(rs[j], mem, c))
      ensures rs[j].Address(c) / BLOCK_SIZE == f <==> j == i && c == b
    {
      BitsDisjoint(rs, |mem|, i, j, b, c);
      SameFrame(rs, |mem|, i, b, j, c);
    }
    forall g
      ensures g in UsedFrames(rs, mem') <==> g in (if v then UsedFrames(rs, mem) + {f} else UsedFrames(rs, mem) - {f})
    {
      if g != f {
        if g in UsedFrames(rs, mem) {
          var j, c :| 0 <= j < |rs| && 0 <= c < rs[j].totalBlocks && Taken(rs[j], mem, c)
              && rs[j].Address(c) / BLOCK_SIZE == g;
          assert Taken(rs[j], mem', c);
        }
        if g in UsedFrames(rs, mem') {
          var j, c :| 0 <= j < |rs| && 0 <= c < rs[j].totalBlocks && Taken(rs[j], mem', c)
              && rs[j].Address(c) / BLOCK_SIZE == g;
          assert Taken(rs[j], mem, c);
        }
      } else {
        assert v ==> Taken(rs[i], mem', b);
      }
    }
  }

  /** Allocation hands out a frame that was free, marks it and touches no other frame. */
  lemma AllocTakesOne(rs: seq<Region>, s: Frames)
    requires Valid(rs, s)
    ensures Valid(rs, Alloc(rs, s).0)
    ensures match Alloc(rs, s).1
            case None => Alloc(rs, s).0 == s
            case Some(a) =>
              && a % BLOCK_SIZE == 0
              && a / BLOCK_SIZE in AllFrames(rs) - UsedFrames(rs, s.mem)
              && UsedFrames(rs, Alloc(rs, s).0.mem) == UsedFrames(rs, s.mem) + {a / BLOCK_SIZE}
  {
    match FirstFree(rs, s.mem, StartOf(s.hint))
    case None =>
    case Some((i, b)) =>
      UsedFramesAfterWrite(rs, s.mem, i, b, true);
      AddressBlock(rs[i], b);
  }

  /**
   Which frame it is: the least free block of the first region with one, searching from the hint to the end of the
   list.  Only its bit is written, and the hint moves on, round to the first region, when the region is full now.
   */
  lemma AllocTakesFirst(rs: seq<Region>, s: Frames) returns (i: nat, b: nat)
    requires Valid(rs, s) && Alloc(rs, s).1.Some?
    ensures s.hint <= i < |rs| && b < rs[i].totalBlocks && !Taken(rs[i], s.mem, b)
    ensures forall j: nat :: s.hint <= j < i ==> Full(rs[j], s.mem)
    ensures forall k: nat :: k < b ==> Taken(rs[i], s.mem, k)
    ensures var (s', a) := Alloc(rs, s);
            && a == Some(rs[i].firstAddr + 4096 * b)
            && s'.mem == s.mem[8 * rs[i].bitmap + b := true]
            && s'.hint == if !Full(rs[i], s'.mem) then s.hint else if i + 1 == |rs| then 0 else i + 1
  {
    var found := FirstFree(rs, s.mem, StartOf(s.hint)).value;
    i, b := found.0, found.1;
    UsedFull(rs[i], Alloc(rs, s).0.mem);
  }

  /** A release writes the bit of the block and nothing else; the hint does not move. */
  lemma ReleaseClearsOne(rs: seq<Region>, s: Frames, addr: nat) returns (i: nat, b: nat)
    requires Valid(rs, s) && IsTaken(rs, s, addr) && addr % 4096 == 0
    ensures i < |rs| && b < rs[i].totalBlocks && addr == rs[i].firstAddr + 4096 * b && Taken(rs[i], s.mem, b)
    ensures Release(rs, s, addr) == Frames(s.mem[8 * rs[i].bitmap + b := false], s.hint)
  {
    i := Lookup(rs, addr, 0);
    b := rs[i].Block(addr);
    BlockAddress(rs[i], addr);
  }

  /** Freeing the frame that was just handed out restores the bitmaps. */
  lemma ReleaseUndoesAlloc(rs: seq<Region>, s: Frames)
    requires Valid(rs, s) && Alloc(rs, s).1.Some?
    ensures Valid(rs, Alloc(rs, s).0) && IsTaken(rs, Alloc(rs, s).0, Alloc(rs, s).1.value)
    ensures Release(rs, Alloc(rs, s).0, Alloc(rs, s).1.value).mem == s.mem
  {
    var (i, b) := FirstFree(rs, s.mem, StartOf(s.hint)).value;
    AddressBlock(rs[i], b);
    LookupFindsOwner(rs, |s.mem|, rs[i].Address(b), i);
  }

  /** -1 means exactly that no block is free from the hint to the end of the list. */
  lemma AllocFailsIff(rs: seq<Region>, s: Frames)
    requires Valid(rs, s)
    ensures Alloc(rs, s).1.None? <==> forall i: nat :: StartOf(s.hint) <= i < |rs| ==> Full(rs[i], s.mem)
  {
    match FirstFree(rs, s.mem, StartOf(s.hint))
    case None =>
    case Some((i, b)) => assert !Full(rs[i], s.mem);
  }

  // ---------------------------------------------------------------- runs

  /** No free block lies before the hint, or none lies anywhere. */
  ghost predicate HintSound(rs: seq<Region>, s: Frames)
    requires Valid(rs, s)
  {
    || (forall i: nat :: i < StartOf(s.hint) ==> Full(rs[i], s.mem))
    || (forall i: nat :: i < |rs| ==> Full(rs[i], s.mem))
  }

  lemma FullStaysFull(rs: seq<Region>, mem: seq<bool>, i: nat, b: nat, j: nat)
    requires WellFormed(rs, |mem|) && i < |rs| && j < |rs| && b < rs[i].totalBlocks && Full(rs[j], mem)
    ensures Full(rs[j], mem[rs[i].Pos(b) := true])
  {
    var mem' := mem[rs[i].Pos(b) := true];
    forall c: nat | c < rs[j].totalBlocks ensures Taken(rs[j], mem', c) {
      assert Taken(rs[j], mem, c);
    }
  }

  /** One allocation keeps the hint sound. */
  lemma AllocKeepsHint(rs: seq<Region>, s: Frames)
    requires Valid(rs, s) && HintSound(rs, s)
    ensures Valid(rs, Alloc(rs, s).0) && HintSound(rs, Alloc(rs, s).0)
  {
    match FirstFree(rs, s.mem, StartOf(s.hint))
    case None =>
    case Some((i, b)) =>
      var s' := Mark(rs, s, i, b);
      assert !Full(rs[i], s.mem);
      forall j: nat | j < i ensures Full(rs[j], s'.mem) {
        FullStaysFull(rs, s.mem, i, b, j);
      }
      UsedFull(rs[i], s'.mem);
  }

  ghost function AllocMany(rs: seq<Region>, s: Frames, n: nat): (r: Frames)
    requires Valid(rs, s)
    ensures Valid(rs, r)
    decreases n
  {
    if n == 0 then s
    else
      AllocTakesOne(rs, s);
      AllocMany(rs, Alloc(rs, s).0, n - 1)
  }

  /** In a run without frees an allocation fails exactly when the machine has no free block left. */
  lemma {:induction false} RunFailsOnlyWhenExhausted(rs: seq<Region>, s: Frames, n: nat)
    requires Valid(rs, s) && HintSound(rs, s)
    ensures var s' := AllocMany(rs, s, n);
            && HintSound(rs, s')
            && (Alloc(rs, s').1.None? <==> forall i: nat :: i < |rs| ==> Full(rs[i], s'.mem))
    decreases n
  {
    if n == 0 {
      AllocFailsIff(rs, s);
    } else {
      AllocTakesOne(rs, s);
      AllocKeepsHint(rs, s);
      RunFailsOnlyWhenExhausted(rs, Alloc(rs, s).0, n - 1);
    }
  }

  /** With frees in the run a call can fail although a block is free: the search never goes back before the hint. */
  lemma FreedBeforeHintIsMissed(rs: seq<Region>, s: Frames, addr: nat)
    requires Valid(rs, s) && IsTaken(rs, s, addr)
    requires Alloc(rs, s).1.None?
    ensures Valid(rs, Release(rs, s, addr))
    ensures Alloc(rs, Release(rs, s, addr)).1.None? <==> Lookup(rs, addr, 0) < StartOf(s.hint)
  {
    var k := Lookup(rs, addr, 0);
    var b := rs[k].Block(addr);
    BlockAddress(rs[k], addr);
    var s' := Release(rs, s, addr);
    AllocFailsIff(rs, s);
    AllocFailsIff(rs, s');
    assert !Taken(rs[k], s'.mem, b);
    if k < StartOf(s.hint) {
      forall i: nat | StartOf(s.hint) <= i < |rs| ensures Full(rs[i], s'.mem) {
        forall c: nat | c < rs[i].totalBlocks ensures Taken(rs[i], s'.mem, c) {
          BitsDisjoint(rs, |s.mem|, k, i, b, c);
          assert Taken(rs[i], s.mem, c);
        }
      }
    }
  }
}
