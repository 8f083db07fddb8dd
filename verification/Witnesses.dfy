/**
 Runs from an orderly start that end where the code does not do what its callers expect.
 */
module Witnesses {
  import opened Wrappers
  import opened Bitmap
  import opened FrameSpec
  import opened PhysicalMemory
  import opened Paging
  import opened PagingLaws
  import opened PagingRuns
  import opened BitmapPool
  import opened VirtualMemory
  import opened TlbRuns
  import opened FrameBudget
  import HeapBringUp

  // ---------------------------------------------------------------- a freed frame is missed

  /** Two regions of one block each. */
  ghost predicate TwoBlocks(rs: seq<Region>) {
    && |rs| == 2 && rs[0].totalBlocks == rs[1].totalBlocks == 1 && rs[0].bitmapSize == rs[1].bitmapSize == 1
    && rs[0].firstAddr == rs[0].lastAddr == 0 && rs[1].firstAddr == rs[1].lastAddr == 4096
    && rs[1].bitmap == rs[0].bitmap + 1
  }

  /** get_free_frame returns `addr` in state `s` and leaves `s'`. */
  ghost predicate Gets(rs: seq<Region>, s: Frames, addr: nat, s': Frames) {
    FrameSpec.Valid(rs, s) && Alloc(rs, s) == (s', Some(addr))
  }

  /** free_frame of `addr` leaves `s'`. */
  ghost predicate GivesBack(rs: seq<Region>, s: Frames, addr: nat, s': Frames) {
    FrameSpec.Valid(rs, s) && IsTaken(rs, s, addr) && s' == Release(rs, s, addr)
  }

  ghost predicate Fails(rs: seq<Region>, s: Frames) {
    FrameSpec.Valid(rs, s) && Alloc(rs, s) == (s, None)
  }

  /** Where the bitmaps begin. */
  function At(rs: seq<Region>): nat {
    if rs == [] then 0 else rs[0].bitmap
  }

  function TwoBits(rs: seq<Region>, a: bool, b: bool, hint: int): Frames {
    Frames(seq(8 * At(rs) + 40, i => (i == 8 * At(rs) && a) || (i == 8 * At(rs) + 8 && b)), hint)
  }

  lemma TwoIsValid(rs: seq<Region>, a: bool, b: bool, hint: int)
    requires TwoBlocks(rs) && -1 <= hint < 2
    ensures FrameSpec.Valid(rs, TwoBits(rs, a, b, hint))
    ensures Full(rs[0], TwoBits(rs, a, b, hint).mem) <==> a
    ensures Full(rs[1], TwoBits(rs, a, b, hint).mem) <==> b
  {
    var mem := TwoBits(rs, a, b, hint).mem;
    assert Taken(rs[0], mem, 0) == a && Taken(rs[1], mem, 0) == b;
  }

  /** From region `i` on, with the regions before it skipped by the hint. */
  lemma TwoAlloc(rs: seq<Region>, a: bool, b: bool, hint: int)
    requires TwoBlocks(rs) && -1 <= hint < 2
    ensures FrameSpec.Valid(rs, TwoBits(rs, a, b, hint))
    ensures Alloc(rs, TwoBits(rs, a, b, hint))
            == if hint <= 0 && !a then (TwoBits(rs, true, b, 1), Some(0))
               else if !b then (TwoBits(rs, a, true, 0), Some(4096))
               else (TwoBits(rs, a, b, hint), None)
  {
    TwoIsValid(rs, a, b, hint);
    var s := TwoBits(rs, a, b, hint);
    assert LeastFree(rs[0], s.mem, 0) == if a then 1 else 0;
    assert LeastFree(rs[1], s.mem, 0) == if b then 1 else 0;
    assert FirstFree(rs, s.mem, 2) == None;
    assert FirstFree(rs, s.mem, 1) == if b then None else Some((1, 0));
    if hint <= 0 && !a {
      var mem := s.mem[rs[0].Pos(0) := true];
      assert mem == TwoBits(rs, true, b, 1).mem;
      CountFull(mem, rs[0].Pos(0), 1);
    } else if !b {
      var mem := s.mem[rs[1].Pos(0) := true];
      assert mem == TwoBits(rs, a, true, 0).mem;
      CountFull(mem, rs[1].Pos(0), 1);
    }
  }

  /** Six calls after boot: the frame given back last is free, and get_free_frame does not find it. */
  lemma FreedFrameIsMissed(rs: seq<Region>)
    requires TwoBlocks(rs)
    ensures var s0, s1 := TwoBits(rs, false, false, -1), TwoBits(rs, true, false, 1);
            var s2, s3 := TwoBits(rs, true, true, 0), TwoBits(rs, false, true, 0);
            var s4, s5 := TwoBits(rs, true, true, 1), TwoBits(rs, false, true, 1);
            && Gets(rs, s0, 0, s1) && Gets(rs, s1, 4096, s2) && GivesBack(rs, s2, 0, s3)
            && Gets(rs, s3, 0, s4) && Fails(rs, s4) && GivesBack(rs, s4, 0, s5)
            && Fails(rs, s5) && !Full(rs[0], s5.mem)
  {
    TwoAlloc(rs, false, false, -1);
    TwoAlloc(rs, true, false, 1);
    TwoAlloc(rs, false, true, 0);
    TwoAlloc(rs, true, true, 1);
    TwoAlloc(rs, false, true, 1);
    TwoRelease(rs, 0);
    TwoRelease(rs, 1);
    TwoIsValid(rs, false, true, 1);
  }

  lemma TwoRelease(rs: seq<Region>, hint: int)
    requires TwoBlocks(rs) && 0 <= hint < 2
    ensures GivesBack(rs, TwoBits(rs, true, true, hint), 0, TwoBits(rs, false, true, hint))
  {
    TwoIsValid(rs, true, true, hint);
    var s := TwoBits(rs, true, true, hint);
    assert Lookup(rs, 0, 0) == 0;
    assert s.mem[rs[0].Pos(0) := false] == TwoBits(rs, false, true, hint).mem;
  }

  // ---------------------------------------------------------------- one region, one page directory

  /** Six blocks, frames 0 to 5. */
  ghost predicate SixBlocks(rs: seq<Region>) {
    && |rs| == 1 && rs[0].bitmapSize == 1 && rs[0].bitmap + 4 <= PAGE_SIZE
    && rs[0].firstAddr == 0 && rs[0].lastAddr == 0x5000 && rs[0].totalBlocks == 6
  }

  const CR3: FrameNo := 100
  const G := Flags(true, true, false, false, false, false)

  function E(f: FrameNo): Entry {
    PageEntry(f, G)
  }

  function Bits(rs: seq<Region>, used: set<nat>): Frames {
    Frames(seq(8 * At(rs) + 32, i => i - 8 * At(rs) in used), -1)
  }

  function St(rs: seq<Region>, m: Ram, used: set<nat>): Vm {
    Vm(m, Bits(rs, used))
  }

  ghost predicate Small(used: set<nat>) {
    forall u <- used :: u < 6
  }

  /** The first free frame is `b`, and `c` is free as well. */
  ghost predicate NextTwo(used: set<nat>, b: nat, c: nat) {
    Small(used) && b < c < 6 && b !in used && c !in used && forall k: nat :: k < b ==> k in used
  }

  lemma InTurn()
    ensures NextTwo({0}, 1, 2) && NextTwo({0} + {1}, 2, 3) && NextTwo({0} + {1} + {2}, 3, 4)
  {
  }

  lemma OneFits(rs: seq<Region>, used: set<nat>)
    requires SixBlocks(rs)
    ensures FrameSpec.Valid(rs, Bits(rs, used)) && rs[0].Ok()
    ensures forall b: nat :: b < 6
                ==> (Taken(rs[0], Bits(rs, used).mem, b) <==> b in used) && rs[0].Address(b) / BLOCK_SIZE == b
  {
  }

  lemma OneFrames(rs: seq<Region>, used: set<nat>, f: nat)
    requires SixBlocks(rs) && Small(used)
    ensures FrameSpec.Valid(rs, Bits(rs, used))
    ensures f in UsedFrames(rs, Bits(rs, used).mem) <==> f in used
    ensures f in AllFrames(rs) <==> f < 6
  {
    OneFits(rs, used);
    if f < 6 {
      assert rs[0].Address(f) / BLOCK_SIZE == f;
    }
  }

  lemma OneIsSane(rs: seq<Region>, m: Ram, used: set<nat>)
    requires SixBlocks(rs) && Small(used)
    ensures Sane(rs, St(rs, m, used)) && InUse(rs, St(rs, m, used)) == used
    ensures forall f: nat :: f in AllFrames(rs) <==> f < 6
  {
    OneFits(rs, used);
    forall f: nat ensures (f in UsedFrames(rs, Bits(rs, used).mem) <==> f in used) && (f in AllFrames(rs) <==> f < 6) {
      OneFrames(rs, used, f);
    }
  }

  /** The first free block is `b`. */
  lemma OneFirst(rs: seq<Region>, used: set<nat>, b: nat)
    requires SixBlocks(rs) && b < 6 && b !in used && forall k: nat :: k < b ==> k in used
    ensures FrameSpec.Valid(rs, Bits(rs, used)) && FirstFree(rs, Bits(rs, used).mem, 0) == Some((0, b))
  {
    OneFits(rs, used);
    var mem := Bits(rs, used).mem;
    assert !Taken(rs[0], mem, b) && !Full(rs[0], mem);
    LeastFreeFrom(rs[0], mem, 0, b);
    var (i, k) := FirstFree(rs, mem, 0).value;
    assert i == 0 && LeastFree(rs[0], mem, 0) == b;
  }

  lemma OneMark(rs: seq<Region>, used: set<nat>, b: nat, c: nat)
    requires SixBlocks(rs) && b < 6 && c < 6 && b != c && c !in used
    ensures FrameSpec.Valid(rs, Bits(rs, used)) && Mark(rs, Bits(rs, used), 0, b) == Bits(rs, used + {b})
  {
    OneFits(rs, used);
    OneFits(rs, used + {b});
    var mem' := Bits(rs, used).mem[rs[0].Pos(b) := true];
    assert mem' == Bits(rs, used + {b}).mem;
    UsedFull(rs[0], mem');
    assert !Taken(rs[0], mem', c);
  }

  /** get_free_frame takes the least free frame; with another one left the hint stays. */
  lemma OneAlloc(rs: seq<Region>, m: Ram, used: set<nat>, b: nat, c: nat)
    requires SixBlocks(rs) && NextTwo(used, b, c)
    ensures Sane(rs, St(rs, m, used)) && NextFrame(rs, St(rs, m, used)) == Some(b)
    ensures Give(rs, St(rs, m, used)) == St(rs, m, used + {b})
  {
    OneIsSane(rs, m, used);
    OneFits(rs, used);
    OneFirst(rs, used, b);
    OneMark(rs, used, b, c);
  }

  lemma OneFree(rs: seq<Region>, m: Ram, used: set<nat>, b: FrameNo)
    requires SixBlocks(rs) && Small(used) && b as nat in used
    ensures Sane(rs, St(rs, m, used)) && FreeOf(rs, Bits(rs, used), b) == Some(Bits(rs, used - {b as nat}))
  {
    OneIsSane(rs, m, used);
    OneLookup(rs, b);
    OneCleared(rs, used, b);
  }

  lemma OneLookup(rs: seq<Region>, b: FrameNo)
    requires SixBlocks(rs) && b < 6
    ensures Lookup(rs, b * PAGE_SIZE, 0) == 0 && rs[0].Ok()
    ensures rs[0].Owns(b * PAGE_SIZE) && rs[0].Block(b * PAGE_SIZE) == b
  {
  }

  lemma OneCleared(rs: seq<Region>, used: set<nat>, b: FrameNo)
    requires SixBlocks(rs) && b < 6 && b as nat in used
    ensures FrameSpec.Valid(rs, Bits(rs, used)) && Taken(rs[0], Bits(rs, used).mem, b)
    ensures Bits(rs, used).mem[rs[0].Pos(b) := false] == Bits(rs, used - {b as nat}).mem
  {
    OneFits(rs, used);
  }

  /** Slot 0 of the directory has its table in frame 0, with one page mapped; the other frames are blank. */
  ghost predicate Start(m: Ram) {
    && m[CR3][SELF] == E(CR3) && m[CR3][0] == E(0) && (forall d :: 0 < d < SELF ==> !m[CR3][d].present)
    && m[0][0] == E(7) && (forall i :: 0 < i < ENTRIES ==> !m[0][i].present)
    && (forall f: FrameNo :: 0 < f < 6 ==> Empty(m[f]))
  }

  function Start0(): Ram {
    var blank: Ram := seq(0x10_0000, _ => seq(1024, _ => BLANK));
    Put(Put(Put(blank, CR3, SELF, E(CR3)), CR3, 0, E(0)), 0, 0, E(7))
  }

  lemma StartExists()
    ensures Start(Start0())
  {
  }

  lemma StartIsOrderly(rs: seq<Region>, m: Ram)
    requires SixBlocks(rs) && Start(m)
    ensures Inv(rs, CR3, St(rs, m, {0})) && InBooks(rs, CR3, St(rs, m, {0}), World(St(rs, m, {0}), map[]))
  {
    OrderlyWith(rs, m, {0});
    BooksOpen(rs, CR3, St(rs, m, {0}));
  }

  lemma OrderlyWith(rs: seq<Region>, m: Ram, used: set<nat>)
    requires SixBlocks(rs) && Start(m) && Small(used) && 0 in used
    ensures Inv(rs, CR3, St(rs, m, used))
  {
    OneIsSane(rs, m, used);
    forall d | HasTable(m, CR3, d) ensures d == 0 && TableOk(rs, CR3, St(rs, m, used), d) {
      assert m[0][0].present;
    }
  }

  lemma RunCons(rs: seq<Region>, cr3: FrameNo, w: World, op: Op, rest: seq<Op>)
    requires SixBlocks(rs)
    requires Allowed(rs, cr3, w, op) && Legal(rs, cr3, Apply(rs, cr3, w, op), rest)
    ensures Legal(rs, cr3, w, [op] + rest)
            && Run(rs, cr3, w, [op] + rest) == Run(rs, cr3, Apply(rs, cr3, w, op), rest)
  {
    assert ([op] + rest)[1..] == rest;
  }

  /** Mapping a page of slot 0 on the next frame. */
  lemma MapInSlot0(rs: seq<Region>, m: Ram, used: set<nat>, owned: map<int, FrameNo>, p: int, b: nat, c: nat)
    requires SixBlocks(rs) && Inv(rs, CR3, St(rs, m, used)) && NextTwo(used, b, c)
    requires 0 < p < ENTRIES && p !in owned && m[CR3][0] == E(0) && !m[0][p].present
    ensures var w := World(St(rs, m, used), owned);
            && Allowed(rs, CR3, w, MapFresh(p, G))
            && Apply(rs, CR3, w, MapFresh(p, G)) == World(St(rs, Put(m, 0, p, E(b)), used + {b}), owned[p := b])
  {
    OneAlloc(rs, m, used, b, c);
    OneIsSane(rs, m, used + {b});
    assert Dir(p) == 0 && Idx(p) == p;
  }

  /** Unmapping it again, while the table keeps another page. */
  lemma UnmapInSlot0(rs: seq<Region>, m: Ram, used: set<nat>, owned: map<int, FrameNo>, p: int, b: FrameNo)
    requires SixBlocks(rs) && Inv(rs, CR3, St(rs, m, used)) && Small(used) && b as nat in used
    requires 0 < p < ENTRIES && p in owned && m[CR3][0] == E(0) && m[0][p] == E(b) && m[0][0].present
    ensures var w := World(St(rs, m, used), owned);
            && Allowed(rs, CR3, w, UnmapOwned(p))
            && Apply(rs, CR3, w, UnmapOwned(p))
               == World(St(rs, Put(m, 0, p, E(b).(present := false, address := 0)), used - {b as nat}), owned - {p})
  {
    OneFree(rs, m, used, b);
    assert Dir(p) == 0 && Idx(p) == p;
    assert Put(m, 0, p, E(b).(present := false, address := 0))[0][0].present;
  }

  lemma BooksGoOn(rs: seq<Region>, s0: Vm, w: World, op: Op)
    requires SixBlocks(rs) && InBooks(rs, CR3, s0, w) && Allowed(rs, CR3, w, op)
    ensures InBooks(rs, CR3, s0, Apply(rs, CR3, w, op)) && Inv(rs, CR3, Apply(rs, CR3, w, op).vm)
  {
    ApplyKeepsBooks(rs, CR3, s0, w, op);
  }

  /** Both, with the books kept. */
  lemma MapStep(rs: seq<Region>, s0: Vm, m: Ram, used: set<nat>, owned: map<int, FrameNo>, p: int, b: nat, c: nat)
    requires SixBlocks(rs) && InBooks(rs, CR3, s0, World(St(rs, m, used), owned))
    requires NextTwo(used, b, c)
    requires 0 < p < ENTRIES && p !in owned && m[CR3][0] == E(0) && !m[0][p].present
    ensures var w, w' := World(St(rs, m, used), owned), World(St(rs, Put(m, 0, p, E(b)), used + {b}), owned[p := b]);
            && Allowed(rs, CR3, w, MapFresh(p, G)) && Apply(rs, CR3, w, MapFresh(p, G)) == w'
               && InBooks(rs, CR3, s0, w')
  {
    MapInSlot0(rs, m, used, owned, p, b, c);
    BooksGoOn(rs, s0, World(St(rs, m, used), owned), MapFresh(p, G));
  }

  lemma UnmapStep(rs: seq<Region>, s0: Vm, m: Ram, used: set<nat>, owned: map<int, FrameNo>, p: int, b: FrameNo)
    requires SixBlocks(rs) && InBooks(rs, CR3, s0, World(St(rs, m, used), owned))
    requires Small(used) && b as nat in used && 0 < p < ENTRIES && p in owned
    requires m[CR3][0] == E(0) && m[0][p] == E(b) && m[0][0].present
    ensures var gone := Put(m, 0, p, E(b).(present := false, address := 0));
            var w, w' := World(St(rs, m, used), owned), World(St(rs, gone, used - {b as nat}), owned - {p});
            && Allowed(rs, CR3, w, UnmapOwned(p)) && Apply(rs, CR3, w, UnmapOwned(p)) == w'
               && InBooks(rs, CR3, s0, w')
  {
    UnmapInSlot0(rs, m, used, owned, p, b);
    BooksGoOn(rs, s0, World(St(rs, m, used), owned), UnmapOwned(p));
  }

  lemma StoreStep(rs: seq<Region>, s0: Vm, m: Ram, used: set<nat>, owned: map<int, FrameNo>, p: int, i: nat, e: Entry)
    requires SixBlocks(rs)
    requires InBooks(rs, CR3, s0, World(St(rs, m, used), owned)) && p in owned && i < ENTRIES
    ensures var w, w' := World(St(rs, m, used), owned), World(St(rs, Put(m, owned[p], i, e), used), owned);
            && Allowed(rs, CR3, w, Store(p, i, e)) && Apply(rs, CR3, w, Store(p, i, e)) == w'
               && InBooks(rs, CR3, s0, w')
  {
    BooksGoOn(rs, s0, World(St(rs, m, used), owned), Store(p, i, e));
  }

  // ---------------------------------------------------------------- a dirty table frame

  /**
   A client writes to a page, unmaps it, and its frame becomes a table: map_page of page 1024 reports
   success and maps other pages as well.
   */
  lemma DirtyTable(rs: seq<Region>, m: Ram)
    requires SixBlocks(rs) && Start(m)
    ensures var w := World(St(rs, m, {0}), map[]);
            var ops := [MapFresh(1, G), MapFresh(2, G), Store(2, 5, E(9)), UnmapOwned(1), UnmapOwned(2)];
            && Inv(rs, CR3, w.vm) && Legal(rs, CR3, w, ops)
            && DirtyAt(rs, Run(rs, CR3, w, ops).vm)
  {
    assert map[][1 := 1] == map[1 := 1];
    var rest := [MapFresh(2, G), Store(2, 5, E(9)), UnmapOwned(1), UnmapOwned(2)];
    assert [MapFresh(1, G)] + rest == [MapFresh(1, G), MapFresh(2, G), Store(2, 5, E(9)), UnmapOwned(1), UnmapOwned(2)];
    StartIsOrderly(rs, m);
    var s0, w0 := St(rs, m, {0}), World(St(rs, m, {0}), map[]);
    var m1 := Put(m, 0, 1, E(1));
    InTurn();
    MapStep(rs, s0, m, {0}, map[], 1, 1, 2);
    DirtyMiddle(rs, s0, m1, map[1 := 1]);
    RunCons(rs, CR3, w0, MapFresh(1, G), rest);
  }

  lemma DirtyMiddle(rs: seq<Region>, s0: Vm, m: Ram, owned: map<int, FrameNo>)
    requires SixBlocks(rs)
    requires InBooks(rs, CR3, s0, World(St(rs, m, {0} + {1}), owned)) && owned == map[1 := 1]
    requires m[CR3][0] == E(0) && !m[CR3][1].present && m[0][0].present && m[0][1] == E(1) && !m[0][2].present
    ensures var w, rest := World(St(rs, m, {0} + {1}), owned),
            [MapFresh(2, G), Store(2, 5, E(9)), UnmapOwned(1), UnmapOwned(2)];
            && Legal(rs, CR3, w, rest) && DirtyAt(rs, Run(rs, CR3, w, rest).vm)
  {
    var w1 := World(St(rs, m, {0} + {1}), owned);
    var m2 := Put(m, 0, 2, E(2));
    var rest := [Store(2, 5, E(9)), UnmapOwned(1), UnmapOwned(2)];
    assert [MapFresh(2, G)] + rest == [MapFresh(2, G), Store(2, 5, E(9)), UnmapOwned(1), UnmapOwned(2)];
    InTurn();
    MapStep(rs, s0, m, {0} + {1}, owned, 2, 2, 3);
    DirtyTail(rs, s0, m2, owned[2 := 2]);
    RunCons(rs, CR3, w1, MapFresh(2, G), rest);
  }

  /** The second half of the run: the client writes, then gives both pages back. */
  lemma DirtyTail(rs: seq<Region>, s0: Vm, m: Ram, owned: map<int, FrameNo>)
    requires SixBlocks(rs)
    requires InBooks(rs, CR3, s0, World(St(rs, m, {0} + {1} + {2}), owned)) && owned == map[1 := 1, 2 := 2]
    requires m[CR3][0] == E(0) && !m[CR3][1].present && m[0][0].present && m[0][1] == E(1) && m[0][2] == E(2)
    ensures var w, rest := World(St(rs, m, {0} + {1} + {2}), owned), [Store(2, 5, E(9)), UnmapOwned(1), UnmapOwned(2)];
            && Legal(rs, CR3, w, rest) && DirtyAt(rs, Run(rs, CR3, w, rest).vm)
  {
    var w := World(St(rs, m, {0} + {1} + {2}), owned);
    assert [Store(2, 5, E(9))] + [UnmapOwned(1), UnmapOwned(2)] == [Store(2, 5, E(9)), UnmapOwned(1), UnmapOwned(2)];
    StoreStep(rs, s0, m, {0} + {1} + {2}, owned, 2, 5, E(9));
    DirtyRelease(rs, s0, Put(m, 2, 5, E(9)), owned);
    RunCons(rs, CR3, w, Store(2, 5, E(9)), [UnmapOwned(1), UnmapOwned(2)]);
  }

  lemma DirtyRelease(rs: seq<Region>, s0: Vm, m: Ram, owned: map<int, FrameNo>)
    requires SixBlocks(rs)
    requires InBooks(rs, CR3, s0, World(St(rs, m, {0} + {1} + {2}), owned)) && owned == map[1 := 1, 2 := 2]
    requires m[CR3][0] == E(0) && !m[CR3][1].present && m[0][0].present && m[0][1] == E(1) && m[0][2] == E(2)
    requires m[2][5].present
    ensures var w, rest := World(St(rs, m, {0} + {1} + {2}), owned), [UnmapOwned(1), UnmapOwned(2)];
            && Legal(rs, CR3, w, rest) && DirtyAt(rs, Run(rs, CR3, w, rest).vm)
  {
    var m4 := Put(m, 0, 1, E(1).(present := false, address := 0));
    var m5 := Put(m4, 0, 2, E(2).(present := false, address := 0));
    var w := World(St(rs, m, {0} + {1} + {2}), owned);
    var w4 := World(St(rs, m4, {0} + {1} + {2} - {1}), owned - {1});
    assert [UnmapOwned(1)] + [UnmapOwned(2)] == [UnmapOwned(1), UnmapOwned(2)]
        && [UnmapOwned(2)] + [] == [UnmapOwned(2)];
    assert {0} + {1} + {2} - {1} - {2} == {0};
    UnmapStep(rs, s0, m, {0} + {1} + {2}, owned, 1, 1);
    UnmapStep(rs, s0, m4, {0} + {1} + {2} - {1}, w4.owned, 2, 2);
    RunCons(rs, CR3, w4, UnmapOwned(2), []);
    RunCons(rs, CR3, w, UnmapOwned(1), [UnmapOwned(2)]);
    DirtyEnds(rs, m5);
  }

  /** map_page of page 1024 reports success here and does more than that. */
  ghost predicate DirtyAt(rs: seq<Region>, s: Vm) {
    && Sane(rs, s) && NextFrame(rs, s) == Some(1) && Sane(rs, Give(rs, s))
    && var (s', r) := Map(rs, CR3, Give(rs, s), 1, 1024, G, false);
       r == Done && !OnlyPage(s.ram, s'.ram, CR3, 1024, Some(1))
  }

  lemma DirtyEnds(rs: seq<Region>, m: Ram)
    requires SixBlocks(rs)
    requires Inv(rs, CR3, St(rs, m, {0})) && m[2][5].present && !m[CR3][1].present
    ensures DirtyAt(rs, St(rs, m, {0}))
  {
    var s := St(rs, m, {0});
    InTurn();
    OneAlloc(rs, m, {0}, 1, 2);
    TakeFrame(rs, CR3, s);
    OneAlloc(rs, m, {0} + {1}, 2, 3);
    NewTableIsHarmlessIff(rs, CR3, Give(rs, s), 1, 1024, G, false);
  }

  // ---------------------------------------------------------------- a stale window

  lemma EventCons(rs: seq<Region>, x: Machine, ev: Event, rest: seq<Event>)
    requires SixBlocks(rs)
    requires Possible(rs, CR3, x, ev) && PossibleRun(rs, CR3, Happen(rs, CR3, x, ev), rest)
    ensures PossibleRun(rs, CR3, x, [ev] + rest)
    ensures RunThrough(rs, CR3, x, [ev] + rest) == RunThrough(rs, CR3, Happen(rs, CR3, x, ev), rest)
  {
    assert ([ev] + rest)[1..] == rest;
  }

  /** The window page of slot 1. */
  const W := SELF * ENTRIES + 1

  /** Entries of slot 1 in the course of the run. */
  function D(e: Entry): Entry {
    DirEntry(e, 2, G)
  }

  lemma OneTable(rs: seq<Region>, m: Ram, used: set<nat>, b: FrameNo, c: nat)
    requires SixBlocks(rs) && NextTwo(used, b, c)
    requires !m[CR3][1].present
    ensures Sane(rs, St(rs, m, used))
    ensures WithTable(rs, CR3, St(rs, m, used), 1024, G)
            == Some(St(rs, Put(m, CR3, 1, DirEntry(m[CR3][1], b, G)), used + {b as nat}))
  {
    OneAlloc(rs, m, used, b, c);
  }

  /** map_page with a new table whose window page is not cached, on memory with a directory that maps itself. */
  lemma MapNewThrough(rs: seq<Region>, m: Ram, used: set<nat>, tlb: Tlb, f: FrameNo, b: FrameNo, c: nat)
    requires SixBlocks(rs) && NextTwo(used, b, c)
    requires m[CR3][SELF] == E(CR3) && !m[CR3][1].present && W !in tlb && b != CR3 && !m[b][0].present
    ensures Sane(rs, St(rs, m, used))
    ensures MapThrough(rs, CR3, St(rs, m, used), tlb, f, 1024, G, false)
            == (St(rs, Put(Put(m, CR3, 1, DirEntry(m[CR3][1], b, G)), b, 0, E(f)), used + {b as nat}), Done)
    ensures MapTlb(rs, CR3, St(rs, m, used), tlb, 1024, G, Done) == tlb[W := b] - {1024}
  {
    OneTable(rs, m, used, b, c);
    var m1 := Put(m, CR3, 1, DirEntry(m[CR3][1], b, G));
    assert Dir(1024) == 1 && Idx(1024) == 0 && WindowPage(1024) == W;
  }

  /** Page 1024 is mapped on frame 1, in a new table in frame 2. */
  lemma StaleStep1(rs: seq<Region>, m: Ram)
    requires SixBlocks(rs) && Start(m)
    ensures var x := Machine(World(St(rs, m, {0}), map[]), map[]);
            && Possible(rs, CR3, x, Do(MapFresh(1024, G)))
            && Happen(rs, CR3, x, Do(MapFresh(1024, G)))
               == Machine(World(St(rs, Put(Put(m, CR3, 1, D(m[CR3][1])), 2, 0, E(1)), {0} + {1} + {2}), map[1024 := 1]),
                   map[W := 2])
  {
    var x := Machine(World(St(rs, m, {0}), map[]), map[]);
    var a, s' := St(rs, m, {0} + {1}), St(rs, Put(Put(m, CR3, 1, D(m[CR3][1])), 2, 0, E(1)), {0} + {1} + {2});
    assert map[][1024 := 1] == map[1024 := 1];
    assert map[][W := 2] - {1024} == map[W := 2];
    InTurn();
    OneAlloc(rs, m, {0}, 1, 2);
    MapNewThrough(rs, m, {0} + {1}, map[], 1, 2, 3);
    OrderlyWith(rs, m, {0});
    StaleStep1Possible(rs, m);
  }

  lemma StaleStep1Possible(rs: seq<Region>, m: Ram)
    requires SixBlocks(rs) && Start(m) && Inv(rs, CR3, St(rs, m, {0}))
    ensures Possible(rs, CR3, Machine(World(St(rs, m, {0}), map[]), map[]), Do(MapFresh(1024, G)))
  {
    InTurn();
    OneAlloc(rs, m, {0}, 1, 2);
    OneAlloc(rs, m, {0} + {1}, 2, 3);
  }

  /** It is unmapped: frames 1 and 2 are free again, and the window page still goes to frame 2. */
  lemma StaleStep2(rs: seq<Region>, m: Ram, s0: Vm, e: Entry)
    requires SixBlocks(rs) && m[CR3][SELF] == E(CR3) && m[CR3][1] == D(e) && m[2][0] == E(1)
    requires forall i :: 0 < i < ENTRIES ==> !m[2][i].present
    requires var x := Machine(World(St(rs, m, {0} + {1} + {2}), map[1024 := 1]), map[W := 2]);
             InStep(rs, CR3, s0, x)
    ensures var x := Machine(World(St(rs, m, {0} + {1} + {2}), map[1024 := 1]), map[W := 2]);
            var gone := Put(m, 2, 0, E(1).(present := false, address := 0));
            && Possible(rs, CR3, x, Do(UnmapOwned(1024)))
            && Happen(rs, CR3, x, Do(UnmapOwned(1024)))
               == Machine(World(St(rs, Put(gone, CR3, 1, D(e).(present := false, address := 0)), {0}), map[]),
                          map[W := 2])
  {
    var x := Machine(World(St(rs, m, {0} + {1} + {2}), map[1024 := 1]), map[W := 2]);
    var gone := Put(m, 2, 0, E(1).(present := false, address := 0));
    assert {0} + {1} + {2} - {1} - {2} == {0};
    assert map[1024 := 1] - {1024} == map[];
    assert map[W := 2][W := 2] - {1024} == map[W := 2];
    UnmapInSlot1(rs, m, {0} + {1} + {2}, e);
    assert Dir(1024) == 1 && Idx(1024) == 0 && WindowPage(1024) == W;
  }

  /** The last page of slot 1 goes, and its table with it. */
  lemma UnmapInSlot1(rs: seq<Region>, m: Ram, used: set<nat>, e: Entry)
    requires SixBlocks(rs) && Small(used) && 1 in used && 2 in used
    requires m[CR3][1] == D(e) && m[2][0] == E(1) && forall i :: 0 < i < ENTRIES ==> !m[2][i].present
    ensures Sane(rs, St(rs, m, used))
    ensures var gone := Put(m, 2, 0, E(1).(present := false, address := 0));
            UnmapIn(rs, CR3, St(rs, m, used), 2, 1, 0)
            == (St(rs, Put(gone, CR3, 1, D(e).(present := false, address := 0)), used - {1} - {2}), Done)
  {
    OneFree(rs, m, used, 1);
    var gone := Put(m, 2, 0, E(1).(present := false, address := 0));
    assert gone[CR3] == m[CR3] && Empty(gone[2]);
    OneFree(rs, gone, used - {1}, 2);
  }

  /** Page 1 is mapped on frame 1. */
  lemma StaleStep3(rs: seq<Region>, m: Ram, s0: Vm)
    requires SixBlocks(rs) && m[CR3][SELF] == E(CR3) && m[CR3][0] == E(0) && !m[0][1].present
    requires InStep(rs, CR3, s0, Machine(World(St(rs, m, {0}), map[]), map[W := 2]))
    ensures var x := Machine(World(St(rs, m, {0}), map[]), map[W := 2]);
            && Possible(rs, CR3, x, Do(MapFresh(1, G)))
            && Happen(rs, CR3, x, Do(MapFresh(1, G)))
               == Machine(World(St(rs, Put(m, 0, 1, E(1)), {0} + {1}), map[1 := 1]), map[W := 2][SELF * ENTRIES := 0])
  {
    assert map[][1 := 1] == map[1 := 1];
    assert map[W := 2][SELF * ENTRIES := 0] - {1} == map[W := 2][SELF * ENTRIES := 0];
    assert Dir(1) == 0 && Idx(1) == 1 && WindowPage(1) == SELF * ENTRIES;
    InTurn();
    MapInSlot0(rs, m, {0}, map[], 1, 1, 2);
    OneAlloc(rs, m, {0}, 1, 2);
    OneIsSane(rs, m, {0} + {1});
    WindowWalk(m, CR3, 1);
  }

  /** Mapping page 1024 on frame 2 now: the new table is frame 3, the entry goes to frame 2. */
  ghost predicate StaleAt(rs: seq<Region>, x: Machine) {
    var s := x.world.vm;
    && Sane(rs, s) && NextFrame(rs, s) == Some(2) && Sane(rs, Give(rs, s))
    && var (s', r) := MapThrough(rs, CR3, Give(rs, s), x.tlb, 2, 1024, G, false);
       r == Done && Walk(s'.ram, CR3, 1024) != Some(2)
  }

  lemma StaleEnds(rs: seq<Region>, m: Ram, s0: Vm)
    requires SixBlocks(rs) && m[CR3][SELF] == E(CR3) && !m[CR3][1].present && Empty(m[3])
    requires InStep(rs, CR3, s0, Machine(World(St(rs, m, {0} + {1}), map[1 := 1]), map[W := 2][SELF * ENTRIES := 0]))
    ensures StaleAt(rs, Machine(World(St(rs, m, {0} + {1}), map[1 := 1]), map[W := 2][SELF * ENTRIES := 0]))
  {
    var s, tlb := St(rs, m, {0} + {1}), map[W := 2][SELF * ENTRIES := 0];
    InTurn();
    OneAlloc(rs, m, {0} + {1}, 2, 3);
    TakeFrame(rs, CR3, s);
    StaleThrough(rs, m, {0} + {1} + {2}, tlb);
  }

  /** map_page of page 1024 with a window page that still goes to frame 2. */
  lemma StaleThrough(rs: seq<Region>, m: Ram, used: set<nat>, tlb: Tlb)
    requires SixBlocks(rs)
    requires NextTwo(used, 3, 4) && Inv(rs, CR3, St(rs, m, used)) && !m[CR3][1].present && Empty(m[3]) && W in tlb
             && tlb[W] == 2
    ensures var (s', r) := MapThrough(rs, CR3, St(rs, m, used), tlb, 2, 1024, G, false);
            r == Done && Walk(s'.ram, CR3, 1024) != Some(2)
  {
    OneAlloc(rs, m, used, 3, 4);
    assert Dir(1024) == 1 && WindowPage(1024) == W;
    StaleWindowMapsIff(rs, CR3, St(rs, m, used), tlb, 2, 1024, G, false);
  }

  /** A page is mapped and unmapped, another mapped: then mapping the first one again does not map it. */
  lemma StaleWindow(rs: seq<Region>, m: Ram)
    requires SixBlocks(rs) && Start(m)
    ensures var x := Machine(World(St(rs, m, {0}), map[]), map[]);
            var evs := [Do(MapFresh(1024, G)), Do(UnmapOwned(1024)), Do(MapFresh(1, G))];
            && InStep(rs, CR3, St(rs, m, {0}), x) && PossibleRun(rs, CR3, x, evs)
            && StaleAt(rs, RunThrough(rs, CR3, x, evs))
  {
    var s0, x := St(rs, m, {0}), Machine(World(St(rs, m, {0}), map[]), map[]);
    var rest := [Do(UnmapOwned(1024)), Do(MapFresh(1, G))];
    assert [Do(MapFresh(1024, G))] + rest == [Do(MapFresh(1024, G)), Do(UnmapOwned(1024)), Do(MapFresh(1, G))];
    StartIsOrderly(rs, m);
    StaleStep1(rs, m);
    HappenInStep(rs, CR3, s0, x, Do(MapFresh(1024, G)));
    StaleTail(rs, s0, Put(Put(m, CR3, 1, D(m[CR3][1])), 2, 0, E(1)), m[CR3][1]);
    EventCons(rs, x, Do(MapFresh(1024, G)), rest);
  }

  lemma StaleTail(rs: seq<Region>, s0: Vm, m: Ram, e: Entry)
    requires SixBlocks(rs)
    requires m[CR3][SELF] == E(CR3) && m[CR3][0] == E(0) && m[CR3][1] == D(e) && !m[0][1].present && Empty(m[3])
    requires m[2][0] == E(1) && forall i :: 0 < i < ENTRIES ==> !m[2][i].present
    requires InStep(rs, CR3, s0, Machine(World(St(rs, m, {0} + {1} + {2}), map[1024 := 1]), map[W := 2]))
    ensures var x, rest := Machine(World(St(rs, m, {0} + {1} + {2}), map[1024 := 1]), map[W := 2]),
            [Do(UnmapOwned(1024)), Do(MapFresh(1, G))];
            PossibleRun(rs, CR3, x, rest) && StaleAt(rs, RunThrough(rs, CR3, x, rest))
  {
    var x := Machine(World(St(rs, m, {0} + {1} + {2}), map[1024 := 1]), map[W := 2]);
    assert [Do(UnmapOwned(1024))] + [Do(MapFresh(1, G))] == [Do(UnmapOwned(1024)), Do(MapFresh(1, G))];
    StaleStep2(rs, m, s0, e);
    HappenInStep(rs, CR3, s0, x, Do(UnmapOwned(1024)));
    var y := Happen(rs, CR3, x, Do(UnmapOwned(1024)));
    StaleLast(rs, s0, y.world.vm.ram);
    EventCons(rs, x, Do(UnmapOwned(1024)), [Do(MapFresh(1, G))]);
  }

  lemma StaleLast(rs: seq<Region>, s0: Vm, m: Ram)
    requires SixBlocks(rs)
    requires m[CR3][SELF] == E(CR3) && m[CR3][0] == E(0) && !m[CR3][1].present && !m[0][1].present && Empty(m[3])
    requires InStep(rs, CR3, s0, Machine(World(St(rs, m, {0}), map[]), map[W := 2]))
    ensures var y, rest := Machine(World(St(rs, m, {0}), map[]), map[W := 2]), [Do(MapFresh(1, G))];
            PossibleRun(rs, CR3, y, rest) && StaleAt(rs, RunThrough(rs, CR3, y, rest))
  {
    var y := Machine(World(St(rs, m, {0}), map[]), map[W := 2]);
    StaleStep3(rs, m, s0);
    HappenInStep(rs, CR3, s0, y, Do(MapFresh(1, G)));
    var m' := Put(m, 0, 1, E(1));
    StaleEnds(rs, m', s0);
    EventCons(rs, y, Do(MapFresh(1, G)), []);
    assert [Do(MapFresh(1, G))] + [] == [Do(MapFresh(1, G))];
  }

  // ---------------------------------------------------------------- a lost frame

  /**
   One free frame, and the heap range in slots without tables: k_malloc_init may be called, and the number
   of free frames is the one for which its contract foretells a lost frame.
   */
  lemma FrameIsLost(rs: seq<Region>, m: Ram)
    requires SixBlocks(rs) && Start(m)
    ensures var s, h := St(rs, m, {0, 1, 2, 3, 4}), 1024;
            && Pool(0, 7, 1, 1).Covers(rs)
            && HeapBringUp.ReadyState(rs, CR3, s, map[], h, Pool(0, 7, 1, 1)) && HintSound(rs, s.frames)
            && Opens(m, CR3, h, 0) && FreeCount(rs, s) == Need(m, CR3, h, 0) + 1
  {
    var used: set<nat> := {0, 1, 2, 3, 4};
    OneFrameFree(rs, m, used);
    OneRangeReady(rs, m, used);
    OneFits(rs, used);
    OnePoolCovers(rs);
    assert !HasTable(m, CR3, 1);
  }

  lemma OnePoolCovers(rs: seq<Region>)
    requires SixBlocks(rs)
    ensures Pool(0, 7, 1, 1).Covers(rs)
  {
  }

  lemma OnlyFive(all: set<nat>, used: set<nat>)
    requires used == {0, 1, 2, 3, 4} && forall f: nat :: f in all <==> f < 6
    ensures all - used == {5}
  {
  }

  lemma OneFrameFree(rs: seq<Region>, m: Ram, used: set<nat>)
    requires SixBlocks(rs) && used == {0, 1, 2, 3, 4}
    ensures Sane(rs, St(rs, m, used)) && FreeCount(rs, St(rs, m, used)) == 1
    ensures forall f: nat :: f in AllFrames(rs) - InUse(rs, St(rs, m, used)) ==> f == 5
  {
    OneIsSane(rs, m, used);
    OnlyFive(AllFrames(rs), used);
  }

  lemma OneRangeReady(rs: seq<Region>, m: Ram, used: set<nat>)
    requires SixBlocks(rs) && Start(m) && used == {0, 1, 2, 3, 4}
    ensures HeapBringUp.ReadyState(rs, CR3, St(rs, m, used), map[], 1024, Pool(0, 7, 1, 1))
  {
    OrderlyWith(rs, m, used);
    OneSlotAnchored(m, HeapBringUp.Range(1024, 1024 + HeapBringUp.HEAP_PAGES));
  }

  /** The only table keeps page 0. */
  lemma OneSlotAnchored(m: Ram, range: set<int>)
    requires Start(m) && 0 !in range
    ensures forall d :: HasTable(m, CR3, d) ==> Anchored(m, CR3, d, range)
  {
    assert Walk(m, CR3, 0) == Some(7) && Dir(0) == 0 && IsLow(0) && IsPage(0);
  }
}
