/**
 How many frames it takes to map a range of pages on fresh frames: one for each page, and one for each
 slot of the directory that has no table yet.
 */
module FrameBudget {
  import opened FrameSpec
  import opened Paging
  import opened PagingLaws
  import opened BitmapPool

  /** Frames the allocator could still hand out, wherever they are. */
  ghost function FreeCount(rs: seq<Region>, s: Vm): nat
    requires Sane(rs, s)
  {
    |AllFrames(rs) - InUse(rs, s)|
  }

  /** With a sound hint get_free_frame fails exactly when no frame is free. */
  lemma NoFrameIff(rs: seq<Region>, s: Vm)
    requires Sane(rs, s) && HintSound(rs, s.frames)
    ensures NextFrame(rs, s).None? <==> FreeCount(rs, s) == 0
  {
    var free := AllFrames(rs) - InUse(rs, s);
    AllocFailsIff(rs, s.frames);
    if NextFrame(rs, s).None? {
      forall f ensures f !in free {
        if f in AllFrames(rs) {
          var i, b :| 0 <= i < |rs| && 0 <= b < rs[i].totalBlocks && rs[i].Address(b) / BLOCK_SIZE == f;
          assert Full(rs[i], s.frames.mem) && Taken(rs[i], s.frames.mem, b);
        }
      }
    } else {
      NextFrameTakes(rs, s);
      assert NextFrame(rs, s).value in free;
    }
  }

  lemma GiveCounts(rs: seq<Region>, s: Vm)
    requires Sane(rs, s) && NextFrame(rs, s).Some? && HintSound(rs, s.frames)
    ensures Sane(rs, Give(rs, s)) && HintSound(rs, Give(rs, s).frames)
    ensures FreeCount(rs, s) == FreeCount(rs, Give(rs, s)) + 1
  {
    NextFrameTakes(rs, s);
    AllocKeepsHint(rs, s.frames);
    var f: nat := NextFrame(rs, s).value;
    assert AllFrames(rs) - InUse(rs, s) == (AllFrames(rs) - InUse(rs, Give(rs, s))) + {f};
  }

  // ---------------------------------------------------------------- the need of a range

  /** The owned pages are exactly [lo, hi). */
  ghost predicate Owns(owned: map<int, FrameNo>, lo: int, hi: int) {
    forall q :: q in owned <==> lo <= q < hi
  }

  /** Page number `i` of the range from `h` on is the first one in a slot that has no table. */
  ghost predicate Opens(m: Ram, cr3: FrameNo, h: int, i: nat) {
    !HasTable(m, cr3, (h + i) / ENTRIES) && (i == 0 || (h + i - 1) / ENTRIES != (h + i) / ENTRIES)
  }

  /** Frames for the first `i` pages and the tables they open. */
  ghost function Need(m: Ram, cr3: FrameNo, h: int, i: nat): nat {
    if i == 0 then 0 else Need(m, cr3, h, i - 1) + 1 + if Opens(m, cr3, h, i - 1) then 1 else 0
  }

  /** Slots of the first `i` pages that have no table. */
  ghost function NewSlots(m: Ram, cr3: FrameNo, h: int, i: nat): set<int> {
    set d | h / ENTRIES <= d <= (h + i - 1) / ENTRIES && i > 0 && !HasTable(m, cr3, d)
  }

  /** The need is the number of pages and of slots without a table. */
  lemma {:induction false} NeedCounts(m: Ram, cr3: FrameNo, h: int, i: nat)
    requires h >= 0
    ensures Need(m, cr3, h, i) == i + |NewSlots(m, cr3, h, i)|
  {
    if i == 0 {
      assert NewSlots(m, cr3, h, i) == {};
    } else {
      NeedCounts(m, cr3, h, i - 1);
      var d := (h + i - 1) / ENTRIES;
      var before := NewSlots(m, cr3, h, i - 1);
      assert i > 1 ==> (h + i - 2) / ENTRIES == d || (h + i - 2) / ENTRIES == d - 1;
      if Opens(m, cr3, h, i - 1) {
        assert NewSlots(m, cr3, h, i) == before + {d} && d !in before;
      } else {
        assert NewSlots(m, cr3, h, i) == before;
      }
    }
  }

  lemma {:induction false} NeedGrows(m: Ram, cr3: FrameNo, h: int, i: nat, j: nat)
    requires i <= j
    ensures Need(m, cr3, h, i) + (j - i) <= Need(m, cr3, h, j)
  {
    if i < j {
      NeedGrows(m, cr3, h, i, j - 1);
    }
  }

  /** While the range is being mapped, a page's slot has no table exactly when the page opens it. */
  lemma TableAtPage(rs: seq<Region>, cr3: FrameNo, s0: Vm, s: Vm, owned: map<int, FrameNo>, h: int, i: nat, p: int)
    requires Books(rs, cr3, s0, s, owned, {}) && Owns(owned, h, p) && 0 <= h && p == h + i && IsLow(p) && IsPage(p)
    ensures HasTable(s.ram, cr3, Dir(p)) <==> !Opens(s0.ram, cr3, h, i)
  {
    LowDir(p);
    if HasTable(s.ram, cr3, Dir(p)) && !HasTable(s0.ram, cr3, Dir(p)) {
      TableHasPage(rs, cr3, s, Dir(p));
      var q :| IsLow(q) && IsPage(q) && Dir(q) == Dir(p) && q !in {} && Walk(s.ram, cr3, q).Some?;
      LowDir(q);
      assert q in owned;
    }
    if i > 0 && (h + i - 1) / ENTRIES == (h + i) / ENTRIES {
      var q := p - 1;
      LowDir(q);
      assert q in owned && Walk(s.ram, cr3, q).Some?;
    }
  }

  lemma {:induction false} KeysCount(owned: map<int, FrameNo>, h: int, i: nat)
    requires Owns(owned, h, h + i)
    ensures |owned.Keys| == i
  {
    if i == 0 {
      assert forall q :: q in owned ==> h <= q < h;
      assert owned.Keys == {};
    } else {
      var p := h + i - 1;
      KeysCount(owned - {p}, h, i - 1);
      assert (owned - {p}).Keys == owned.Keys - {p};
    }
  }

  lemma {:induction false} FramesCount(owned: map<int, FrameNo>)
    requires forall q, r :: q in owned && r in owned && q != r ==> owned[q] != owned[r]
    ensures |FramesOf(owned)| == |owned.Keys|
    decreases |owned|
  {
    if p :| p in owned {
      OneFrameLess(owned, p);
      FramesCount(owned - {p});
      assert (owned - {p}).Keys == owned.Keys - {p};
      assert owned[p] as nat in FramesOf(owned);
    } else {
      assert forall q :: q !in owned.Keys;
      assert owned.Keys == {} && FramesOf(owned) == {};
    }
  }

  /** The slots that got a table are those of the pages mapped that had none. */
  lemma NewSlotIff(rs: seq<Region>, cr3: FrameNo, s0: Vm, s: Vm, owned: map<int, FrameNo>, h: int, i: nat, d: int)
    requires Books(rs, cr3, s0, s, owned, {}) && Owns(owned, h, h + i) && 0 <= h && h + i <= SELF * ENTRIES
    ensures HasTable(s.ram, cr3, d) && !HasTable(s0.ram, cr3, d) <==> d in NewSlots(s0.ram, cr3, h, i)
  {
    if HasTable(s.ram, cr3, d) && !HasTable(s0.ram, cr3, d) {
      TableHasPage(rs, cr3, s, d);
      var q :| IsLow(q) && IsPage(q) && Dir(q) == d && q !in {} && Walk(s.ram, cr3, q).Some?;
      assert q in owned;
    }
    if d in NewSlots(s0.ram, cr3, h, i) {
      var q := if h < d * ENTRIES then d * ENTRIES else h;
      LowDir(q);
      assert q in owned && Walk(s.ram, cr3, q).Some? && Dir(q) == d;
    }
  }

  lemma NewTablesCount(rs: seq<Region>, cr3: FrameNo, s0: Vm, s: Vm, owned: map<int, FrameNo>, h: int, i: nat)
    requires Books(rs, cr3, s0, s, owned, {}) && Owns(owned, h, h + i) && 0 <= h && h + i <= SELF * ENTRIES
    ensures |NewTables(s0.ram, s.ram, cr3)| == |NewSlots(s0.ram, cr3, h, i)|
  {
    var slots := NewSlots(s0.ram, cr3, h, i);
    forall d ensures HasTable(s.ram, cr3, d) && !HasTable(s0.ram, cr3, d) <==> d in slots {
      NewSlotIff(rs, cr3, s0, s, owned, h, i, d);
    }
    TablesCount(rs, cr3, s0.ram, s, slots);
  }

  /** New tables are as many as the slots they are in. */
  lemma TablesCount(rs: seq<Region>, cr3: FrameNo, m0: Ram, s: Vm, slots: set<int>)
    requires Inv(rs, cr3, s) && forall d :: HasTable(s.ram, cr3, d) && !HasTable(m0, cr3, d) <==> d in slots
    ensures |NewTables(m0, s.ram, cr3)| == |slots|
  {
    var tables := map d | d in slots :: s.ram[cr3][d].address;
    assert tables.Keys == slots;
    forall d, e | d in tables && e in tables && d != e ensures tables[d] != tables[e] {
      assert HasTable(s.ram, cr3, d) && HasTable(s.ram, cr3, e) && TableOf(s.ram, cr3, d) != TableOf(s.ram, cr3, e);
    }
    FramesCount(tables);
    assert FramesOf(tables) == NewTables(m0, s.ram, cr3);
  }

  lemma Cardinals(free0: set<nat>, free: set<nat>, a: set<nat>, b: set<nat>)
    requires free0 == free + a + b && free !! a && free !! b && a !! b
    ensures |free0| == |free| + |a| + |b|
  {
    assert |free + a| == |free| + |a| && (free + a) !! b;
  }

  lemma FreeSplits(rs: seq<Region>, cr3: FrameNo, s0: Vm, s: Vm, owned: map<int, FrameNo>)
    requires Books(rs, cr3, s0, s, owned, {})
    ensures var free, a, b := AllFrames(rs) - InUse(rs, s), FramesOf(owned), NewTables(s0.ram, s.ram, cr3);
            AllFrames(rs) - InUse(rs, s0) == free + a + b && free !! a && free !! b && a !! b
  {
    var a, b := FramesOf(owned), NewTables(s0.ram, s.ram, cr3);
    forall t | t in a ensures t in AllFrames(rs) && t !in InUse(rs, s0) {
      var q :| q in owned && t == owned[q] as nat;
    }
    forall t | t in b ensures t in AllFrames(rs) && t !in InUse(rs, s0) {
      var d :| 0 <= d < SELF && HasTable(s.ram, cr3, d) && !HasTable(s0.ram, cr3, d)
          && t == s.ram[cr3][d].address as nat;
      TableIsManaged(rs, cr3, s, d);
    }
  }

  /** The frames gone since the start are the need of the pages mapped. */
  lemma BooksCount(rs: seq<Region>, cr3: FrameNo, s0: Vm, s: Vm, owned: map<int, FrameNo>, h: int, i: nat)
    requires Books(rs, cr3, s0, s, owned, {}) && Owns(owned, h, h + i) && 0 <= h && h + i <= SELF * ENTRIES
    ensures FreeCount(rs, s) + Need(s0.ram, cr3, h, i) == FreeCount(rs, s0)
  {
    NeedCounts(s0.ram, cr3, h, i);
    NewTablesCount(rs, cr3, s0, s, owned, h, i);
    FramesCount(owned);
    KeysCount(owned, h, i);
    FreeSplits(rs, cr3, s0, s, owned);
    Cardinals(AllFrames(rs) - InUse(rs, s0), AllFrames(rs) - InUse(rs, s), FramesOf(owned),
        NewTables(s0.ram, s.ram, cr3));
  }

  /** Where the mapping of `pages` pages stops, from the number of free frames on entry. */
  lemma StopsIff(m: Ram, cr3: FrameNo, h: int, free: nat, n: nat, lost: set<nat>, pages: nat)
    requires n < pages
    requires if lost == {} then free == Need(m, cr3, h, n) else Opens(m, cr3, h, n) && free == Need(m, cr3, h, n) + 1
    ensures free < Need(m, cr3, h, pages)
    ensures lost != {} <==> exists i: nat :: i < pages && Opens(m, cr3, h, i) && free == Need(m, cr3, h, i) + 1
  {
    NeedGrows(m, cr3, h, n + 1, pages);
    if lost == {} {
      forall i: nat | i < pages && Opens(m, cr3, h, i) ensures free != Need(m, cr3, h, i) + 1 {
        if i < n { NeedGrows(m, cr3, h, i + 1, n); } else { NeedGrows(m, cr3, h, n, i); }
      }
    }
  }

  lemma NeverStops(m: Ram, cr3: FrameNo, h: int, free: nat, pages: nat)
    requires free >= Need(m, cr3, h, pages)
    ensures !exists i: nat :: i < pages && Opens(m, cr3, h, i) && free == Need(m, cr3, h, i) + 1
  {
    forall i: nat | i < pages && Opens(m, cr3, h, i) ensures free != Need(m, cr3, h, i) + 1 {
      NeedGrows(m, cr3, h, i + 1, pages);
    }
  }
}
