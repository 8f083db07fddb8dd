/**
 Mapping and unmapping refine a plain map from pages to frames, and keep the books of who
 uses which frame.
 */
module PagingLaws {
  import opened Wrappers
  import opened FrameSpec
  import opened Paging

  // ---------------------------------------------------------------- one write

  /** Writing a table entry changes the translation of at most one page per slot that uses the table. */
  lemma WalkAfterPut(m: Ram, cr3: FrameNo, t: FrameNo, i: nat, e: Entry, q: int)
    requires IsPage(q) && i < ENTRIES && t != cr3
    ensures Walk(Put(m, t, i, e), cr3, q)
            == (if m[cr3][Dir(q)].present && m[cr3][Dir(q)].address == t && Idx(q) == i
                then (if e.present then Some(e.address) else None)
                else Walk(m, cr3, q))
  {
    DirIdx(q);
  }

  /** Writing a directory entry changes translations in its own slot only, as far as low pages go. */
  lemma WalkAfterDir(m: Ram, cr3: FrameNo, d: nat, e: Entry, q: int)
    requires IsPage(q) && d < ENTRIES && Dir(q) != d
    requires m[cr3][Dir(q)].present ==> m[cr3][Dir(q)].address != cr3
    ensures Walk(Put(m, cr3, d, e), cr3, q) == Walk(m, cr3, q)
  {
    DirIdx(q);
  }

  lemma PageOfSlot(d: nat, i: nat)
    requires d < SELF && i < ENTRIES
    ensures IsLow(d * ENTRIES + i) && Dir(d * ENTRIES + i) == d && Idx(d * ENTRIES + i) == i
  {
  }

  lemma SamePage(p: int, q: int)
    requires IsPage(p) && IsPage(q) && Dir(p) == Dir(q) && Idx(p) == Idx(q)
    ensures p == q
  {
    DirIdx(p);
    DirIdx(q);
  }

  // ---------------------------------------------------------------- frames

  /** free_frame accepts exactly the frames that are in use. */
  lemma TakenIff(rs: seq<Region>, s: Vm, f: FrameNo)
    requires Sane(rs, s)
    ensures IsTaken(rs, s.frames, f * PAGE_SIZE) <==> f in InUse(rs, s)
  {
    var addr := f * PAGE_SIZE;
    if f in InUse(rs, s) {
      var i, b :| 0 <= i < |rs| && 0 <= b < rs[i].totalBlocks && Taken(rs[i], s.frames.mem, b)
          && rs[i].Address(b) / BLOCK_SIZE == f;
      AddressBlock(rs[i], b);
      assert rs[i].Address(b) == addr;
      LookupFindsOwner(rs, |s.frames.mem|, addr, i);
    }
    if IsTaken(rs, s.frames, addr) {
      var k := Lookup(rs, addr, 0);
      BlockAddress(rs[k], addr);
      assert rs[k].Address(rs[k].Block(addr)) / BLOCK_SIZE == f;
    }
  }

  lemma ReleaseFrees(rs: seq<Region>, s: Vm, f: FrameNo)
    requires Sane(rs, s) && f in InUse(rs, s)
    ensures FreeOf(rs, s.frames, f).Some?
    ensures var s' := s.(frames := FreeOf(rs, s.frames, f).value);
            Sane(rs, s') && InUse(rs, s') == InUse(rs, s) - {f}
  {
    var k, b := FreeOfIs(rs, s, f);
    UsedFramesAfterWrite(rs, s.frames.mem, k, b, false);
  }

  lemma FreeOfIs(rs: seq<Region>, s: Vm, f: FrameNo) returns (k: nat, b: nat)
    requires Sane(rs, s) && f in InUse(rs, s)
    ensures k < |rs| && b < rs[k].totalBlocks && rs[k].Address(b) / BLOCK_SIZE == f
    ensures FreeOf(rs, s.frames, f) == Some(s.frames.(mem := s.frames.mem[rs[k].Pos(b) := false]))
  {
    TakenIff(rs, s, f);
    k := Lookup(rs, f * PAGE_SIZE, 0);
    b := rs[k].Block(f * PAGE_SIZE);
    BlockAddress(rs[k], f * PAGE_SIZE);
  }

  lemma NextFrameTakes(rs: seq<Region>, s: Vm)
    requires Sane(rs, s) && NextFrame(rs, s).Some?
    ensures var f, s' := NextFrame(rs, s).value, s.(frames := Alloc(rs, s.frames).0);
            IsFree(rs, s, f) && Sane(rs, s') && InUse(rs, s') == InUse(rs, s) + {f}
  {
    AllocTakesOne(rs, s.frames);
  }

  // ---------------------------------------------------------------- mapping refines a plain map

  /** The slot of page `p` has a table, or gets one that reads as blank. */
  ghost predicate TableReady(rs: seq<Region>, cr3: FrameNo, s: Vm, p: int)
    requires Sane(rs, s) && IsLow(p)
  {
    LowDir(p);
    s.ram[cr3][Dir(p)].present || NextFrame(rs, s).None? || Empty(s.ram[NextFrame(rs, s).value])
  }

  /** The directory after the first half of map_page, before the table entry is written. */
  lemma NewTable(rs: seq<Region>, cr3: FrameNo, s: Vm, p: int, g: Flags)
    requires Inv(rs, cr3, s) && IsLow(p) && IsPage(p) && g.present
    requires !s.ram[cr3][Dir(p)].present && NextFrame(rs, s).Some?
    ensures WithTable(rs, cr3, s, p, g).Some?
    ensures var s1, t := WithTable(rs, cr3, s, p, g).value, NextFrame(rs, s).value;
            && Sane(rs, s1) && SelfMapped(s1.ram, cr3) && t != cr3
            && InUse(rs, s1) == InUse(rs, s) + {t} && t !in InUse(rs, s)
            && HasTable(s1.ram, cr3, Dir(p)) && TableOf(s1.ram, cr3, Dir(p)) == t
            && (forall d :: d != Dir(p) ==> HasTable(s1.ram, cr3, d) == HasTable(s.ram, cr3, d))
            && (forall d :: d != Dir(p) && HasTable(s.ram, cr3, d)
                   ==> TableOf(s1.ram, cr3, d) == TableOf(s.ram, cr3, d) != t)
            && (forall f: FrameNo :: f != cr3 ==> s1.ram[f] == s.ram[f])
            && (forall q :: IsLow(q) && Dir(q) != Dir(p) ==> Walk(s1.ram, cr3, q) == Walk(s.ram, cr3, q))
            && (forall q :: IsLow(q) && Dir(q) == Dir(p) ==> Walk(s.ram, cr3, q) == None)
  {
    LowDir(p);
    NextFrameTakes(rs, s);
    var s1, t := WithTable(rs, cr3, s, p, g).value, NextFrame(rs, s).value;
    forall d | d != Dir(p) && HasTable(s.ram, cr3, d)
      ensures TableOf(s1.ram, cr3, d) == TableOf(s.ram, cr3, d) != t
    {
      assert TableOk(rs, cr3, s, d);
    }
    forall q | IsLow(q) && Dir(q) != Dir(p)
      ensures Walk(s1.ram, cr3, q) == Walk(s.ram, cr3, q)
    {
      LowDir(q);
      if HasTable(s.ram, cr3, Dir(q)) { assert TableOk(rs, cr3, s, Dir(q)); }
      WalkAfterDir(s.ram, cr3, Dir(p), DirEntry(s.ram[cr3][Dir(p)], t, g), q);
    }
  }

  /** Writing the entry of page `p` in the table of its slot changes the translation of `p` alone. */
  lemma EntryWritten(m: Ram, cr3: FrameNo, p: int, e: Entry)
    requires IsLow(p) && IsPage(p) && HasTable(m, cr3, Dir(p)) && TableOf(m, cr3, Dir(p)) != cr3
    requires forall d :: d != Dir(p) && HasTable(m, cr3, d) ==> TableOf(m, cr3, d) != TableOf(m, cr3, Dir(p))
    ensures OnlyPage(m, Put(m, TableOf(m, cr3, Dir(p)), Idx(p), e), cr3, p, if e.present then Some(e.address) else None)
  {
    var t := TableOf(m, cr3, Dir(p));
    LowDir(p);
    forall q | IsLow(q)
      ensures Walk(Put(m, t, Idx(p), e), cr3, q) == if q == p then (if e.present then Some(e.address) else None)
              else Walk(m, cr3, q)
    {
      LowDir(q);
      WalkAfterPut(m, cr3, t, Idx(p), e, q);
      if m[cr3][Dir(q)].present && m[cr3][Dir(q)].address == t {
        assert HasTable(m, cr3, Dir(q));
        if Idx(q) == Idx(p) { SamePage(p, q); }
      }
    }
  }

  /** Tables stay where they are. */
  ghost predicate KeepsTables(m: Ram, m': Ram, cr3: FrameNo) {
    forall d :: HasTable(m, cr3, d) ==> HasTable(m', cr3, d) && TableOf(m', cr3, d) == TableOf(m, cr3, d)
  }

  /** What a successful map_page leaves behind. */
  ghost predicate Mapped(rs: seq<Region>, cr3: FrameNo, s: Vm, s': Vm, p: int, f: FrameNo)
    requires Sane(rs, s) && IsLow(p)
  {
    LowDir(p);
    var d := Dir(p);
    && Inv(rs, cr3, s')
    && OnlyPage(s.ram, s'.ram, cr3, p, Some(f))
    && KeepsTables(s.ram, s'.ram, cr3)
    && HasTable(s'.ram, cr3, d)
    && (forall e :: e != d ==> HasTable(s'.ram, cr3, e) == HasTable(s.ram, cr3, e))
    && (if HasTable(s.ram, cr3, d) then InUse(rs, s') == InUse(rs, s)
        else TableOf(s'.ram, cr3, d) !in InUse(rs, s) && InUse(rs, s') == InUse(rs, s) + {TableOf(s'.ram, cr3, d)})
    && (forall h: FrameNo :: h != cr3 && h != TableOf(s'.ram, cr3, d) ==> s'.ram[h] == s.ram[h])
  }

  lemma MapExisting(rs: seq<Region>, cr3: FrameNo, s: Vm, f: FrameNo, p: int, g: Flags, force: bool)
    requires Inv(rs, cr3, s) && IsLow(p) && IsPage(p) && g.present && HasTable(s.ram, cr3, Dir(p))
    requires force || Walk(s.ram, cr3, p).None?
    ensures Map(rs, cr3, s, f, p, g, force).1 == Done
    ensures Mapped(rs, cr3, s, Map(rs, cr3, s, f, p, g, force).0, p, f)
  {
    LowDir(p);
    var t, e := TableOf(s.ram, cr3, Dir(p)), PageEntry(f, g);
    assert TableOk(rs, cr3, s, Dir(p));
    EntryWritten(s.ram, cr3, p, e);
    var s' := Map(rs, cr3, s, f, p, g, force).0;
    assert s'.ram[t][Idx(p)] == e;
    forall d | HasTable(s'.ram, cr3, d) ensures TableOk(rs, cr3, s', d) {
      assert HasTable(s.ram, cr3, d) && TableOk(rs, cr3, s, d);
    }
    SameTables(s.ram, s'.ram, cr3);
  }

  /** Memory with the same directory has the same tables. */
  lemma SameTables(m: Ram, m': Ram, cr3: FrameNo)
    requires m'[cr3] == m[cr3]
    ensures forall d :: HasTable(m', cr3, d) == HasTable(m, cr3, d)
    ensures forall d :: HasTable(m, cr3, d) ==> TableOf(m', cr3, d) == TableOf(m, cr3, d)
  {
  }

  lemma MapNew(rs: seq<Region>, cr3: FrameNo, s: Vm, f: FrameNo, p: int, g: Flags, force: bool)
    requires Inv(rs, cr3, s) && IsLow(p) && IsPage(p) && g.present && !HasTable(s.ram, cr3, Dir(p))
    requires NextFrame(rs, s).Some? && Empty(s.ram[NextFrame(rs, s).value])
    ensures Map(rs, cr3, s, f, p, g, force).1 == Done
    ensures Mapped(rs, cr3, s, Map(rs, cr3, s, f, p, g, force).0, p, f)
  {
    LowDir(p);
    NewTable(rs, cr3, s, p, g);
    var s1, t, e := WithTable(rs, cr3, s, p, g).value, NextFrame(rs, s).value, PageEntry(f, g);
    EntryWritten(s1.ram, cr3, p, e);
    var s' := Map(rs, cr3, s, f, p, g, force).0;
    assert s'.ram == Put(s1.ram, t, Idx(p), e);
    assert s'.ram[t][Idx(p)] == e;
    NewTableTranslates(rs, cr3, s, p, g, f);
    NewTableInv(rs, cr3, s, s1, s', p, t, e);
  }

  /** With the page's entry written the new table is like the others. */
  lemma NewTableInv(rs: seq<Region>, cr3: FrameNo, s: Vm, s1: Vm, s': Vm, p: int, t: FrameNo, e: Entry)
    requires Inv(rs, cr3, s) && IsLow(p) && IsPage(p) && e.present && t != cr3
    requires Sane(rs, s1) && SelfMapped(s1.ram, cr3) && InUse(rs, s1) == InUse(rs, s) + {t as nat}
             && t as nat !in InUse(rs, s)
    requires HasTable(s1.ram, cr3, Dir(p)) && TableOf(s1.ram, cr3, Dir(p)) == t
    requires forall d :: d != Dir(p) ==> HasTable(s1.ram, cr3, d) == HasTable(s.ram, cr3, d)
    requires forall d :: d != Dir(p) && HasTable(s.ram, cr3, d)
                 ==> TableOf(s1.ram, cr3, d) == TableOf(s.ram, cr3, d) != t
    requires forall f: FrameNo :: f != cr3 ==> s1.ram[f] == s.ram[f]
    requires s'.frames == s1.frames && Idx(p) < ENTRIES && s'.ram == Put(s1.ram, t, Idx(p), e)
    ensures Inv(rs, cr3, s')
  {
    assert s'.ram[t][Idx(p)] == e && s'.ram[cr3] == s1.ram[cr3];
    forall d | HasTable(s'.ram, cr3, d) ensures TableOk(rs, cr3, s', d) {
      if d != Dir(p) {
        assert HasTable(s1.ram, cr3, d) && HasTable(s.ram, cr3, d) && TableOk(rs, cr3, s, d);
      }
    }
    forall d, h | HasTable(s'.ram, cr3, d) && HasTable(s'.ram, cr3, h) && d != h
      ensures TableOf(s'.ram, cr3, d) != TableOf(s'.ram, cr3, h)
    {
      assert HasTable(s1.ram, cr3, d) && HasTable(s1.ram, cr3, h);
    }
  }

  /** A blank new table makes the mapped page translate and no other. */
  lemma NewTableTranslates(rs: seq<Region>, cr3: FrameNo, s: Vm, p: int, g: Flags, f: FrameNo)
    requires Inv(rs, cr3, s) && IsLow(p) && IsPage(p) && g.present && !HasTable(s.ram, cr3, Dir(p))
    requires NextFrame(rs, s).Some? && Empty(s.ram[NextFrame(rs, s).value])
    ensures WithTable(rs, cr3, s, p, g).Some?
    ensures OnlyPage(s.ram, Put(WithTable(rs, cr3, s, p, g).value.ram, NextFrame(rs, s).value, Idx(p), PageEntry(f, g)),
            cr3, p, Some(f))
  {
    LowDir(p);
    NewTable(rs, cr3, s, p, g);
    var s1, t := WithTable(rs, cr3, s, p, g).value, NextFrame(rs, s).value;
    EntryWritten(s1.ram, cr3, p, PageEntry(f, g));
    forall q | IsLow(q) && Dir(q) == Dir(p) ensures Walk(s1.ram, cr3, q) == None {
      LowDir(q);
      assert s1.ram[t] == s.ram[t];
    }
  }

  /**
   map_page with PROT_PRESENT: it fails exactly when no frame is left for a table or the page is taken, and then
   changes nothing.
   */
  lemma MapRefines(rs: seq<Region>, cr3: FrameNo, s: Vm, f: FrameNo, p: int, g: Flags, force: bool)
    requires Inv(rs, cr3, s) && IsLow(p) && IsPage(p) && g.present && TableReady(rs, cr3, s, p)
    ensures var (s', r) := Map(rs, cr3, s, f, p, g, force);
            && (r == Done || r == Failed)
            && (r == Failed <==> (!HasTable(s.ram, cr3, Dir(p)) && NextFrame(rs, s).None?)
                                 || (!force && Walk(s.ram, cr3, p).Some?))
            && (r == Failed ==> s' == s)
            && (r == Done ==> Mapped(rs, cr3, s, s', p, f))
  {
    LowDir(p);
    if HasTable(s.ram, cr3, Dir(p)) {
      if force || Walk(s.ram, cr3, p).None? { MapExisting(rs, cr3, s, f, p, g, force); }
    } else if NextFrame(rs, s).Some? {
      MapNew(rs, cr3, s, f, p, g, force);
    }
  }

  /**
   map_page never clears the frame it takes for a new table.  The other pages keep their
   translations exactly when that frame happens to have no other present entry.
   */
  lemma NewTableIsHarmlessIff(rs: seq<Region>, cr3: FrameNo, s: Vm, f: FrameNo, p: int, g: Flags, force: bool)
    requires Inv(rs, cr3, s) && IsLow(p) && IsPage(p) && g.present
    requires !HasTable(s.ram, cr3, Dir(p)) && NextFrame(rs, s).Some?
    ensures var (s', r) := Map(rs, cr3, s, f, p, g, force);
            && r == Done
            && (OnlyPage(s.ram, s'.ram, cr3, p, Some(f))
                <==> forall i :: 0 <= i < ENTRIES && i != Idx(p) ==> !s.ram[NextFrame(rs, s).value][i].present)
  {
    LowDir(p);
    NewTable(rs, cr3, s, p, g);
    var s1, t := WithTable(rs, cr3, s, p, g).value, NextFrame(rs, s).value;
    EntryWritten(s1.ram, cr3, p, PageEntry(f, g));
    var s' := Map(rs, cr3, s, f, p, g, force).0;
    assert s1.ram[t] == s.ram[t];
    if OnlyPage(s.ram, s'.ram, cr3, p, Some(f)) {
      forall i | 0 <= i < ENTRIES && i != Idx(p) ensures !s.ram[t][i].present {
        PageOfSlot(Dir(p), i);
        var q := Dir(p) * ENTRIES + i;
        assert Walk(s'.ram, cr3, q) == Walk(s.ram, cr3, q) == None;
        assert Walk(s'.ram, cr3, q) == Walk(s1.ram, cr3, q);
      }
    }
    if forall i :: 0 <= i < ENTRIES && i != Idx(p) ==> !s.ram[t][i].present {
      forall q | IsLow(q) ensures Walk(s'.ram, cr3, q) == if q == p then Some(f) else Walk(s.ram, cr3, q) {
        LowDir(q);
        if q != p && Dir(q) == Dir(p) {
          if Idx(q) == Idx(p) { SamePage(p, q); }
          assert Walk(s1.ram, cr3, q) == None;
        }
      }
    }
  }

  // ---------------------------------------------------------------- unmapping refines a plain map

  /** What a successful unmap_page leaves behind. */
  ghost predicate Unmapped(rs: seq<Region>, cr3: FrameNo, s: Vm, s': Vm, p: int, f: FrameNo)
    requires Sane(rs, s) && IsLow(p)
  {
    LowDir(p);
    var d := Dir(p);
    && Inv(rs, cr3, s')
    && OnlyPage(s.ram, s'.ram, cr3, p, None)
    && KeepsTables(s'.ram, s.ram, cr3)
    && HasTable(s.ram, cr3, d)
    && (forall e :: e != d ==> HasTable(s'.ram, cr3, e) == HasTable(s.ram, cr3, e))
    && InUse(rs, s') == InUse(rs, s) - {f} - (if HasTable(s'.ram, cr3, d) then {} else {TableOf(s.ram, cr3, d)})
    && (forall h: FrameNo :: h != cr3 && h != TableOf(s.ram, cr3, d) ==> s'.ram[h] == s.ram[h])
  }

  /** The frame behind a page is in use and serves no other purpose in paging. */
  ghost predicate PlainFrame(rs: seq<Region>, cr3: FrameNo, s: Vm, f: FrameNo)
    requires Sane(rs, s)
  {
    f in InUse(rs, s) && f != cr3 && forall d :: HasTable(s.ram, cr3, d) ==> TableOf(s.ram, cr3, d) != f
  }

  /** Page `p` has been cleared in its table, which may now be empty, and frame `f` given back. */
  ghost predicate Cleared(rs: seq<Region>, cr3: FrameNo, s: Vm, s1: Vm, p: int, f: FrameNo)
    requires Sane(rs, s) && IsPage(p) && HasTable(s.ram, cr3, Dir(p))
  {
    var t := TableOf(s.ram, cr3, Dir(p));
    && Sane(rs, s1) && InUse(rs, s1) == InUse(rs, s) - {f} && t != cr3 && t in InUse(rs, s1)
    && s1.ram[cr3] == s.ram[cr3]
    && OnlyPage(s.ram, s1.ram, cr3, p, None)
    && (forall d :: d != Dir(p) && HasTable(s1.ram, cr3, d) ==> TableOk(rs, cr3, s1, d))
    && (forall h: FrameNo :: h != t ==> s1.ram[h] == s.ram[h])
  }

  /** The state after the page's entry has been cleared and its frame freed, before the scan of the table. */
  lemma EntryCleared(rs: seq<Region>, cr3: FrameNo, s: Vm, p: int)
    requires Inv(rs, cr3, s) && IsLow(p) && IsPage(p) && Walk(s.ram, cr3, p).Some?
    requires PlainFrame(rs, cr3, s, Walk(s.ram, cr3, p).value)
    ensures HasTable(s.ram, cr3, Dir(p)) && FreeOf(rs, s.frames, Walk(s.ram, cr3, p).value).Some?
    ensures var f, t := Walk(s.ram, cr3, p).value, TableOf(s.ram, cr3, Dir(p));
            var e := s.ram[t][Idx(p)];
            var s1 := Vm(Put(s.ram, t, Idx(p), e.(present := false, address := 0)), FreeOf(rs, s.frames, f).value);
            Cleared(rs, cr3, s, s1, p, f)
  {
    LowDir(p);
    var f, t := Walk(s.ram, cr3, p).value, TableOf(s.ram, cr3, Dir(p));
    assert TableOk(rs, cr3, s, Dir(p));
    ReleaseFrees(rs, s, f);
    var e := s.ram[t][Idx(p)].(present := false, address := 0);
    EntryWritten(s.ram, cr3, p, e);
    var s1 := Vm(Put(s.ram, t, Idx(p), e), FreeOf(rs, s.frames, f).value);
    OtherTablesOk(rs, cr3, s, s1, p, f);
  }

  lemma OtherTablesOk(rs: seq<Region>, cr3: FrameNo, s: Vm, s1: Vm, p: int, f: FrameNo)
    requires Inv(rs, cr3, s) && PlainFrame(rs, cr3, s, f) && IsPage(p) && HasTable(s.ram, cr3, Dir(p))
    requires Sane(rs, s1) && InUse(rs, s1) == InUse(rs, s) - {f as nat} && s1.ram[cr3] == s.ram[cr3]
    requires forall h: FrameNo :: h != TableOf(s.ram, cr3, Dir(p)) ==> s1.ram[h] == s.ram[h]
    ensures forall d :: d != Dir(p) && HasTable(s1.ram, cr3, d) ==> TableOk(rs, cr3, s1, d)
  {
    forall d | d != Dir(p) && HasTable(s1.ram, cr3, d) ensures TableOk(rs, cr3, s1, d) {
      assert HasTable(s.ram, cr3, d) && TableOk(rs, cr3, s, d);
    }
  }

  lemma UnmapKeepsTable(rs: seq<Region>, cr3: FrameNo, s: Vm, p: int, s1: Vm, f: FrameNo)
    requires Inv(rs, cr3, s) && IsLow(p) && IsPage(p) && HasTable(s.ram, cr3, Dir(p)) && PlainFrame(rs, cr3, s, f)
    requires Cleared(rs, cr3, s, s1, p, f) && !Empty(s1.ram[TableOf(s.ram, cr3, Dir(p))])
    ensures Unmapped(rs, cr3, s, s1, p, f)
  {
    SameTables(s.ram, s1.ram, cr3);
    forall d | HasTable(s1.ram, cr3, d) ensures TableOk(rs, cr3, s1, d) {
    }
  }

  /** Clearing the directory entry of an empty table changes no translation. */
  lemma EmptySlotCleared(rs: seq<Region>, cr3: FrameNo, s: Vm, m': Ram, d: nat, e: Entry)
    requires Sane(rs, s) && HasTable(s.ram, cr3, d) && Empty(s.ram[TableOf(s.ram, cr3, d)]) && !e.present
    requires forall h :: h != d && HasTable(s.ram, cr3, h) ==> TableOk(rs, cr3, s, h)
    requires m' == Put(s.ram, cr3, d, e)
    ensures forall q :: IsLow(q) ==> Walk(m', cr3, q) == Walk(s.ram, cr3, q)
  {
    forall q | IsLow(q) ensures Walk(m', cr3, q) == Walk(s.ram, cr3, q) {
      LowDir(q);
      if Dir(q) != d {
        assert HasTable(s.ram, cr3, Dir(q)) ==> TableOk(rs, cr3, s, Dir(q));
        WalkAfterDir(s.ram, cr3, d, e, q);
      } else {
        assert !s.ram[TableOf(s.ram, cr3, d)][Idx(q)].present;
      }
    }
  }

  /** An empty table goes back to the allocator together with its directory entry. */
  lemma UnmapReleasesTable(rs: seq<Region>, cr3: FrameNo, s: Vm, p: int, s1: Vm, f: FrameNo)
    requires Inv(rs, cr3, s) && IsLow(p) && IsPage(p) && HasTable(s.ram, cr3, Dir(p)) && PlainFrame(rs, cr3, s, f)
    requires Cleared(rs, cr3, s, s1, p, f) && Empty(s1.ram[TableOf(s.ram, cr3, Dir(p))])
    ensures Dir(p) < ENTRIES && ReleaseTable(rs, cr3, s1, Dir(p)).1 == Done
    ensures Unmapped(rs, cr3, s, ReleaseTable(rs, cr3, s1, Dir(p)).0, p, f)
    ensures !HasTable(ReleaseTable(rs, cr3, s1, Dir(p)).0.ram, cr3, Dir(p))
  {
    LowDir(p);
    var d, t := Dir(p), TableOf(s.ram, cr3, Dir(p));
    ReleaseFrees(rs, s1, t);
    var s2 := ReleaseTable(rs, cr3, s1, d).0;
    var e := s1.ram[cr3][d].(present := false, address := 0);
    assert s2.ram == Put(s1.ram, cr3, d, e);
    SlotCleared(rs, cr3, s, p, s1, f, s2, e);
  }

  lemma SlotCleared(rs: seq<Region>, cr3: FrameNo, s: Vm, p: int, s1: Vm, f: FrameNo, s2: Vm, e: Entry)
    requires Inv(rs, cr3, s) && IsLow(p) && IsPage(p) && HasTable(s.ram, cr3, Dir(p)) && PlainFrame(rs, cr3, s, f)
    requires Cleared(rs, cr3, s, s1, p, f) && Empty(s1.ram[TableOf(s.ram, cr3, Dir(p))])
    requires Dir(p) < ENTRIES && s2.ram == Put(s1.ram, cr3, Dir(p), e) && !e.present
    requires Sane(rs, s2) && InUse(rs, s2) == InUse(rs, s1) - {TableOf(s.ram, cr3, Dir(p))}
    ensures Unmapped(rs, cr3, s, s2, p, f) && !HasTable(s2.ram, cr3, Dir(p))
  {
    LowDir(p);
    SameTables(s.ram, s1.ram, cr3);
    SlotLess(rs, cr3, s, s1, s2, Dir(p), e);
    EmptySlotCleared(rs, cr3, s1, s2.ram, Dir(p), e);
  }

  /** The other slots keep their tables. */
  lemma SlotLess(rs: seq<Region>, cr3: FrameNo, s: Vm, s1: Vm, s2: Vm, d: nat, e: Entry)
    requires Inv(rs, cr3, s) && HasTable(s.ram, cr3, d) && Sane(rs, s1) && Sane(rs, s2) && s1.ram[cr3] == s.ram[cr3]
             && !e.present
    requires forall h :: h != d && HasTable(s1.ram, cr3, h) ==> TableOk(rs, cr3, s1, h)
    requires s2.ram == Put(s1.ram, cr3, d, e) && InUse(rs, s2) == InUse(rs, s1) - {TableOf(s.ram, cr3, d)}
    ensures forall h :: HasTable(s2.ram, cr3, h) ==>
              TableOk(rs, cr3, s2, h) && h != d && HasTable(s.ram, cr3, h)
                  && TableOf(s2.ram, cr3, h) == TableOf(s.ram, cr3, h)
    ensures forall h :: h != d ==> HasTable(s2.ram, cr3, h) == HasTable(s.ram, cr3, h)
  {
    forall h | HasTable(s2.ram, cr3, h)
      ensures TableOk(rs, cr3, s2, h) && h != d && HasTable(s.ram, cr3, h)
              && TableOf(s2.ram, cr3, h) == TableOf(s.ram, cr3, h)
    {
      assert HasTable(s1.ram, cr3, h) && TableOk(rs, cr3, s1, h) && HasTable(s.ram, cr3, h);
    }
  }

  /** unmap_page on a mapped page whose frame came from the allocator. */
  lemma UnmapRefines(rs: seq<Region>, cr3: FrameNo, s: Vm, p: int)
    requires Inv(rs, cr3, s) && IsLow(p) && IsPage(p) && Walk(s.ram, cr3, p).Some?
    requires PlainFrame(rs, cr3, s, Walk(s.ram, cr3, p).value)
    ensures Unmap(rs, cr3, s, p).1 == Done
    ensures Unmapped(rs, cr3, s, Unmap(rs, cr3, s, p).0, p, Walk(s.ram, cr3, p).value)
  {
    LowDir(p);
    var f := Walk(s.ram, cr3, p).value;
    EntryCleared(rs, cr3, s, p);
    var t := TableOf(s.ram, cr3, Dir(p));
    var e := s.ram[t][Idx(p)];
    var s1 := Vm(Put(s.ram, t, Idx(p), e.(present := false, address := 0)), FreeOf(rs, s.frames, f).value);
    if Empty(s1.ram[t]) {
      UnmapReleasesTable(rs, cr3, s, p, s1, f);
    } else {
      UnmapKeepsTable(rs, cr3, s, p, s1, f);
    }
  }

  /** unmap_page on a page that is not mapped changes nothing; without a table the access to it faults. */
  lemma UnmapNothing(rs: seq<Region>, cr3: FrameNo, s: Vm, p: int)
    requires Inv(rs, cr3, s) && IsLow(p) && IsPage(p) && Walk(s.ram, cr3, p).None?
    ensures Unmap(rs, cr3, s, p) == (s, if HasTable(s.ram, cr3, Dir(p)) then Failed else Faulted)
  {
    LowDir(p);
  }

  /**
   Unmapping a page whose frame the allocator does not have in use, such as a device page above all
   regions: the entry is cleared first, then free_frame panics.  Frames in a gap below a region are
   not covered: for them free_frame computes a negative index and tests a bit of another bitmap.
   */
  lemma UnmapForeign(rs: seq<Region>, cr3: FrameNo, s: Vm, p: int)
    requires Inv(rs, cr3, s) && IsLow(p) && IsPage(p) && Walk(s.ram, cr3, p).Some?
    requires Walk(s.ram, cr3, p).value !in InUse(rs, s) && Supported(rs, Walk(s.ram, cr3, p).value)
    ensures var (s', r) := Unmap(rs, cr3, s, p);
            r == Panicked && s'.frames == s.frames && OnlyPage(s.ram, s'.ram, cr3, p, None)
  {
    LowDir(p);
    var t := TableOf(s.ram, cr3, Dir(p));
    assert TableOk(rs, cr3, s, Dir(p));
    TakenIff(rs, s, Walk(s.ram, cr3, p).value);
    EntryWritten(s.ram, cr3, p, s.ram[t][Idx(p)].(present := false));
  }

  // ---------------------------------------------------------------- the books

  /** Tables that exist in `s` and did not in `s0`. */
  ghost function NewTables(m0: Ram, m: Ram, cr3: FrameNo): set<nat> {
    set d | 0 <= d < SELF && HasTable(m, cr3, d) && !HasTable(m0, cr3, d) :: (m[cr3][d].address) as nat
  }

  ghost function FramesOf(owned: map<int, FrameNo>): set<nat> {
    set q | q in owned :: owned[q] as nat
  }

  /** Each owned page has its own frame, one the allocator could still give out in `s0`. */
  ghost predicate OwnedApart(rs: seq<Region>, s0: Vm, owned: map<int, FrameNo>)
    requires Sane(rs, s0)
  {
    && (forall q <- owned :: IsLow(q) && IsFree(rs, s0, owned[q]))
    && (forall q, r :: q in owned && r in owned && q != r ==> owned[q] != owned[r])
  }

  ghost predicate TranslatesAs(m0: Ram, m: Ram, cr3: FrameNo, owned: map<int, FrameNo>, gone: set<int>) {
    forall q :: IsLow(q) ==>
      Walk(m, cr3, q) == if q in owned then Some(owned[q]) else if q in gone then None else Walk(m0, cr3, q)
  }

  /** Every frame in use is accounted for: in use before, behind an owned page, or a new table. */
  ghost predicate Conserved(rs: seq<Region>, cr3: FrameNo, s0: Vm, s: Vm, owned: map<int, FrameNo>)
    requires Sane(rs, s0) && Sane(rs, s)
  {
    var tables := NewTables(s0.ram, s.ram, cr3);
    && InUse(rs, s) == InUse(rs, s0) + FramesOf(owned) + tables
    && tables !! InUse(rs, s0) && tables !! FramesOf(owned)
  }

  /**
   `s` differs from `s0` by the pages in `owned`, each mapped to its own frame taken from the
   allocator, by the tables those pages needed, and by the pages in `gone` that are no longer
   mapped; every other frame and translation is as in `s0`.
   */
  ghost predicate Books(rs: seq<Region>, cr3: FrameNo, s0: Vm, s: Vm, owned: map<int, FrameNo>, gone: set<int>) {
    && Inv(rs, cr3, s0) && Inv(rs, cr3, s)
    && OwnedApart(rs, s0, owned)
    && TranslatesAs(s0.ram, s.ram, cr3, owned, gone)
    && KeepsTables(s0.ram, s.ram, cr3)
    && Conserved(rs, cr3, s0, s, owned)
  }

  lemma BooksOpen(rs: seq<Region>, cr3: FrameNo, s: Vm)
    requires Inv(rs, cr3, s)
    ensures Books(rs, cr3, s, s, map[], {})
  {
    assert NewTables(s.ram, s.ram, cr3) == {};
  }

  lemma TableIsOldOrNew(rs: seq<Region>, cr3: FrameNo, s0: Vm, s: Vm, d: int)
    requires Inv(rs, cr3, s0) && KeepsTables(s0.ram, s.ram, cr3) && HasTable(s.ram, cr3, d)
    ensures TableOf(s.ram, cr3, d) in InUse(rs, s0) + NewTables(s0.ram, s.ram, cr3)
  {
    if HasTable(s0.ram, cr3, d) { assert TableOk(rs, cr3, s0, d); }
  }

  /** Owned frames are plain frames: in use, and neither directory nor tables. */
  lemma OwnedIsPlain(rs: seq<Region>, cr3: FrameNo, s0: Vm, s: Vm, owned: map<int, FrameNo>, gone: set<int>, p: int)
    requires Books(rs, cr3, s0, s, owned, gone) && p in owned
    ensures PlainFrame(rs, cr3, s, owned[p])
  {
    var f: nat := owned[p];
    assert f in FramesOf(owned);
    forall d | HasTable(s.ram, cr3, d) ensures TableOf(s.ram, cr3, d) != f {
      TableIsOldOrNew(rs, cr3, s0, s, d);
    }
  }

  /** The state once get_free_frame has handed out a frame. */
  ghost function Give(rs: seq<Region>, s: Vm): Vm
    requires Sane(rs, s)
  {
    s.(frames := Alloc(rs, s.frames).0)
  }

  /** The caller takes a frame: paging is as before. */
  lemma TakeFrame(rs: seq<Region>, cr3: FrameNo, s: Vm)
    requires Inv(rs, cr3, s) && NextFrame(rs, s).Some?
    ensures var a := s.(frames := Alloc(rs, s.frames).0);
            Inv(rs, cr3, a) && InUse(rs, a) == InUse(rs, s) + {NextFrame(rs, s).value}
                && IsFree(rs, s, NextFrame(rs, s).value)
  {
    NextFrameTakes(rs, s);
    var a := s.(frames := Alloc(rs, s.frames).0);
    forall d | HasTable(a.ram, cr3, d) ensures TableOk(rs, cr3, a, d) {
      assert TableOk(rs, cr3, s, d);
    }
  }

  lemma NewTablesGrow(m0: Ram, m: Ram, m': Ram, cr3: FrameNo, d: nat)
    requires d < SELF && KeepsTables(m0, m, cr3) && KeepsTables(m, m', cr3) && HasTable(m', cr3, d)
    requires forall e :: e != d ==> HasTable(m', cr3, e) == HasTable(m, cr3, e)
    ensures NewTables(m0, m', cr3)
            == NewTables(m0, m, cr3) + (if HasTable(m, cr3, d) then {} else {TableOf(m', cr3, d) as nat})
  {
    var grown := NewTables(m0, m, cr3) + (if HasTable(m, cr3, d) then {} else {TableOf(m', cr3, d) as nat});
    forall t | t in NewTables(m0, m', cr3) ensures t in grown {
      var e :| 0 <= e < SELF && HasTable(m', cr3, e) && !HasTable(m0, cr3, e) && t == m'[cr3][e].address;
      assert HasTable(m, cr3, e) ==> TableOf(m', cr3, e) == TableOf(m, cr3, e);
    }
    forall t | t in grown ensures t in NewTables(m0, m', cr3) {
      if t in NewTables(m0, m, cr3) {
        var e :| 0 <= e < SELF && HasTable(m, cr3, e) && !HasTable(m0, cr3, e) && t == m[cr3][e].address;
        assert TableOf(m', cr3, e) == TableOf(m, cr3, e);
      }
    }
  }

  lemma OneFrameMore(owned: map<int, FrameNo>, p: int, f: FrameNo)
    requires p !in owned
    ensures FramesOf(owned[p := f]) == FramesOf(owned) + {f as nat}
  {
    var owned' := owned[p := f];
    forall v | v in FramesOf(owned) + {f as nat} ensures v in FramesOf(owned') {
      if v in FramesOf(owned) {
        var q :| q in owned && owned[q] as nat == v;
        assert q in owned' && owned'[q] as nat == v;
      } else {
        assert p in owned' && owned'[p] as nat == v;
      }
    }
  }

  lemma OneFrameLess(owned: map<int, FrameNo>, p: int)
    requires p in owned && forall q, r :: q in owned && r in owned && q != r ==> owned[q] != owned[r]
    ensures FramesOf(owned - {p}) == FramesOf(owned) - {owned[p] as nat}
  {
    forall v | v in FramesOf(owned) - {owned[p] as nat} ensures v in FramesOf(owned - {p}) {
      var q :| q in owned && owned[q] as nat == v;
      assert q in owned - {p} && (owned - {p})[q] as nat == v;
    }
  }

  lemma ConservedAfterMap(rs: seq<Region>, cr3: FrameNo, s0: Vm, s: Vm, owned: map<int, FrameNo>, gone: set<int>, a: Vm,
                          s': Vm, p: int, f: FrameNo)
    requires Books(rs, cr3, s0, s, owned, gone) && IsLow(p) && p !in owned
    requires Sane(rs, a) && a.ram == s.ram && InUse(rs, a) == InUse(rs, s) + {f as nat} && IsFree(rs, s, f)
    requires Mapped(rs, cr3, a, s', p, f)
    ensures Conserved(rs, cr3, s0, s', owned[p := f])
  {
    LowDir(p);
    NewTablesGrow(s0.ram, s.ram, s'.ram, cr3, Dir(p));
    OneFrameMore(owned, p, f);
  }

  /** Mapping one more page on a fresh frame adds one line to the books. */
  lemma BooksAfterMap(rs: seq<Region>, cr3: FrameNo, s0: Vm, s: Vm, owned: map<int, FrameNo>, gone: set<int>, a: Vm,
                      s': Vm, p: int, f: FrameNo)
    requires Books(rs, cr3, s0, s, owned, gone) && IsLow(p) && p !in owned
    requires NextFrame(rs, s) == Some(f) && a == s.(frames := Alloc(rs, s.frames).0)
    requires Sane(rs, a) && Mapped(rs, cr3, a, s', p, f)
    ensures Books(rs, cr3, s0, s', owned[p := f], gone)
  {
    TakeFrame(rs, cr3, s);
    ConservedAfterMap(rs, cr3, s0, s, owned, gone, a, s', p, f);
    OneMoreOwned(rs, s0, s, owned, p, f);
    OneMoreTranslated(s0.ram, s.ram, s'.ram, cr3, owned, gone, p, f);
  }

  lemma OneMoreTranslated(m0: Ram, m: Ram, m': Ram, cr3: FrameNo, owned: map<int, FrameNo>, gone: set<int>, p: int,
                          f: FrameNo)
    requires TranslatesAs(m0, m, cr3, owned, gone) && OnlyPage(m, m', cr3, p, Some(f))
    ensures TranslatesAs(m0, m', cr3, owned[p := f], gone)
  {
  }

  lemma OneMoreOwned(rs: seq<Region>, s0: Vm, s: Vm, owned: map<int, FrameNo>, p: int, f: FrameNo)
    requires Sane(rs, s0) && Sane(rs, s) && OwnedApart(rs, s0, owned) && IsLow(p) && p !in owned
    requires InUse(rs, s0) + FramesOf(owned) <= InUse(rs, s) && IsFree(rs, s, f)
    ensures OwnedApart(rs, s0, owned[p := f])
  {
    forall q | q in owned ensures owned[q] != f {
      assert owned[q] as nat in FramesOf(owned);
    }
  }

  lemma NewTablesShrink(m0: Ram, m: Ram, m': Ram, cr3: FrameNo, d: nat)
    requires d < SELF && KeepsTables(m', m, cr3) && HasTable(m, cr3, d)
    requires forall e :: e != d ==> HasTable(m', cr3, e) == HasTable(m, cr3, e)
    requires forall e :: e != d && HasTable(m, cr3, e) ==> TableOf(m, cr3, e) != TableOf(m, cr3, d)
    requires !HasTable(m', cr3, d) ==> !HasTable(m0, cr3, d)
    ensures NewTables(m0, m', cr3)
            == NewTables(m0, m, cr3) - (if HasTable(m', cr3, d) then {} else {TableOf(m, cr3, d) as nat})
    ensures !HasTable(m', cr3, d) ==> TableOf(m, cr3, d) in NewTables(m0, m, cr3)
  {
    var less := NewTables(m0, m, cr3) - (if HasTable(m', cr3, d) then {} else {TableOf(m, cr3, d) as nat});
    forall t | t in NewTables(m0, m', cr3) ensures t in less {
      var e :| 0 <= e < SELF && HasTable(m', cr3, e) && !HasTable(m0, cr3, e) && t == m'[cr3][e].address;
      assert HasTable(m, cr3, e) && TableOf(m', cr3, e) == TableOf(m, cr3, e);
    }
    forall t | t in less ensures t in NewTables(m0, m', cr3) {
      var e :| 0 <= e < SELF && HasTable(m, cr3, e) && !HasTable(m0, cr3, e) && t == m[cr3][e].address;
      assert HasTable(m', cr3, e) ==> TableOf(m', cr3, e) == TableOf(m, cr3, e);
    }
  }

  /** Some page of slot `d` that is mapped in `m0` is neither `p` nor already gone. */
  ghost predicate Anchored(m0: Ram, cr3: FrameNo, d: int, gone: set<int>) {
    exists q :: IsLow(q) && IsPage(q) && Dir(q) == d && q !in gone && Walk(m0, cr3, q).Some?
  }

  /** A table that existed at the start and still serves a page of its own is not released. */
  lemma OldTableStays(rs: seq<Region>, cr3: FrameNo, s0: Vm, s: Vm, owned: map<int, FrameNo>, gone: set<int>, s': Vm,
                      p: int, f: FrameNo)
    requires Books(rs, cr3, s0, s, owned, gone) && p in owned && IsPage(p)
    requires Unmapped(rs, cr3, s, s', p, f) && Anchored(s0.ram, cr3, Dir(p), gone + {p})
    ensures HasTable(s'.ram, cr3, Dir(p))
  {
    var q :| IsLow(q) && IsPage(q) && Dir(q) == Dir(p) && q !in gone + {p} && Walk(s0.ram, cr3, q).Some?;
    assert Walk(s'.ram, cr3, q) == Walk(s.ram, cr3, q);
    LowDir(q);
  }

  /** Every slot with a table has a mapped page. */
  lemma TableHasPage(rs: seq<Region>, cr3: FrameNo, s: Vm, d: int)
    requires Inv(rs, cr3, s) && HasTable(s.ram, cr3, d)
    ensures Anchored(s.ram, cr3, d, {})
  {
    assert TableOk(rs, cr3, s, d);
    var i :| 0 <= i < ENTRIES && s.ram[TableOf(s.ram, cr3, d)][i].present;
    PageOfSlot(d, i);
    assert Walk(s.ram, cr3, d * ENTRIES + i).Some?;
  }

  lemma ConservedAfterUnmap(rs: seq<Region>, cr3: FrameNo, s0: Vm, s: Vm, owned: map<int, FrameNo>, gone: set<int>,
                            s': Vm, p: int)
    requires Books(rs, cr3, s0, s, owned, gone) && p in owned && IsPage(p)
    requires Unmapped(rs, cr3, s, s', p, owned[p])
    requires HasTable(s0.ram, cr3, Dir(p)) ==> HasTable(s'.ram, cr3, Dir(p))
    ensures Conserved(rs, cr3, s0, s', owned - {p})
  {
    LowDir(p);
    NewTablesShrink(s0.ram, s.ram, s'.ram, cr3, Dir(p));
    OneFrameLess(owned, p);
    var f: nat, t: nat := owned[p], TableOf(s.ram, cr3, Dir(p));
    assert f in FramesOf(owned) && f !in InUse(rs, s0);
    var released: set<nat> := if HasTable(s'.ram, cr3, Dir(p)) then {} else {t};
    Balance(InUse(rs, s0), FramesOf(owned), NewTables(s0.ram, s.ram, cr3), {f}, released);
  }

  /** Taking `x` and `y` out of their parts takes them out of the whole. */
  lemma Balance(a: set<nat>, b: set<nat>, c: set<nat>, x: set<nat>, y: set<nat>)
    requires a !! c && b !! c && x <= b && x !! a && y <= c
    ensures a + b + c - x - y == a + (b - x) + (c - y)
  {
  }

  lemma OldTablesKept(m0: Ram, m: Ram, m': Ram, cr3: FrameNo, d: nat)
    requires KeepsTables(m0, m, cr3) && KeepsTables(m', m, cr3)
    requires forall e :: e != d ==> HasTable(m', cr3, e) == HasTable(m, cr3, e)
    requires HasTable(m0, cr3, d) ==> HasTable(m', cr3, d)
    ensures KeepsTables(m0, m', cr3)
  {
    forall e | HasTable(m0, cr3, e)
      ensures HasTable(m', cr3, e) && TableOf(m', cr3, e) == TableOf(m0, cr3, e)
    {
      assert HasTable(m, cr3, e) && TableOf(m, cr3, e) == TableOf(m0, cr3, e);
      assert HasTable(m', cr3, e);
    }
  }

  /** Unmapping an owned page strikes its line out of the books. */
  lemma BooksAfterUnmap(rs: seq<Region>, cr3: FrameNo, s0: Vm, s: Vm, owned: map<int, FrameNo>, gone: set<int>, s': Vm,
                        p: int)
    requires Books(rs, cr3, s0, s, owned, gone) && p in owned && IsPage(p)
    requires HasTable(s0.ram, cr3, Dir(p)) ==> Anchored(s0.ram, cr3, Dir(p), gone + {p})
    requires Unmapped(rs, cr3, s, s', p, owned[p])
    ensures Books(rs, cr3, s0, s', owned - {p}, gone + {p})
  {
    LowDir(p);
    if HasTable(s0.ram, cr3, Dir(p)) {
      OldTableStays(rs, cr3, s0, s, owned, gone, s', p, owned[p]);
    }
    OldTablesKept(s0.ram, s.ram, s'.ram, cr3, Dir(p));
    ConservedAfterUnmap(rs, cr3, s0, s, owned, gone, s', p);
  }

  /** Pages that were not mapped at the start need not be listed as gone. */
  lemma BooksForget(rs: seq<Region>, cr3: FrameNo, s0: Vm, s: Vm, owned: map<int, FrameNo>, gone: set<int>)
    requires Books(rs, cr3, s0, s, owned, gone)
    requires forall q <- gone :: IsPage(q) && Walk(s0.ram, cr3, q).None?
    ensures Books(rs, cr3, s0, s, owned, {})
  {
  }

  /** With nothing owned, tables and frames in use are what they were at the start. */
  lemma BooksClosed(rs: seq<Region>, cr3: FrameNo, s0: Vm, s: Vm, gone: set<int>)
    requires Books(rs, cr3, s0, s, map[], gone)
    ensures forall d :: HasTable(s.ram, cr3, d) <==> HasTable(s0.ram, cr3, d)
    ensures forall d :: HasTable(s.ram, cr3, d) ==> TableOf(s.ram, cr3, d) == TableOf(s0.ram, cr3, d)
    ensures InUse(rs, s) == InUse(rs, s0)
  {
    forall d | HasTable(s.ram, cr3, d) ensures HasTable(s0.ram, cr3, d) {
      TableHasPage(rs, cr3, s, d);
      var q :| IsLow(q) && IsPage(q) && Dir(q) == d && Walk(s.ram, cr3, q).Some?;
      LowDir(q);
      assert Walk(s.ram, cr3, q) == if q in gone then None else Walk(s0.ram, cr3, q);
    }
    assert NewTables(s0.ram, s.ram, cr3) == {};
    assert FramesOf(map[]) == {};
  }
}
