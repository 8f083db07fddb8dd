/**
 Whole runs of mapping and unmapping: clients take a frame, map it at an unmapped page, write
 to it, and later unmap it.
 */
module PagingRuns {
  import opened Wrappers
  import opened FrameSpec
  import opened Paging
  import opened PagingLaws

  datatype Op =
    | MapFresh(p: int, g: Flags)          // get_free_frame, then map_page; on failure the frame goes back
    | UnmapOwned(p: int)                  // unmap_page on a page mapped before
    | Store(p: int, i: nat, e: Entry)     // the client writes to its frame

  datatype World = World(vm: Vm, owned: map<int, FrameNo>)

  /** Operations as clients may call them. */
  ghost predicate Allowed(rs: seq<Region>, cr3: FrameNo, w: World, op: Op) {
    Inv(rs, cr3, w.vm) &&
    match op
    case MapFresh(p, g) =>
      && IsLow(p) && p !in w.owned && IsPage(p) && Walk(w.vm.ram, cr3, p).None? && g.present
      && Sane(rs, Give(rs, w.vm)) && TableReady(rs, cr3, Give(rs, w.vm), p)
    case UnmapOwned(p) => p in w.owned && IsPage(p)
    case Store(p, i, e) => p in w.owned && i < ENTRIES
  }

  ghost function Apply(rs: seq<Region>, cr3: FrameNo, w: World, op: Op): World
    requires Allowed(rs, cr3, w, op)
  {
    match op
    case MapFresh(p, g) =>
      if NextFrame(rs, w.vm).None? then w
      else
        var f, a := NextFrame(rs, w.vm).value, Give(rs, w.vm);
        var (s', r) := Map(rs, cr3, a, f, p, g, false);
        if r == Done then World(s', w.owned[p := f])
        else if FreeOf(rs, s'.frames, f).None? then World(s', w.owned)
        else World(s'.(frames := FreeOf(rs, s'.frames, f).value), w.owned)
    case UnmapOwned(p) => World(Unmap(rs, cr3, w.vm, p).0, w.owned - {p})
    case Store(p, i, e) => w.(vm := w.vm.(ram := Put(w.vm.ram, w.owned[p], i, e)))
  }

  /** The books are right and owned pages were unmapped when the run began. */
  ghost predicate InBooks(rs: seq<Region>, cr3: FrameNo, s0: Vm, w: World) {
    && Books(rs, cr3, s0, w.vm, w.owned, {})
    && forall q <- w.owned :: IsPage(q) && Walk(s0.ram, cr3, q).None?
  }

  lemma MapFreshKeepsBooks(rs: seq<Region>, cr3: FrameNo, s0: Vm, w: World, p: int, g: Flags)
    requires InBooks(rs, cr3, s0, w) && Allowed(rs, cr3, w, MapFresh(p, g))
    ensures InBooks(rs, cr3, s0, Apply(rs, cr3, w, MapFresh(p, g)))
  {
    if NextFrame(rs, w.vm).Some? {
      var f, a := NextFrame(rs, w.vm).value, Give(rs, w.vm);
      TakeFrame(rs, cr3, w.vm);
      MapRefines(rs, cr3, a, f, p, g, false);
      var (s', r) := Map(rs, cr3, a, f, p, g, false);
      if r == Done {
        BooksAfterMap(rs, cr3, s0, w.vm, w.owned, {}, a, s', p, f);
      } else {
        GiveBack(rs, cr3, s0, w.vm, w.owned, f);
      }
    }
  }

  /** Taking a frame and giving it back leaves the books right. */
  lemma GiveBack(rs: seq<Region>, cr3: FrameNo, s0: Vm, s: Vm, owned: map<int, FrameNo>, f: FrameNo)
    requires Books(rs, cr3, s0, s, owned, {}) && NextFrame(rs, s) == Some(f)
    ensures var a := Give(rs, s);
            Sane(rs, a) && FreeOf(rs, a.frames, f).Some?
            && Books(rs, cr3, s0, a.(frames := FreeOf(rs, a.frames, f).value), owned, {})
  {
    TakeFrame(rs, cr3, s);
    var a := Give(rs, s);
    ReleaseFrees(rs, a, f);
    var b := a.(frames := FreeOf(rs, a.frames, f).value);
    assert InUse(rs, b) == InUse(rs, s);
    forall d | HasTable(b.ram, cr3, d) ensures TableOk(rs, cr3, b, d) {
      assert TableOk(rs, cr3, s, d);
    }
  }

  lemma UnmapOwnedKeepsBooks(rs: seq<Region>, cr3: FrameNo, s0: Vm, w: World, p: int)
    requires InBooks(rs, cr3, s0, w) && Allowed(rs, cr3, w, UnmapOwned(p))
    ensures InBooks(rs, cr3, s0, Apply(rs, cr3, w, UnmapOwned(p)))
    ensures Unmap(rs, cr3, w.vm, p).1 == Done
  {
    OwnedIsPlain(rs, cr3, s0, w.vm, w.owned, {}, p);
    UnmapRefines(rs, cr3, w.vm, p);
    if HasTable(s0.ram, cr3, Dir(p)) {
      TableHasPage(rs, cr3, s0, Dir(p));
    }
    BooksAfterUnmap(rs, cr3, s0, w.vm, w.owned, {}, Unmap(rs, cr3, w.vm, p).0, p);
    BooksForget(rs, cr3, s0, Unmap(rs, cr3, w.vm, p).0, w.owned - {p}, {p});
  }

  /** Client data never shows through as a translation. */
  lemma StoreKeepsBooks(rs: seq<Region>, cr3: FrameNo, s0: Vm, w: World, p: int, i: nat, e: Entry)
    requires InBooks(rs, cr3, s0, w) && Allowed(rs, cr3, w, Store(p, i, e))
    ensures InBooks(rs, cr3, s0, Apply(rs, cr3, w, Store(p, i, e)))
  {
    var f := w.owned[p];
    OwnedIsPlain(rs, cr3, s0, w.vm, w.owned, {}, p);
    var s' := Apply(rs, cr3, w, Store(p, i, e)).vm;
    SameTables(w.vm.ram, s'.ram, cr3);
    forall d | HasTable(s'.ram, cr3, d) ensures TableOk(rs, cr3, s', d) {
      assert HasTable(w.vm.ram, cr3, d) && TableOk(rs, cr3, w.vm, d);
    }
    forall q | IsLow(q) ensures Walk(s'.ram, cr3, q) == Walk(w.vm.ram, cr3, q) {
      LowDir(q);
      WalkAfterPut(w.vm.ram, cr3, f, i, e, q);
      assert w.vm.ram[cr3][Dir(q)].present ==> HasTable(w.vm.ram, cr3, Dir(q));
    }
    assert NewTables(s0.ram, s'.ram, cr3) == NewTables(s0.ram, w.vm.ram, cr3);
  }

  ghost predicate Legal(rs: seq<Region>, cr3: FrameNo, w: World, ops: seq<Op>)
    decreases |ops|
  {
    ops == [] || (Allowed(rs, cr3, w, ops[0]) && Legal(rs, cr3, Apply(rs, cr3, w, ops[0]), ops[1..]))
  }

  ghost function Run(rs: seq<Region>, cr3: FrameNo, w: World, ops: seq<Op>): World
    requires Legal(rs, cr3, w, ops)
    decreases |ops|
  {
    if ops == [] then w else Run(rs, cr3, Apply(rs, cr3, w, ops[0]), ops[1..])
  }

  lemma ApplyKeepsBooks(rs: seq<Region>, cr3: FrameNo, s0: Vm, w: World, op: Op)
    requires InBooks(rs, cr3, s0, w) && Allowed(rs, cr3, w, op)
    ensures InBooks(rs, cr3, s0, Apply(rs, cr3, w, op))
  {
    match op
    case MapFresh(p, g) => MapFreshKeepsBooks(rs, cr3, s0, w, p, g);
    case UnmapOwned(p) => UnmapOwnedKeepsBooks(rs, cr3, s0, w, p);
    case Store(p, i, e) => StoreKeepsBooks(rs, cr3, s0, w, p, i, e);
  }

  /**
   After any run: each owned page translates to its own frame and nothing else changed; a slot
   has a table exactly as long as it has a mapped page, tables are distinct frames, and every frame
   in use is accounted for.
   */
  lemma {:induction false} RunKeepsBooks(rs: seq<Region>, cr3: FrameNo, s0: Vm, w: World, ops: seq<Op>)
    requires InBooks(rs, cr3, s0, w) && Legal(rs, cr3, w, ops)
    ensures InBooks(rs, cr3, s0, Run(rs, cr3, w, ops))
    decreases |ops|
  {
    if ops != [] {
      ApplyKeepsBooks(rs, cr3, s0, w, ops[0]);
      RunKeepsBooks(rs, cr3, s0, Apply(rs, cr3, w, ops[0]), ops[1..]);
    }
  }

  /** A slot has a table exactly when one of its pages is mapped. */
  lemma TableIffMapped(rs: seq<Region>, cr3: FrameNo, s: Vm, d: nat)
    requires Inv(rs, cr3, s) && d < SELF
    ensures HasTable(s.ram, cr3, d) <==> exists q :: IsLow(q) && IsPage(q) && Dir(q) == d && Walk(s.ram, cr3, q).Some?
  {
    if HasTable(s.ram, cr3, d) {
      TableHasPage(rs, cr3, s, d);
    }
  }

  /** A run that unmaps everything it mapped gives back every frame, tables included, and every translation. */
  lemma RunUndone(rs: seq<Region>, cr3: FrameNo, s0: Vm, ops: seq<Op>)
    requires Inv(rs, cr3, s0) && Legal(rs, cr3, World(s0, map[]), ops)
    requires Run(rs, cr3, World(s0, map[]), ops).owned == map[]
    ensures var s := Run(rs, cr3, World(s0, map[]), ops).vm;
            && Inv(rs, cr3, s) && InUse(rs, s) == InUse(rs, s0)
            && (forall q :: IsLow(q) ==> Walk(s.ram, cr3, q) == Walk(s0.ram, cr3, q))
            && (forall d :: HasTable(s.ram, cr3, d) <==> HasTable(s0.ram, cr3, d))
  {
    BooksOpen(rs, cr3, s0);
    RunKeepsBooks(rs, cr3, s0, World(s0, map[]), ops);
    BooksClosed(rs, cr3, s0, Run(rs, cr3, World(s0, map[]), ops).vm, {});
  }
}
