/**
 Whole runs through the TLB: mapping, unmapping and client stores as the kernel runs them, with
 the processor caching and dropping translations at any time in between.
 */
module TlbRuns {
  import opened Wrappers
  import opened FrameSpec
  import opened Paging
  import opened PagingLaws
  import opened PagingRuns
  import opened VirtualMemory

  datatype Event =
    | Do(op: Op)
    | Cache(q: int)     // the processor walks to page `q` and caches what it finds
    | Drop(q: int)      // the processor forgets a translation

  /** What a run through the TLB works on. */
  datatype Machine = Machine(world: World, tlb: Tlb)

  /** When a slot needs a new table its window page must not be cached; it can be, after a table there was released. */
  ghost predicate SlotClean(m: Ram, cr3: FrameNo, tlb: Tlb, p: int) {
    IsPage(p) && (HasTable(m, cr3, Dir(p)) || WindowPage(p) !in tlb)
  }

  ghost predicate Possible(rs: seq<Region>, cr3: FrameNo, x: Machine, ev: Event) {
    match ev
    case Do(op) => Allowed(rs, cr3, x.world, op) && (op.MapFresh? ==> SlotClean(x.world.vm.ram, cr3, x.tlb, op.p))
    case Cache(q) => IsPage(q)
    case Drop(q) => true
  }

  ghost function Happen(rs: seq<Region>, cr3: FrameNo, x: Machine, ev: Event): Machine
    requires Possible(rs, cr3, x, ev)
  {
    match ev
    case Do(op) => ApplyThrough(rs, cr3, x, op)
    case Cache(q) =>
      (match Reach(x.world.vm.ram, cr3, x.tlb, q)
       case None => x
       case Some(t) => x.(tlb := x.tlb[q := t]))
    case Drop(q) => x.(tlb := x.tlb - {q})
  }

  /** One operation with every access to a table or a client page going through the TLB. */
  ghost function ApplyThrough(rs: seq<Region>, cr3: FrameNo, x: Machine, op: Op): Machine
    requires Allowed(rs, cr3, x.world, op)
  {
    var w := x.world;
    match op
    case MapFresh(p, g) =>
      if NextFrame(rs, w.vm).None? then x
      else
        var f, a := NextFrame(rs, w.vm).value, Give(rs, w.vm);
        var (s', r) := MapThrough(rs, cr3, a, x.tlb, f, p, g, false);
        var tlb' := MapTlb(rs, cr3, a, x.tlb, p, g, r);
        if r == Done then Machine(World(s', w.owned[p := f]), tlb')
        else if !Sane(rs, s') || FreeOf(rs, s'.frames, f).None? then Machine(World(s', w.owned), tlb')
        else Machine(World(s'.(frames := FreeOf(rs, s'.frames, f).value), w.owned), tlb')
    case UnmapOwned(p) =>
      var (s', r) := UnmapThrough(rs, cr3, w.vm, x.tlb, p);
      Machine(World(s', w.owned - {p}), UnmapTlb(cr3, w.vm.ram, x.tlb, p, r))
    case Store(p, i, e) =>
      (match if IsPage(p) then Reach(w.vm.ram, cr3, x.tlb, p) else None
       case None => x
       case Some(t) => Machine(w.(vm := w.vm.(ram := Put(w.vm.ram, t, i, e))), x.tlb[p := t]))
  }

  /** The books are right and only windows of released tables may be stale. */
  ghost predicate InStep(rs: seq<Region>, cr3: FrameNo, s0: Vm, x: Machine) {
    InBooks(rs, cr3, s0, x.world) && StaleOnlyReleased(x.world.vm.ram, cr3, x.tlb)
  }

  lemma CleanIsFresh(m: Ram, cr3: FrameNo, tlb: Tlb, p: int)
    requires IsPage(p) && SlotClean(m, cr3, tlb, p) && StaleOnlyReleased(m, cr3, tlb)
    ensures WindowFresh(m, cr3, tlb, p)
  {
    WindowIsHigh(p);
    if WindowPage(p) in tlb {
      assert WindowPage(p) !in Stale(m, cr3, tlb);
    }
  }

  /** A new table in the slot of `p`, whose window page is not stale, leaves only windows of table-less slots stale. */
  lemma ReleasedStays(m: Ram, m': Ram, cr3: FrameNo, tlb: Tlb, tlb': Tlb, p: int)
    requires IsLow(p) && IsPage(p) && SelfMapped(m, cr3) && StaleOnlyReleased(m, cr3, tlb)
             && WindowFresh(m, cr3, tlb, p)
    requires Stale(m', cr3, tlb') <= Stale(m, cr3, tlb)
    requires forall e :: e != Dir(p) ==> HasTable(m', cr3, e) == HasTable(m, cr3, e)
    ensures StaleOnlyReleased(m', cr3, tlb')
  {
    forall q <- Stale(m', cr3, tlb') ensures IsPage(q) && !IsLow(q) && !m'[cr3][Idx(q)].present {
      assert q in Stale(m, cr3, tlb);
      WindowOf(q);
      DirIdx(q);
      if Idx(q) != Dir(p) {
        assert HasTable(m', cr3, Idx(q)) == HasTable(m, cr3, Idx(q));
      }
    }
  }

  lemma MapFreshInStep(rs: seq<Region>, cr3: FrameNo, s0: Vm, x: Machine, p: int, g: Flags)
    requires InStep(rs, cr3, s0, x) && Possible(rs, cr3, x, Do(MapFresh(p, g)))
    ensures ApplyThrough(rs, cr3, x, MapFresh(p, g)).world == Apply(rs, cr3, x.world, MapFresh(p, g))
    ensures InStep(rs, cr3, s0, ApplyThrough(rs, cr3, x, MapFresh(p, g)))
  {
    var s := x.world.vm;
    MapFreshKeepsBooks(rs, cr3, s0, x.world, p, g);
    if NextFrame(rs, s).Some? {
      var f, a := NextFrame(rs, s).value, Give(rs, s);
      TakeFrame(rs, cr3, s);
      CleanIsFresh(s.ram, cr3, x.tlb, p);
      MapThroughIsMap(rs, cr3, a, x.tlb, f, p, g, false);
      MapRefines(rs, cr3, a, f, p, g, false);
      MapKeepsTlb(rs, cr3, a, x.tlb, f, p, g, false);
      var (s', r) := Map(rs, cr3, a, f, p, g, false);
      LowDir(p);
      ReleasedStays(s.ram, s'.ram, cr3, x.tlb, MapTlb(rs, cr3, a, x.tlb, p, g, r), p);
    }
  }

  lemma UnmapOwnedInStep(rs: seq<Region>, cr3: FrameNo, s0: Vm, x: Machine, p: int)
    requires InStep(rs, cr3, s0, x) && Possible(rs, cr3, x, Do(UnmapOwned(p)))
    ensures ApplyThrough(rs, cr3, x, UnmapOwned(p)).world == Apply(rs, cr3, x.world, UnmapOwned(p))
    ensures InStep(rs, cr3, s0, ApplyThrough(rs, cr3, x, UnmapOwned(p)))
  {
    var s := x.world.vm;
    UnmapOwnedKeepsBooks(rs, cr3, s0, x.world, p);
    OwnedIsPlain(rs, cr3, s0, s, x.world.owned, {}, p);
    FreshWhenMapped(rs, cr3, s, x.tlb, p);
    UnmapThroughIsUnmap(rs, cr3, s, x.tlb, p);
    var (s', r) := UnmapThrough(rs, cr3, s, x.tlb, p);
    UnmapPlainPage(rs, cr3, s, x.tlb, p, s', r, UnmapTlb(cr3, s.ram, x.tlb, p, r));
  }

  /** A client page is never stale, so its stores reach its frame; and they change no walk. */
  lemma StoreInStep(rs: seq<Region>, cr3: FrameNo, s0: Vm, x: Machine, p: int, i: nat, e: Entry)
    requires InStep(rs, cr3, s0, x) && Possible(rs, cr3, x, Do(Store(p, i, e)))
    ensures ApplyThrough(rs, cr3, x, Store(p, i, e)).world == Apply(rs, cr3, x.world, Store(p, i, e))
    ensures InStep(rs, cr3, s0, ApplyThrough(rs, cr3, x, Store(p, i, e)))
  {
    var m, f := x.world.vm.ram, x.world.owned[p];
    StoreKeepsBooks(rs, cr3, s0, x.world, p, i, e);
    OwnedIsPlain(rs, cr3, s0, x.world.vm, x.world.owned, {}, p);
    assert IsLow(p) && Walk(m, cr3, p) == Some(f);
    if p in x.tlb {
      assert p !in Stale(m, cr3, x.tlb);
    }
    assert Reach(m, cr3, x.tlb, p) == Some(f);
    StoreKeepsTlb(m, cr3, x.tlb, p, f, i, e);
  }

  lemma StoreKeepsTlb(m: Ram, cr3: FrameNo, tlb: Tlb, p: int, f: FrameNo, i: nat, e: Entry)
    requires IsPage(p) && Walk(m, cr3, p) == Some(f) && SelfMapped(m, cr3) && StaleOnlyReleased(m, cr3, tlb)
             && i < ENTRIES
    requires f != cr3 && forall d :: HasTable(m, cr3, d) ==> TableOf(m, cr3, d) != f
    ensures StaleOnlyReleased(Put(m, f, i, e), cr3, tlb[p := f])
  {
    var m' := Put(m, f, i, e);
    assert m'[cr3] == m[cr3];
    forall q | IsPage(q) ensures Walk(m', cr3, q) == Walk(m, cr3, q) {
      WalkAfterPut(m, cr3, f, i, e, q);
      DirIdx(q);
      if m[cr3][Dir(q)].present && Dir(q) != SELF {
        assert HasTable(m, cr3, Dir(q)) && TableOf(m, cr3, Dir(q)) != f;
      }
    }
    forall q <- Stale(m', cr3, tlb[p := f]) ensures IsPage(q) && !IsLow(q) && !m'[cr3][Idx(q)].present {
      assert q in Stale(m, cr3, tlb);
    }
  }

  /** Whatever the processor caches or drops on its own, nothing becomes stale. */
  lemma CacheInStep(rs: seq<Region>, cr3: FrameNo, s0: Vm, x: Machine, q: int)
    requires InStep(rs, cr3, s0, x) && IsPage(q)
    ensures InStep(rs, cr3, s0, Happen(rs, cr3, x, Cache(q)))
    ensures InStep(rs, cr3, s0, Happen(rs, cr3, x, Drop(q)))
  {
    var m := x.world.vm.ram;
    assert Stale(m, cr3, Happen(rs, cr3, x, Cache(q)).tlb) <= Stale(m, cr3, x.tlb);
    assert Stale(m, cr3, x.tlb - {q}) <= Stale(m, cr3, x.tlb);
  }

  /** One event: operations do to the world what they do at the level of the page walk. */
  lemma HappenInStep(rs: seq<Region>, cr3: FrameNo, s0: Vm, x: Machine, ev: Event)
    requires InStep(rs, cr3, s0, x) && Possible(rs, cr3, x, ev)
    ensures InStep(rs, cr3, s0, Happen(rs, cr3, x, ev))
    ensures Happen(rs, cr3, x, ev).world == if ev.Do? then Apply(rs, cr3, x.world, ev.op) else x.world
  {
    match ev
    case Cache(q) => CacheInStep(rs, cr3, s0, x, q);
    case Drop(q) => assert Stale(x.world.vm.ram, cr3, x.tlb - {q}) <= Stale(x.world.vm.ram, cr3, x.tlb);
    case Do(MapFresh(p, g)) => MapFreshInStep(rs, cr3, s0, x, p, g);
    case Do(UnmapOwned(p)) => UnmapOwnedInStep(rs, cr3, s0, x, p);
    case Do(Store(p, i, e)) => StoreInStep(rs, cr3, s0, x, p, i, e);
  }

  ghost predicate PossibleRun(rs: seq<Region>, cr3: FrameNo, x: Machine, evs: seq<Event>)
    decreases |evs|
  {
    evs == [] || (Possible(rs, cr3, x, evs[0]) && PossibleRun(rs, cr3, Happen(rs, cr3, x, evs[0]), evs[1..]))
  }

  ghost function RunThrough(rs: seq<Region>, cr3: FrameNo, x: Machine, evs: seq<Event>): Machine
    requires PossibleRun(rs, cr3, x, evs)
    decreases |evs|
  {
    if evs == [] then x else RunThrough(rs, cr3, Happen(rs, cr3, x, evs[0]), evs[1..])
  }

  /** The operations of a run. */
  function Ops(evs: seq<Event>): seq<Op> {
    if evs == [] then [] else (if evs[0].Do? then [evs[0].op] else []) + Ops(evs[1..])
  }

  /**
   A run through the TLB, whatever is cached and dropped on the way, leaves the memory, the allocator
   and the pages that the same operations leave at the level of the page walk; at its end
   only window pages of slots without a table can be cached stale.
   */
  lemma {:induction false} RunThroughRefines(rs: seq<Region>, cr3: FrameNo, s0: Vm, x: Machine, evs: seq<Event>)
    requires InStep(rs, cr3, s0, x) && PossibleRun(rs, cr3, x, evs)
    ensures Legal(rs, cr3, x.world, Ops(evs))
    ensures RunThrough(rs, cr3, x, evs).world == Run(rs, cr3, x.world, Ops(evs))
    ensures InStep(rs, cr3, s0, RunThrough(rs, cr3, x, evs))
    decreases |evs|
  {
    if evs != [] {
      var y := Happen(rs, cr3, x, evs[0]);
      HappenInStep(rs, cr3, s0, x, evs[0]);
      RunThroughRefines(rs, cr3, s0, y, evs[1..]);
      if evs[0].Do? {
        assert Ops(evs)[1..] == Ops(evs[1..]);
      } else {
        assert Ops(evs) == Ops(evs[1..]);
      }
    }
  }
}
