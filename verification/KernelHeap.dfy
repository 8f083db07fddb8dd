/**
 The allocator itself: header words updated in place while walking a cyclic list.

 `mem` holds the header at each address that has ever carried one.  Every method is
 proved against the function of the same name in `HeapSpec`, so the run-level laws
 proved there hold of the code.
 */
module KernelHeap {
  import opened Wrappers
  import opened Tiling
  import opened FreeRing
  import opened HeapSpec
  import opened HeapBytes

  const ADDRESS_SPACE := 0x1_0000_0000

  /** A 32-bit sum: what does not fit wraps round. */
  function Wrap32(x: int): int {
    if 0 <= x < ADDRESS_SPACE then x else x % ADDRESS_SPACE
  }

  /** Storing to `p->s.size` leaves the other word of the header as it is. */
  function SetSize(mem: Headers, p: int, n: nat): Headers {
    mem[p := Header(if p in mem then mem[p].ptr else 0, n)]
  }

  /** The headers in memory carry the sizes of the blocks. */
  ghost predicate Sized(t: seq<Block>, mem: Headers) {
    forall b <- t :: b.addr in mem && mem[b.addr].size == b.units
  }

  /** Going up from `a`, address `x` is met before `p`. */
  ghost predicate InArc(a: int, x: int, p: int) {
    if a < p then a < x < p else x > a || x < p
  }

  /** Every node met between the rover and `p` is too small. */
  ghost predicate Scanned(nodes: seq<int>, mem: Headers, a: int, p: int, n: nat) {
    forall x <- nodes :: x in mem && InArc(a, x, p) ==> mem[x].size < n
  }

  /** Memory holds what the abstract state says: the ring through the free blocks, and every size. */
  ghost predicate InMemory(cfg: Config, s: Arena, mem: Headers) {
    && WellFormed(cfg, s)
    && cfg.base in mem
    && (s.rover != 0 ==> Ring(Nodes(cfg, s.tiles), mem) && mem[cfg.base].size == 0)
    && Sized(s.tiles, mem)
  }

  class Heap {
    const cfg: Config
    var mem: Headers
    var brk: int
    var freep: int
    ghost var tiles: seq<Block>

    ghost function View(): Arena
      reads this
    {
      Arena(tiles, brk, freep)
    }

    ghost predicate Valid()
      reads this
    {
      InMemory(cfg, View(), mem)
    }

    constructor (cfg: Config)
      requires cfg.Ok()
      ensures Valid() && View() == Start(cfg) && this.cfg == cfg
    {
      this.cfg := cfg;
      mem := map[cfg.base := Header(0, 0)];
      brk := cfg.lo;
      freep := 0;
      tiles := [];
    }

    /** Moves the heap break; 0 stands for the NULL of the kernel heap and the -1 of the early heap. */
    method Sbrk(amount: nat) returns (prev: int)
      modifies this`brk
      ensures Wrap32(old(brk) + amount) > cfg.end ==> prev == 0 && brk == old(brk)
      ensures Wrap32(old(brk) + amount) <= cfg.end ==> prev == old(brk) && brk == Wrap32(old(brk) + amount)
    {
      if Wrap32(brk + amount) > cfg.end {
        return 0;
      }
      prev := brk;
      brk := Wrap32(brk + amount);
    }

    /** The insertion search: walks the ring from `freep` to the one gap where `bp` belongs. */
    method FindGap(bp: int) returns (p: int)
      requires Valid() && freep != 0 && bp !in Nodes(cfg, tiles)
      ensures p == PrevNode(cfg, tiles, bp)
    {
      ghost var nodes := Nodes(cfg, tiles);
      p := freep;
      ghost var i: nat :| i < |nodes| && nodes[i] == p;
      RingStep(nodes, mem, bp, i);
      while !(bp > p && bp < mem[p].ptr)
        invariant i < |nodes| && nodes[i] == p && p in mem && mem[p].ptr == Succ(nodes, i)
        invariant Brackets(p, mem[p].ptr, bp) <==> i == Gap(nodes, bp)
        decreases Distance(i, Gap(nodes, bp), |nodes|)
      {
        if p >= mem[p].ptr && (bp > p || bp < mem[p].ptr) {
          break;
        }
        p := mem[p].ptr;
        i := NextIndex(nodes, i);
        RingStep(nodes, mem, bp, i);
      }
    }

    method Free(ap: int)
      requires Valid() && freep != 0 && IsLive(View(), ap)
      modifies this`mem, this`freep, this`tiles
      ensures Valid() && freep != 0
      ensures View() == HeapSpec.Free(cfg, old(View()), ap)
    {
      var bp := ap - HEADER_SIZE;
      ghost var s, was, j := View(), mem, IndexOf(tiles, bp);
      SpliceReleases(cfg, s, was, j);
      var p := FindGap(bp);
      Link(p, bp);
      tiles := Release(s.tiles, j);
    }

    /** Links block `bp` in after node `p`, joining it with either neighbour it touches. */
    method Link(p: int, bp: int)
      requires p in mem && bp in mem && mem[p].ptr in mem && p != bp
      modifies this`mem, this`freep
      ensures mem == Splice(old(mem), p, bp) && freep == p
    {
      var q := mem[p].ptr;
      if bp + HEADER_SIZE * mem[bp].size == q {
        mem := mem[bp := Header(mem[q].ptr, mem[bp].size + mem[q].size)];
      } else {
        mem := mem[bp := mem[bp].(ptr := q)];
      }
      if p + HEADER_SIZE * mem[p].size == bp {
        mem := mem[p := Header(mem[bp].ptr, mem[p].size + mem[bp].size)];
      } else {
        mem := mem[p := mem[p].(ptr := bp)];
      }
      freep := p;
    }

    /** Takes `n` units from below the pool's end and gives them a header. */
    method Extend(n: nat) returns (hp: int)
      requires Valid() && freep != 0 && n >= 1
      requires brk + HEADER_SIZE * n < ADDRESS_SPACE
      modifies this`mem, this`brk, this`tiles
      ensures Valid()
      ensures old(brk) + HEADER_SIZE * n > cfg.end ==> hp == 0 && View() == old(View()) && mem == old(mem)
      ensures old(brk) + HEADER_SIZE * n <= cfg.end ==> hp == old(brk) != 0 && View() == Grown(old(View()), n)
    {
      ghost var s, was := View(), mem;
      BreakNotNull(cfg, s);
      hp := Sbrk(HEADER_SIZE * n);
      if hp == 0 {
        return;
      }
      GrowInMemory(cfg, s, was, n);
      mem := SetSize(mem, hp, n);
      tiles := Grown(s, n).tiles;
      assert View() == Grown(s, n);
    }

    method Morecore(nUnits: nat) returns (p: int)
      requires Valid() && freep != 0
      requires brk + HEADER_SIZE * Max(nUnits, cfg.minGrow) < ADDRESS_SPACE
      modifies this
      ensures Valid() && freep != 0
      ensures var g := Max(nUnits, cfg.minGrow);
              if old(brk) + HEADER_SIZE * g > cfg.end then p == 0 && View() == old(View()) && mem == old(mem)
              else p == freep && View() == Grow(cfg, old(View()), g)
    {
      var n := nUnits;
      if n < cfg.minGrow {
        n := cfg.minGrow;
      }
      ghost var s := View();
      var hp := Extend(n);
      if hp == 0 {
        return 0;
      }
      var ap := hp + HEADER_SIZE;
      GrowIsFree(cfg, s, n, ap);
      Free(ap);
      p := freep;
    }

    /** Serves the request from the block at `p`: all of it, or its tail. */
    method TakeBlock(prevp: int, p: int, nUnits: nat, ghost i: nat) returns (ap: int)
      requires Scanning(cfg, View(), mem, i, prevp, p, nUnits) && p in mem && mem[p].size >= nUnits
      modifies this`mem, this`freep, this`tiles
      ensures Valid() && freep != 0
      ensures var j := NextFit(old(tiles), old(freep), nUnits);
              j.Some? && (View(), Some(ap)) == Take(cfg, old(View()), j.value, nUnits)
    {
      ghost var s, was := View(), mem;
      ghost var j := TakeInMemory(cfg, s, mem, i, prevp, p, nUnits);
      var q := p;
      if mem[q].size == nUnits {
        mem := mem[prevp := mem[prevp].(ptr := mem[q].ptr)];
      } else {
        mem := mem[q := mem[q].(size := mem[q].size - nUnits)];
        q := q + HEADER_SIZE * mem[q].size;
        mem := SetSize(mem, q, nUnits);
      }
      freep := prevp;
      tiles := Carve(s.tiles, j, nUnits);
      assert mem == Taken(was, prevp, p, nUnits);
      return q + HEADER_SIZE;
    }

    /** Returns the payload address, or 0 for NULL. */
    method Malloc(nBytes: nat) returns (ap: int)
      requires Valid()
      requires brk + HEADER_SIZE * Max(Units(nBytes), cfg.minGrow) < ADDRESS_SPACE
      modifies this
      ensures Valid() && freep != 0
      ensures View() == HeapSpec.Malloc(cfg, old(View()), nBytes).0
      ensures ap == match HeapSpec.Malloc(cfg, old(View()), nBytes).1 case None => 0 case Some(a) => a
      ensures ap != 0 ==> Hands(old(View()), nBytes, View(), ap)
    {
      ghost var was := View();
      StartInMemory(cfg, was, mem);
      var nUnits := (nBytes + HEADER_SIZE - 1) / HEADER_SIZE + 1;
      var prevp := freep;
      if prevp == 0 {
        prevp := cfg.base;
        freep := cfg.base;
        mem := mem[cfg.base := Header(cfg.base, 0)];
      }
      ghost var s, grown := View(), false;
      ghost var i := ScanStart(cfg, s, mem, nUnits);
      var p := mem[prevp].ptr;
      while true
        invariant s == View() && nUnits == Units(nBytes)
        invariant Attempt(cfg, was, nBytes, s, grown)
        invariant Scanning(cfg, s, mem, i, prevp, p, nUnits)
        decreases !grown, ArcLeft(Nodes(cfg, s.tiles), i, s.rover)
      {
        ScanInMemory(cfg, s, mem, i, prevp, p, nUnits);
        if mem[p].size >= nUnits {
          ghost var j := FoundBlock(cfg, s, mem, i, prevp, p, nUnits);
          ap := TakeBlock(prevp, p, nUnits, i);
          HandsOut(cfg, was, nBytes);
          return;
        }
        if p == freep {
          ScanExhausted(cfg, s, mem, i, prevp, p, nUnits);
          GrowsOnce(cfg, was, nBytes, s, grown);
          p := Morecore(nUnits);
          if p == 0 {
            return 0;
          }
          s, grown := View(), true;
          i := ScanStart(cfg, s, mem, nUnits);
        } else {
          i := ScanStep(cfg, s, mem, i, prevp, p, nUnits);
        }
        prevp := p;
        p := mem[p].ptr;
      }
    }
  }

  // ---------------------------------------------------------------- walking the ring

  ghost function NextIndex(nodes: seq<int>, i: nat): (k: nat)
    requires i < |nodes|
    ensures k < |nodes| && nodes[k] == Succ(nodes, i)
  {
    if i + 1 < |nodes| then i + 1 else 0
  }

  /** Steps left until the scan that stands before node `i + 1` is back at the rover. */
  ghost function ArcLeft(nodes: seq<int>, i: nat, rover: int): nat {
    if i < |nodes| && rover in nodes then
      var f :| 0 <= f < |nodes| && nodes[f] == rover;
      Distance(NextIndex(nodes, i), f, |nodes|)
    else 0
  }

  /** One step of the insertion search. */
  lemma RingStep(nodes: seq<int>, mem: Headers, bp: int, i: nat)
    requires Ring(nodes, mem) && i < |nodes| && bp !in nodes
    ensures nodes[i] in mem && mem[nodes[i]].ptr == Succ(nodes, i)
    ensures Brackets(nodes[i], mem[nodes[i]].ptr, bp) <==> i == Gap(nodes, bp)
  {
    assert Linked(nodes, mem, i);
    GapIsUnique(nodes, bp, i);
  }

  /**
   The allocation scan stands between node `i` and its successor `p`; everything from the rover to `p` is too small.
   */
  ghost predicate Scanning(cfg: Config, s: Arena, mem: Headers, i: nat, prevp: int, p: int, n: nat) {
    var nodes := Nodes(cfg, s.tiles);
    && InMemory(cfg, s, mem) && s.rover != 0 && n >= 1
    && i < |nodes| && prevp == nodes[i] && p == Succ(nodes, i) && prevp in mem && mem[prevp].ptr == p
    && Scanned(nodes, mem, s.rover, p, n)
  }

  lemma ScanInMemory(cfg: Config, s: Arena, mem: Headers, i: nat, prevp: int, p: int, n: nat)
    requires Scanning(cfg, s, mem, i, prevp, p, n)
    ensures p in mem && p in Nodes(cfg, s.tiles)
  {
    var k := NextIndex(Nodes(cfg, s.tiles), i);
    assert Linked(Nodes(cfg, s.tiles), mem, k);
    assert Nodes(cfg, s.tiles)[k] == p;
  }

  lemma ScanStart(cfg: Config, s: Arena, mem: Headers, n: nat) returns (i: nat)
    requires InMemory(cfg, s, mem) && s.rover != 0 && n >= 1
    ensures s.rover in mem && Scanning(cfg, s, mem, i, s.rover, mem[s.rover].ptr, n)
  {
    var nodes := Nodes(cfg, s.tiles);
    i :| i < |nodes| && nodes[i] == s.rover;
    assert Linked(nodes, mem, i);
    ArcStart(nodes, i);
  }

  lemma ArcStart(nodes: seq<int>, i: nat)
    requires Ascending(nodes) && i < |nodes|
    ensures forall x <- nodes :: !InArc(nodes[i], x, Succ(nodes, i))
  {
    forall x <- nodes ensures !InArc(nodes[i], x, Succ(nodes, i)) {
      var k :| 0 <= k < |nodes| && nodes[k] == x;
    }
  }

  /** One more node is too small: the scanned arc grows by it, and the scan comes closer to the rover. */
  lemma ScanStep(cfg: Config, s: Arena, mem: Headers, i: nat, prevp: int, p: int, n: nat) returns (k: nat)
    requires Scanning(cfg, s, mem, i, prevp, p, n) && p in mem && mem[p].size < n && p != s.rover
    ensures Scanning(cfg, s, mem, k, p, mem[p].ptr, n)
    ensures ArcLeft(Nodes(cfg, s.tiles), k, s.rover) < ArcLeft(Nodes(cfg, s.tiles), i, s.rover)
  {
    var nodes := Nodes(cfg, s.tiles);
    k := NextIndex(nodes, i);
    assert Linked(nodes, mem, k);
    ArcStep(nodes, s.rover, k);
  }

  lemma ArcStep(nodes: seq<int>, rover: int, k: nat)
    requires Ascending(nodes) && rover in nodes && k < |nodes| && nodes[k] != rover
    ensures forall x <- nodes :: InArc(rover, x, Succ(nodes, k)) ==> x == nodes[k] || InArc(rover, x, nodes[k])
  {
    var f :| 0 <= f < |nodes| && nodes[f] == rover;
    forall x <- nodes | InArc(rover, x, Succ(nodes, k)) ensures x == nodes[k] || InArc(rover, x, nodes[k]) {
      var y :| 0 <= y < |nodes| && nodes[y] == x;
    }
  }

  /** Back at the rover with nothing found: no block fits. */
  lemma ScanExhausted(cfg: Config, s: Arena, mem: Headers, i: nat, prevp: int, p: int, n: nat)
    requires Scanning(cfg, s, mem, i, prevp, p, n) && p in mem && mem[p].size < n && p == s.rover
    ensures NextFit(s.tiles, s.rover, n).None?
  {
    forall b <- s.tiles ensures !b.Fits(n) {
      if b.free {
        FreesComplete(s.tiles, b.addr);
        assert b.addr in Nodes(cfg, s.tiles);
        assert b.addr == p || InArc(s.rover, b.addr, p);
      }
    }
    NextFitFails(cfg, s, n);
  }

  /** Memory after the lines that take `n` units from the block at `p`. */
  ghost function Taken(mem: Headers, prevp: int, p: int, n: nat): Headers
    requires prevp in mem && p in mem && mem[p].size >= n
  {
    if mem[p].size == n then mem[prevp := mem[prevp].(ptr := mem[p].ptr)]
    else SetSize(mem[p := mem[p].(size := mem[p].size - n)], p + HEADER_SIZE * (mem[p].size - n), n)
  }

  /** The node the scan stops at is the block next fit names, and taking it leaves memory in step. */
  lemma TakeInMemory(cfg: Config, s: Arena, mem: Headers, i: nat, prevp: int, p: int, n: nat) returns (j: nat)
    requires Scanning(cfg, s, mem, i, prevp, p, n) && p in mem && mem[p].size >= n
    ensures NextFit(s.tiles, s.rover, n) == Some(j) && s.tiles[j].addr == p && s.tiles[j].units == mem[p].size
    ensures InMemory(cfg, Take(cfg, s, j, n).0, Taken(mem, prevp, p, n)) && Take(cfg, s, j, n).0.rover == prevp != 0
  {
    j := FoundBlock(cfg, s, mem, i, prevp, p, n);
    assert s.tiles[j] in s.tiles;
    TakeKeeps(cfg, s, j, n);
    CarveRing(cfg, s, mem, i, prevp, j, n);
    BaseKept(cfg, s.tiles, s.brk, mem, prevp, j, n);
    CarvedSizes(cfg, s.tiles, s.brk, mem, Taken(mem, prevp, p, n), j, n);
  }

  /** The block behind a node that fits is the one next fit picks. */
  lemma FoundBlock(cfg: Config, s: Arena, mem: Headers, i: nat, prevp: int, p: int, n: nat) returns (j: nat)
    requires Scanning(cfg, s, mem, i, prevp, p, n) && p in mem && mem[p].size >= n
    ensures NextFit(s.tiles, s.rover, n) == Some(j) && s.tiles[j].addr == p
  {
    ScanInMemory(cfg, s, mem, i, prevp, p, n);
    NodeIsBlock(cfg, s.tiles, p);
    j :| 0 <= j < |s.tiles| && s.tiles[j].free && s.tiles[j].addr == p;
    assert s.tiles[j] in s.tiles;
    forall b <- s.tiles | b.Fits(n) ensures !InArc(s.rover, b.addr, p) {
      FreesComplete(s.tiles, b.addr);
      assert b.addr in Nodes(cfg, s.tiles);
    }
    NextFitOfArc(s.tiles, cfg.lo, s.brk, s.rover, j, n);
  }

  lemma NodeIsBlock(cfg: Config, t: seq<Block>, x: int)
    ensures x in Nodes(cfg, t) <==> x == cfg.base || exists j :: 0 <= j < |t| && t[j].free && t[j].addr == x
  {
    FreesComplete(t, x);
    if b :| b in t && b.free && b.addr == x {
      var j :| 0 <= j < |t| && t[j] == b;
    }
  }

  lemma NextFitOfArc(t: seq<Block>, lo: int, hi: int, rover: int, j: nat, n: nat)
    requires Covers(t, lo, hi) && lo > 0 && j < |t| && t[j].Fits(n)
    requires forall b <- t :: b.Fits(n) ==> !InArc(rover, b.addr, t[j].addr)
    ensures NextFit(t, rover, n) == Some(j)
  {
    CoversInside(t, lo, hi);
    assert t[j] in t;
    forall k | 0 <= k < j ensures t[k].addr < t[j].addr && t[k] in t {
      CoversOrdered(t, lo, hi, k, j);
    }
    FirstFitFails(t, rover, n);
    FirstFitFirst(t, if rover < t[j].addr then rover else 0, n, j);
  }

  /** State `s` is where the call stands: started, or grown once because nothing fitted. */
  ghost predicate Attempt(cfg: Config, was: Arena, nBytes: nat, s: Arena, grown: bool) {
    var g, s0 := Max(Units(nBytes), cfg.minGrow), Started(cfg, was);
    && WellFormed(cfg, s0)
    && s0.brk + HEADER_SIZE * g < ADDRESS_SPACE
    && if grown then
         && NextFit(s0.tiles, s0.rover, Units(nBytes)).None? && s0.brk + HEADER_SIZE * g <= cfg.end
         && s == Grow(cfg, s0, g)
       else s == s0
  }

  /** When nothing fits the pool has not grown yet, so the call either gives up or grows for the first time. */
  lemma GrowsOnce(cfg: Config, was: Arena, nBytes: nat, s: Arena, grown: bool)
    requires Attempt(cfg, was, nBytes, s, grown) && WellFormed(cfg, s)
    requires NextFit(s.tiles, s.rover, Units(nBytes)).None?
    ensures !grown && s.brk + HEADER_SIZE * Max(Units(nBytes), cfg.minGrow) < ADDRESS_SPACE
    ensures s.brk + HEADER_SIZE * Max(Units(nBytes), cfg.minGrow) > cfg.end
            ==> HeapSpec.Malloc(cfg, was, nBytes) == (s, None)
    ensures s.brk + HEADER_SIZE * Max(Units(nBytes), cfg.minGrow) <= cfg.end ==>
      Attempt(cfg, was, nBytes, Grow(cfg, s, Max(Units(nBytes), cfg.minGrow)), true)
  {
    if grown {
      SecondSearch(cfg, Started(cfg, was), Max(Units(nBytes), cfg.minGrow), Units(nBytes));
    }
  }

  // ---------------------------------------------------------------- memory and blocks

  lemma RingFrame(nodes: seq<int>, mem: Headers, mem': Headers)
    requires Ring(nodes, mem)
    requires forall x <- nodes :: x in mem && x in mem' && mem'[x].ptr == mem[x].ptr
    ensures Ring(nodes, mem')
  {
    forall i: nat ensures Linked(nodes, mem', i) {
      assert Linked(nodes, mem, i);
      assert i < |nodes| ==> nodes[i] in nodes;
    }
  }

  lemma NodesInMemory(cfg: Config, t: seq<Block>, mem: Headers)
    requires Ring(Nodes(cfg, t), mem)
    ensures forall x <- Nodes(cfg, t) :: x in mem
  {
    var nodes := Nodes(cfg, t);
    forall x <- nodes ensures x in mem {
      var i :| 0 <= i < |nodes| && nodes[i] == x;
      assert Linked(nodes, mem, i);
    }
  }

  /** The header of a live block is not a node of the ring. */
  lemma BlockOffRing(cfg: Config, t: seq<Block>, hi: int, j: nat)
    requires cfg.Ok() && Covers(t, cfg.lo, hi) && hi <= cfg.end && j < |t| && !t[j].free
    ensures Ascending(Nodes(cfg, t)) && t[j].addr !in Nodes(cfg, t)
  {
    NodesAscend(cfg, t, hi);
    BelowHere(cfg, t, j, hi);
  }

  lemma LiveIsPlaced(cfg: Config, t: seq<Block>, hi: int, mem: Headers, j: nat)
    requires cfg.Ok() && Covers(t, cfg.lo, hi) && hi <= cfg.end && j < |t| && !t[j].free
    requires Ring(Nodes(cfg, t), mem) && Sized(t, mem)
    ensures Placed(Nodes(cfg, t), mem, t[j].addr, PrevNode(cfg, t, t[j].addr), Below(Nodes(cfg, t), t[j].addr))
  {
    BlockOffRing(cfg, t, hi, j);
    CoversInside(t, cfg.lo, hi);
    BaseIsNoBlock(cfg, t, hi, j);
    assert t[j] in t;
    NodesAscend(cfg, t, hi);
    assert cfg.base in Nodes(cfg, t);
    PlacedAtGap(Nodes(cfg, t), mem, t[j].addr);
  }

  /** The tests the code makes on addresses and sizes decide exactly whether the neighbours are free. */
  lemma MeetsIffFree(cfg: Config, s: Arena, mem: Headers, j: nat)
    requires InMemory(cfg, s, mem) && s.rover != 0 && j < |s.tiles| && !s.tiles[j].free
    ensures var bp, p := s.tiles[j].addr, PrevNode(cfg, s.tiles, s.tiles[j].addr);
            && Placed(Nodes(cfg, s.tiles), mem, bp, p, Below(Nodes(cfg, s.tiles), bp))
            && (MeetsNext(mem, p, bp) <==> FreeAbove(s.tiles, j))
            && (MeetsPrev(mem, p, bp) <==> FreeBelow(s.tiles, j))
            && (FreeBelow(s.tiles, j) ==> p == s.tiles[j - 1].addr)
            && (FreeAbove(s.tiles, j) ==> mem[p].ptr == s.tiles[j + 1].addr)
  {
    LiveIsPlaced(cfg, s.tiles, s.brk, mem, j);
    var k, p := Below(Nodes(cfg, s.tiles), s.tiles[j].addr), PrevNode(cfg, s.tiles, s.tiles[j].addr);
    MeetsNextIffFree(cfg, s, mem, j, p, k);
    MeetsPrevIffFree(cfg, s, mem, j, p, k);
  }

  lemma MeetsNextIffFree(cfg: Config, s: Arena, mem: Headers, j: nat, p: int, k: nat)
    requires InMemory(cfg, s, mem) && s.rover != 0 && j < |s.tiles| && !s.tiles[j].free
    requires Placed(Nodes(cfg, s.tiles), mem, s.tiles[j].addr, p, k)
    ensures MeetsNext(mem, p, s.tiles[j].addr) <==> FreeAbove(s.tiles, j)
    ensures FreeAbove(s.tiles, j) ==> mem[p].ptr == s.tiles[j + 1].addr
  {
    var t, nodes := s.tiles, Nodes(cfg, s.tiles);
    assert t[j] in t;
    if MeetsNext(mem, p, t[j].addr) {
      BaseIsNoBlock(cfg, t, s.brk, j);
      assert nodes[k] in nodes;
      NodeIsBlock(cfg, t, nodes[k]);
      var x :| 0 <= x < |t| && t[x].free && t[x].addr == nodes[k];
      StartsAtEnd(t, cfg.lo, s.brk, j, x);
    }
    if FreeAbove(t, j) {
      ReleaseNodes(cfg, t, j, s.brk);
      CoversOrdered(t, cfg.lo, s.brk, j, j + 1);
      assert Linked(nodes, mem, Gap(nodes, t[j].addr));
    }
  }

  lemma MeetsPrevIffFree(cfg: Config, s: Arena, mem: Headers, j: nat, p: int, k: nat)
    requires InMemory(cfg, s, mem) && s.rover != 0 && j < |s.tiles| && !s.tiles[j].free
    requires Placed(Nodes(cfg, s.tiles), mem, s.tiles[j].addr, p, k)
    ensures MeetsPrev(mem, p, s.tiles[j].addr) <==> FreeBelow(s.tiles, j)
    ensures FreeBelow(s.tiles, j) ==> p == s.tiles[j - 1].addr
  {
    var t, nodes := s.tiles, Nodes(cfg, s.tiles);
    if MeetsPrev(mem, p, t[j].addr) {
      BaseIsNoBlock(cfg, t, s.brk, j);
      assert p in nodes;
      NodeIsBlock(cfg, t, p);
      var x :| 0 <= x < |t| && t[x].free && t[x].addr == p;
      assert t[x] in t;
      StartsAtEnd(t, cfg.lo, s.brk, x, j);
    }
    if FreeBelow(t, j) {
      ReleaseNodes(cfg, t, j, s.brk);
      CoversOrdered(t, cfg.lo, s.brk, j - 1, j);
      assert t[j - 1] in t;
    }
  }

  lemma StartsAtEnd(t: seq<Block>, lo: int, hi: int, i: nat, j: nat)
    requires Covers(t, lo, hi) && i < |t| && j < |t| && t[i].End() == t[j].addr
    ensures j == i + 1
  {
    CoversInside(t, lo, hi);
    assert t[i] in t && t[j] in t;
    if j <= i {
      if j < i { CoversOrdered(t, lo, hi, j, i); }
    } else {
      CoversOrdered(t, lo, hi, i, i + 1);
      if i + 1 < j { CoversOrdered(t, lo, hi, i + 1, j); }
    }
  }

  /** Linking a live block in leaves memory describing the released row. */
  lemma SpliceReleases(cfg: Config, s: Arena, mem: Headers, j: nat)
    requires InMemory(cfg, s, mem) && s.rover != 0 && j < |s.tiles| && !s.tiles[j].free
    ensures var bp, p := s.tiles[j].addr, PrevNode(cfg, s.tiles, s.tiles[j].addr);
            && bp !in Nodes(cfg, s.tiles) && p != 0
            && p in mem && mem[p].ptr in mem && bp in mem
            && InMemory(cfg, Arena(Release(s.tiles, j), s.brk, p), Splice(mem, p, bp))
  {
    var t, bp, p := s.tiles, s.tiles[j].addr, PrevNode(cfg, s.tiles, s.tiles[j].addr);
    MeetsIffFree(cfg, s, mem, j);
    ReleaseNodes(cfg, t, j, s.brk);
    SpliceKeepsRing(Nodes(cfg, t), mem, bp, p, Below(Nodes(cfg, t), bp));
    ReleaseKeeps(cfg, t, j, s.brk);
    NodeIsBlock(cfg, t, p);
    SplicedSizes(cfg, t, s.brk, mem, j, p);
  }

  lemma SplicedSizes(cfg: Config, t: seq<Block>, hi: int, mem: Headers, j: nat, p: int)
    requires cfg.Ok() && Covers(t, cfg.lo, hi) && hi <= cfg.end && j < |t| && !t[j].free
    requires Sized(t, mem) && cfg.base in mem && mem[cfg.base].size == 0
    requires p in mem && mem[p].ptr in mem && t[j].addr in mem && p != t[j].addr
    requires p == cfg.base || (exists x :: 0 <= x < |t| && t[x].free && t[x].addr == p)
    requires MeetsNext(mem, p, t[j].addr) <==> FreeAbove(t, j)
    requires MeetsPrev(mem, p, t[j].addr) <==> FreeBelow(t, j)
    requires FreeBelow(t, j) ==> p == t[j - 1].addr
    requires FreeAbove(t, j) ==> mem[p].ptr == t[j + 1].addr
    ensures var mem' := Splice(mem, p, t[j].addr);
            && Sized(Release(t, j), mem')
            && cfg.base in mem' && mem'[cfg.base].size == 0
  {
    var mem' := Splice(mem, p, t[j].addr);
    assert t[j] in t;
    assert FreeAbove(t, j) ==> t[j + 1] in t;
    assert FreeBelow(t, j) ==> t[j - 1] in t;
    BaseIsNoBlock(cfg, t, hi, j);
    if FreeBelow(t, j) { BaseIsNoBlock(cfg, t, hi, j - 1); }
    forall b <- Release(t, j) ensures b.addr in mem' && mem'[b.addr].size == b.units {
      if b != Merged(t, j) {
        ApartFromSplice(cfg, t, hi, j, p, b);
      }
    }
  }

  /** A block that takes no part in a release starts neither at the released block nor at the node before it. */
  lemma ApartFromSplice(cfg: Config, t: seq<Block>, hi: int, j: nat, p: int, b: Block)
    requires cfg.Ok() && Covers(t, cfg.lo, hi) && hi <= cfg.end && j < |t| && !t[j].free
    requires p == cfg.base || (exists x :: 0 <= x < |t| && t[x].free && t[x].addr == p)
    requires FreeBelow(t, j) ==> p == t[j - 1].addr
    requires b in Release(t, j) && b != Merged(t, j)
    ensures b in t && b.addr != t[j].addr && (b.addr == p ==> !FreeBelow(t, j) && p != cfg.base)
  {
    var x := OtherBlock(t, j, b);
    OtherAddress(t, cfg.lo, hi, j, x);
    if FreeBelow(t, j) {
      OtherAddress(t, cfg.lo, hi, j - 1, x);
    }
    BaseIsNoBlock(cfg, t, hi, x);
  }

  lemma OtherBlock(t: seq<Block>, j: nat, b: Block) returns (x: nat)
    requires j < |t| && b in Release(t, j) && b != Merged(t, j)
    ensures x < |t| && t[x] == b && x != j && (FreeBelow(t, j) ==> x != j - 1)
  {
    if b in Lower(t, j) {
      x :| x < |Lower(t, j)| && Lower(t, j)[x] == b;
    } else {
      assert b in Upper(t, j);
      var y: nat :| y < |Upper(t, j)| && Upper(t, j)[y] == b;
      x := y + (|t| - |Upper(t, j)|);
    }
  }

  lemma OtherAddress(t: seq<Block>, lo: int, hi: int, j: nat, x: nat)
    requires Covers(t, lo, hi) && j < |t| && x < |t| && x != j
    ensures t[x].addr != t[j].addr
  {
    IndexOfFinds(t, lo, hi, j);
    IndexOfFinds(t, lo, hi, x);
  }

  /** The pool with the new block at its end, not yet released. */
  ghost function Grown(s: Arena, g: nat): Arena {
    Arena(s.tiles + [Block(s.brk, g, false)], s.brk + HEADER_SIZE * g, s.rover)
  }

  lemma GrowInMemory(cfg: Config, s: Arena, mem: Headers, g: nat)
    requires InMemory(cfg, s, mem) && s.rover != 0 && g >= 1 && s.brk + HEADER_SIZE * g <= cfg.end
    ensures InMemory(cfg, Grown(s, g), SetSize(mem, s.brk, g))
  {
    AddLive(cfg, s, g);
    var mem' := SetSize(mem, s.brk, g);
    NodesAscend(cfg, s.tiles, s.brk);
    CoversInside(s.tiles, cfg.lo, s.brk);
    NodesInMemory(cfg, s.tiles, mem);
    RingFrame(Nodes(cfg, s.tiles), mem, mem');
    GrownSizes(s.tiles, cfg.lo, s.brk, mem, g);
  }

  /** Growing is adding a live block at the break and releasing it. */
  lemma GrowIsFree(cfg: Config, s: Arena, g: nat, ap: int)
    requires WellFormed(cfg, s) && g >= 1 && ap == s.brk + HEADER_SIZE
    ensures IsLive(Grown(s, g), ap)
    ensures HeapSpec.Free(cfg, Grown(s, g), ap) == Grow(cfg, s, g)
  {
    AddLive(cfg, s, g);
    var t := Grown(s, g).tiles;
    assert t[|s.tiles|] == Block(s.brk, g, false);
    IndexOfFinds(t, cfg.lo, s.brk + HEADER_SIZE * g, |s.tiles|);
    assert PrevNode(cfg, t, s.brk) == PrevNode(cfg, s.tiles, s.brk);
  }

  lemma BreakNotNull(cfg: Config, s: Arena)
    requires WellFormed(cfg, s)
    ensures 0 < cfg.lo <= s.brk
  {
    CoversInside(s.tiles, cfg.lo, s.brk);
  }

  lemma GrownSizes(t: seq<Block>, lo: int, hi: int, mem: Headers, g: nat)
    requires Covers(t, lo, hi) && Sized(t, mem)
    ensures Sized(t + [Block(hi, g, false)], SetSize(mem, hi, g))
  {
    CoversInside(t, lo, hi);
    forall b <- t + [Block(hi, g, false)]
      ensures b.addr in SetSize(mem, hi, g) && SetSize(mem, hi, g)[b.addr].size == b.units
    {
      assert b == Block(hi, g, false) || b in t;
    }
  }

  lemma StartInMemory(cfg: Config, s: Arena, mem: Headers)
    requires InMemory(cfg, s, mem)
    ensures s.rover == 0 ==> InMemory(cfg, Started(cfg, s), mem[cfg.base := Header(cfg.base, 0)])
    ensures s.rover != 0 ==> Started(cfg, s) == s
    ensures Started(cfg, s).rover != 0
  {
    if s.rover == 0 {
      assert Nodes(cfg, s.tiles) == [cfg.base];
    }
  }

  /** The scan stands right before the block it takes. */
  lemma StandsBefore(cfg: Config, t: seq<Block>, hi: int, i: nat, j: nat)
    requires cfg.Ok() && Covers(t, cfg.lo, hi) && hi <= cfg.end && j < |t| && t[j].free
    requires i < |Nodes(cfg, t)| && t[j].addr == Succ(Nodes(cfg, t), i)
    ensures NodeIndex(cfg, t, j) == NextIndex(Nodes(cfg, t), i) && PrevNode(cfg, t, t[j].addr) == Nodes(cfg, t)[i]
  {
    NodesAscend(cfg, t, hi);
    BelowHere(cfg, t, j, hi);
    FreeNodeAt(cfg, t, j);
  }

  lemma FreeNodeAt(cfg: Config, t: seq<Block>, j: nat)
    requires j < |t| && t[j].free
    ensures NodeIndex(cfg, t, j) < |Nodes(cfg, t)| && Nodes(cfg, t)[NodeIndex(cfg, t, j)] == t[j].addr
  {
    CarveNodes(cfg, t, j, t[j].units);
  }

  /** What taking `n` units from the node behind node `i` does to the ring. */
  lemma RingAfterTake(nodes: seq<int>, rest: seq<int>, mem: Headers, i: nat, a: int, n: nat)
    requires Ring(nodes, mem) && i < |nodes| && a == Succ(nodes, i) && nodes[i] in mem && a in mem && mem[a].size >= n
    requires mem[a].size == n
             ==> |nodes| >= 2 && rest == nodes[..NextIndex(nodes, i)] + nodes[NextIndex(nodes, i) + 1..]
    requires mem[a].size != n ==> rest == nodes && a + HEADER_SIZE * (mem[a].size - n) !in nodes
    ensures Ring(rest, Taken(mem, nodes[i], a, n))
  {
    if mem[a].size == n {
      UnlinkKeepsRing(nodes, mem, NextIndex(nodes, i), i);
    } else {
      forall x <- nodes ensures x in mem {
        var k: nat :| k < |nodes| && nodes[k] == x;
        assert Linked(nodes, mem, k);
      }
      RingFrame(nodes, mem, Taken(mem, nodes[i], a, n));
    }
  }

  /** Taking a block leaves the ring of the carved row. */
  lemma CarveRing(cfg: Config, s: Arena, mem: Headers, i: nat, prevp: int, j: nat, n: nat)
    requires InMemory(cfg, s, mem) && s.rover != 0 && n >= 1
    requires j < |s.tiles| && s.tiles[j].Fits(n) && s.tiles[j].addr in mem
             && mem[s.tiles[j].addr].size == s.tiles[j].units
    requires i < |Nodes(cfg, s.tiles)| && prevp == Nodes(cfg, s.tiles)[i] && prevp in mem
    requires s.tiles[j].addr == Succ(Nodes(cfg, s.tiles), i)
    ensures Ring(Nodes(cfg, Carve(s.tiles, j, n)), Taken(mem, prevp, s.tiles[j].addr, n))
    ensures PrevNode(cfg, s.tiles, s.tiles[j].addr) == prevp
  {
    var t, nodes := s.tiles, Nodes(cfg, s.tiles);
    StandsBefore(cfg, t, s.brk, i, j);
    CarveNodes(cfg, t, j, n);
    if t[j].units != n { CarvedAddressIsNew(cfg, t, s.brk, j, n); }
    RingAfterTake(nodes, Nodes(cfg, Carve(t, j, n)), mem, i, t[j].addr, n);
  }

  /** The header of `base` keeps its size 0. */
  lemma BaseKept(cfg: Config, t: seq<Block>, hi: int, mem: Headers, prevp: int, j: nat, n: nat)
    requires cfg.Ok() && Covers(t, cfg.lo, hi) && hi <= cfg.end && n >= 1 && j < |t| && t[j].Fits(n)
    requires cfg.base in mem && mem[cfg.base].size == 0 && t[j].addr in mem && mem[t[j].addr].size == t[j].units
             && prevp in mem
    ensures var mem' := Taken(mem, prevp, t[j].addr, n); cfg.base in mem' && mem'[cfg.base].size == 0
  {
    BaseIsNoBlock(cfg, t, hi, j);
    if t[j].units != n { CarvedAddressIsNew(cfg, t, hi, j, n); }
  }

  lemma CarvedAddressIsNew(cfg: Config, t: seq<Block>, hi: int, j: nat, n: nat)
    requires cfg.Ok() && Covers(t, cfg.lo, hi) && hi <= cfg.end && n >= 1
    requires j < |t| && t[j].Fits(n) && t[j].units != n
    ensures forall b <- t :: b.addr != CarveAddr(t, j, n)
    ensures CarveAddr(t, j, n) !in Nodes(cfg, t) && CarveAddr(t, j, n) != cfg.base
  {
    var a := CarveAddr(t, j, n);
    forall b <- t ensures b.addr != a {
      var x :| 0 <= x < |t| && t[x] == b;
      if x < j { CoversOrdered(t, cfg.lo, hi, x, j); }
      if x > j { CoversOrdered(t, cfg.lo, hi, j, x); }
    }
    CoversInside(t, cfg.lo, hi);
    assert t[j] in t;
    NodeIsBlock(cfg, t, a);
  }

  lemma CarvedSizes(cfg: Config, t: seq<Block>, hi: int, was: Headers, mem: Headers, j: nat, n: nat)
    requires cfg.Ok() && Covers(t, cfg.lo, hi) && hi <= cfg.end && n >= 1 && Sized(t, was)
    requires j < |t| && t[j].Fits(n) && t[j].addr in was
    requires t[j].units == n ==> was.Keys <= mem.Keys && forall x <- was :: mem[x].size == was[x].size
    requires t[j].units != n
             ==> mem == SetSize(was[t[j].addr := was[t[j].addr].(size := t[j].units - n)], CarveAddr(t, j, n), n)
    ensures Sized(Carve(t, j, n), mem)
  {
    forall b <- Carve(t, j, n) ensures b.addr in mem && mem[b.addr].size == b.units {
      CarvedSize(cfg, t, hi, was, mem, j, n, b);
    }
  }

  lemma CarvedSize(cfg: Config, t: seq<Block>, hi: int, was: Headers, mem: Headers, j: nat, n: nat, b: Block)
    requires cfg.Ok() && Covers(t, cfg.lo, hi) && hi <= cfg.end && n >= 1 && Sized(t, was)
    requires j < |t| && t[j].Fits(n) && t[j].addr in was && b in Carve(t, j, n)
    requires t[j].units == n ==> was.Keys <= mem.Keys && forall x <- was :: mem[x].size == was[x].size
    requires t[j].units != n
             ==> mem == SetSize(was[t[j].addr := was[t[j].addr].(size := t[j].units - n)], CarveAddr(t, j, n), n)
    ensures b.addr in mem && mem[b.addr].size == b.units
  {
    assert t[j] in t;
    if t[j].units != n { CarvedAddressIsNew(cfg, t, hi, j, n); }
    var x := CarvedOrOld(t, j, n, b);
    if x != j {
      assert t[x] in t;
      OtherAddress(t, cfg.lo, hi, j, x);
    }
  }

  /** A block of the carved row is an old one, or a part of block `j`. */
  lemma CarvedOrOld(t: seq<Block>, j: nat, n: nat, b: Block) returns (x: nat)
    requires j < |t| && t[j].Fits(n) && b in Carve(t, j, n)
    ensures x < |t| && (x != j ==> t[x] == b)
    ensures x == j ==>
              || b == Block(CarveAddr(t, j, n), n, false)
              || (t[j].units != n && b == t[j].(units := t[j].units - n))
  {
    var r := Carve(t, j, n);
    var shift := |r| - |t|;
    var y :| 0 <= y < |r| && r[y] == b;
    x := if y < j then y else if y > j + shift then y - shift else j;
  }
}
