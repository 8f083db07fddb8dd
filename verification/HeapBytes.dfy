/**
 What an allocation means in bytes and addresses: how large the block is, which free block it comes
 from, when the pool grows and by how much, and when a request fails.
 */
module HeapBytes {
  import opened Wrappers
  import opened Tiling
  import opened FreeRing
  import opened HeapSpec

  /** A free block with room for a header and the bytes. */
  predicate Roomy(b: Block, nBytes: nat) {
    b.free && b.addr + HEADER_SIZE + nBytes <= b.End()
  }

  /** A growth by `units` units would hold the request, and is not below the least growth. */
  predicate Grows(cfg: Config, nBytes: nat, units: nat) {
    units >= cfg.minGrow && HEADER_SIZE + nBytes <= HEADER_SIZE * units
  }

  /** Going up from `from` and round to the bottom, `a` is met no later than `b`. */
  predicate NoLater(from: int, a: int, b: int) {
    if a > from then b <= from || a <= b else b <= from && a <= b
  }

  /** `x` lies strictly between `p` and `q` on the way up from `p` and round. */
  predicate Between(p: int, x: int, q: int) {
    if p < q then p < x < q else x > p || x < q
  }

  /** Where the search starts: at the rover, or at `base` before the first call. */
  function SearchStart(cfg: Config, s: Arena): int {
    if s.rover == 0 then cfg.base else s.rover
  }

  /** A request takes a new block that holds it and wastes less than a header. */
  ghost predicate Hands(s: Arena, nBytes: nat, s': Arena, ap: int) {
    && IsLive(s', ap)
    && LiveBlock(s', ap) !in Live(s.tiles) && Live(s'.tiles) == Live(s.tiles) + {LiveBlock(s', ap)}
    && ap + nBytes <= LiveBlock(s', ap).End() < ap + nBytes + HEADER_SIZE
  }

  lemma RoomInUnits(b: Block, nBytes: nat)
    ensures b.Fits(Units(nBytes)) <==> Roomy(b, nBytes)
  {
  }

  lemma LeastGrowth(cfg: Config, nBytes: nat)
    ensures Grows(cfg, nBytes, Max(Units(nBytes), cfg.minGrow))
    ensures forall u: nat :: Grows(cfg, nBytes, u) ==> Max(Units(nBytes), cfg.minGrow) <= u
  {
  }

  // ---------------------------------------------------------------- what a call returns

  /** NULL exactly when no free block has room and no growth that would do ends inside the pool's range. */
  lemma FailsIff(cfg: Config, s: Arena, nBytes: nat)
    requires WellFormed(cfg, s)
    ensures Malloc(cfg, s, nBytes).1.None?
            <==> (forall b <- s.tiles :: !Roomy(b, nBytes))
                 && forall u: nat :: Grows(cfg, nBytes, u) ==> s.brk + HEADER_SIZE * u > cfg.end
  {
    MallocFailsIff(cfg, s, nBytes);
    forall b <- s.tiles ensures b.Fits(Units(nBytes)) <==> Roomy(b, nBytes) {
      RoomInUnits(b, nBytes);
    }
    LeastGrowth(cfg, nBytes);
    EndsBehind(s.brk, cfg.end, Max(Units(nBytes), cfg.minGrow));
  }

  lemma EndsBehind(brk: int, end: int, g: nat)
    ensures brk + HEADER_SIZE * g > end ==> forall u: nat :: g <= u ==> brk + HEADER_SIZE * u > end
  {
  }

  /** The block handed out is new, holds the request, and is the smallest whole number of units that does. */
  lemma HandsOut(cfg: Config, s: Arena, nBytes: nat)
    requires WellFormed(cfg, s) && Malloc(cfg, s, nBytes).1.Some?
    ensures Hands(s, nBytes, Malloc(cfg, s, nBytes).0, Malloc(cfg, s, nBytes).1.value)
  {
    var (s', ap) := Malloc(cfg, s, nBytes);
    MallocKeeps(cfg, s, nBytes);
    ServedInBytes(cfg, s, nBytes, s', ap.value, Block(ap.value - HEADER_SIZE, Units(nBytes), false));
  }

  lemma ServedInBytes(cfg: Config, s: Arena, nBytes: nat, s': Arena, ap: int, b: Block)
    requires WellFormed(cfg, s') && Serves(cfg, s, s', ap, nBytes)
    requires b == Block(ap - HEADER_SIZE, Units(nBytes), false)
    ensures Hands(s, nBytes, s', ap)
  {
    LiveBlockUnique(cfg, s', ap, b);
    assert b !in Live(s.tiles);
    UnitsHold(b.addr, nBytes);
  }

  lemma UnitsHold(a: int, nBytes: nat)
    ensures a + HEADER_SIZE + nBytes <= a + HEADER_SIZE * Units(nBytes) < a + HEADER_SIZE + nBytes + HEADER_SIZE
  {
  }

  // ---------------------------------------------------------------- where it comes from

  /** Of all blocks with room, the search stops at the one it meets first. */
  lemma NextFitIsNext(cfg: Config, s: Arena, n: nat, g: nat)
    requires WellFormed(cfg, s) && g < |s.tiles| && s.tiles[g].Fits(n)
    ensures NextFit(s.tiles, s.rover, n).Some?
    ensures NoLater(s.rover, s.tiles[NextFit(s.tiles, s.rover, n).value].addr, s.tiles[g].addr)
  {
    NextFitFails(cfg, s, n);
    assert s.tiles[g] in s.tiles;
    CoversInside(s.tiles, cfg.lo, s.brk);
    if s.tiles[g].addr > s.rover {
      FitsInOrder(s.tiles, cfg.lo, s.brk, s.rover, n, g);
    } else {
      FitsInOrder(s.tiles, cfg.lo, s.brk, 0, n, g);
      FirstFitFails(s.tiles, s.rover, n);
    }
  }

  lemma FitsInOrder(t: seq<Block>, lo: int, hi: int, after: int, n: nat, g: nat)
    requires Covers(t, lo, hi) && g < |t| && t[g].Fits(n) && t[g].addr > after
    ensures FirstFit(t, after, n).Some? && t[FirstFit(t, after, n).value].addr <= t[g].addr
  {
    FirstFitFails(t, after, n);
    assert t[g] in t;
    var j := FirstFit(t, after, n).value;
    FirstFitLeast(t, after, n, g);
    if j < g {
      CoversOrdered(t, lo, hi, j, g);
    }
  }

  lemma {:induction false} FirstFitLeast(t: seq<Block>, after: int, n: nat, g: nat)
    requires g < |t| && t[g].Fits(n) && t[g].addr > after
    ensures FirstFit(t, after, n).Some? && FirstFit(t, after, n).value <= g
  {
    if g > 0 && !(t[0].Fits(n) && t[0].addr > after) {
      FirstFitLeast(t[1..], after, n, g - 1);
    }
  }

  /** The node before an address, going round the ring. */
  lemma NothingBetween(cfg: Config, t: seq<Block>, hi: int, a: int)
    requires cfg.Ok() && Covers(t, cfg.lo, hi) && hi <= cfg.end
    ensures PrevNode(cfg, t, a) in Nodes(cfg, t)
    ensures forall x <- Nodes(cfg, t) :: !Between(PrevNode(cfg, t, a), x, a)
  {
    var nodes := Nodes(cfg, t);
    NodesAscend(cfg, t, hi);
    BelowSplits(nodes, a);
    forall x <- nodes ensures !Between(PrevNode(cfg, t, a), x, a) {
      var i :| 0 <= i < |nodes| && nodes[i] == x;
      assert i < Below(nodes, a) || nodes[i] >= a;
    }
  }

  /**
   Without growth the block is the tail of the first block with room, searching up from the rover, and the rover
   goes to the ring node before that block.
   */
  lemma TakesNext(cfg: Config, s: Arena, nBytes: nat) returns (f: Block)
    requires WellFormed(cfg, s) && Malloc(cfg, s, nBytes).1.Some? && Malloc(cfg, s, nBytes).0.brk == s.brk
    ensures f in s.tiles && Roomy(f, nBytes)
    ensures forall g <- s.tiles :: Roomy(g, nBytes) ==> NoLater(SearchStart(cfg, s), f.addr, g.addr)
    ensures var (s', ap) := Malloc(cfg, s, nBytes);
            && IsLive(s', ap.value) && LiveBlock(s', ap.value).End() == f.End()
            && s'.rover in Nodes(cfg, s.tiles) && forall x <- Nodes(cfg, s.tiles) :: !Between(s'.rover, x, f.addr)
  {
    var n, s0 := Units(nBytes), Started(cfg, s);
    var (s', ap) := Malloc(cfg, s, nBytes);
    StartedKeeps(cfg, s);
    MallocKeeps(cfg, s, nBytes);
    LiveBlockUnique(cfg, s', ap.value, Block(ap.value - HEADER_SIZE, n, false));
    var j := NextFit(s0.tiles, s0.rover, n).value;
    f := s0.tiles[j];
    RoomInUnits(f, nBytes);
    NothingBetween(cfg, s0.tiles, s0.brk, f.addr);
    forall g <- s.tiles | Roomy(g, nBytes) ensures NoLater(s0.rover, f.addr, g.addr) {
      var k :| 0 <= k < |s.tiles| && s.tiles[k] == g;
      RoomInUnits(g, nBytes);
      NextFitIsNext(cfg, s0, n, k);
    }
  }

  /** A release leaves the rover at the ring node before the released block. */
  lemma FreeMovesRover(cfg: Config, s: Arena, ap: int)
    requires WellFormed(cfg, s) && IsLive(s, ap)
    ensures Free(cfg, s, ap).rover in Nodes(cfg, s.tiles)
    ensures forall x <- Nodes(cfg, s.tiles) :: !Between(Free(cfg, s, ap).rover, x, ap - HEADER_SIZE)
  {
    NothingBetween(cfg, s.tiles, s.brk, ap - HEADER_SIZE);
  }

  // ---------------------------------------------------------------- when the pool grows

  /** The pool grows only when no block has room, by no more units than it must, and the block is the end of it. */
  lemma GrowsWhenFull(cfg: Config, s: Arena, nBytes: nat) returns (u: nat)
    requires WellFormed(cfg, s) && Malloc(cfg, s, nBytes).0.brk != s.brk
    ensures forall b <- s.tiles :: !Roomy(b, nBytes)
    ensures Grows(cfg, nBytes, u) && forall v: nat :: Grows(cfg, nBytes, v) ==> u <= v
    ensures var (s', ap) := Malloc(cfg, s, nBytes);
            && s'.brk == s.brk + HEADER_SIZE * u
            && ap.Some? && IsLive(s', ap.value) && LiveBlock(s', ap.value).End() == s'.brk
  {
    var n, s0 := Units(nBytes), Started(cfg, s);
    var (s', ap) := Malloc(cfg, s, nBytes);
    u := Max(n, cfg.minGrow);
    StartedKeeps(cfg, s);
    NextFitFails(cfg, s0, n);
    GrowKeeps(cfg, s0, u);
    SecondSearch(cfg, s0, u, n);
    MallocKeeps(cfg, s, nBytes);
    LiveBlockUnique(cfg, s', ap.value, Block(ap.value - HEADER_SIZE, n, false));
    forall b <- s.tiles ensures !Roomy(b, nBytes) {
      RoomInUnits(b, nBytes);
    }
    LeastGrowth(cfg, nBytes);
    OnlyLastFits(s0, u, n);
    CoversLast(Grow(cfg, s0, u).tiles, cfg.lo, s'.brk);
  }

  /** In the grown row only the last block fits what nothing fitted before. */
  lemma OnlyLastFits(s: Arena, u: nat, n: nat)
    requires forall b <- s.tiles :: !b.Fits(n)
    ensures var t := Release(s.tiles + [Block(s.brk, u, false)], |s.tiles|);
            t != [] && forall i :: 0 <= i < |t| - 1 ==> !t[i].Fits(n)
  {
    var t := s.tiles + [Block(s.brk, u, false)];
    var r := Release(t, |s.tiles|);
    forall i | 0 <= i < |r| - 1 ensures !r[i].Fits(n) {
      assert r[i] == s.tiles[i] && s.tiles[i] in s.tiles;
    }
  }

  // ---------------------------------------------------------------- the two heaps

  /** A first call that fits a page takes the end of a page. */
  lemma FirstKernelBlock(base: int, lo: int, nBytes: nat) returns (ap: int)
    requires KernelConfig(base, lo).Ok() && nBytes <= 4088
    ensures var cfg := KernelConfig(base, lo);
            Malloc(cfg, Start(cfg), nBytes).1 == Some(ap) && Malloc(cfg, Start(cfg), nBytes).0.brk == lo + 4096
    ensures ap + nBytes <= lo + 4096 < ap + nBytes + HEADER_SIZE
  {
    var cfg := KernelConfig(base, lo);
    ap := FirstBlock(cfg, 512, nBytes);
  }

  /** The early heap grows by 1024 bytes, and is full after 4088. */
  lemma FirstBootBlock(base: int, lo: int, nBytes: nat) returns (ap: int)
    requires BootConfig(base, lo).Ok() && nBytes <= 1016
    ensures var cfg := BootConfig(base, lo);
            Malloc(cfg, Start(cfg), nBytes).1 == Some(ap) && Malloc(cfg, Start(cfg), nBytes).0.brk == lo + 1024
    ensures ap + nBytes <= lo + 1024 < ap + nBytes + HEADER_SIZE
  {
    var cfg := BootConfig(base, lo);
    ap := FirstBlock(cfg, 128, nBytes);
  }

  lemma BootHeapHolds(base: int, lo: int)
    requires BootConfig(base, lo).Ok()
    ensures var cfg := BootConfig(base, lo);
            Malloc(cfg, Start(cfg), 4088).1 == Some(lo + HEADER_SIZE) && Malloc(cfg, Start(cfg), 4089).1.None?
  {
    var cfg := BootConfig(base, lo);
    var ap := FirstBlock(cfg, 512, 4088);
    BlockInPool(cfg, 4088, ap);
    TooMuch(cfg, 4089);
  }

  lemma BlockInPool(cfg: Config, nBytes: nat, ap: int)
    requires cfg.Ok() && Malloc(cfg, Start(cfg), nBytes).1 == Some(ap)
    ensures (ap - cfg.lo) % HEADER_SIZE == 0
  {
    MallocKeeps(cfg, Start(cfg), nBytes);
  }

  lemma TooMuch(cfg: Config, nBytes: nat)
    requires cfg.Ok() && cfg.lo + HEADER_SIZE + nBytes > cfg.end
    ensures Malloc(cfg, Start(cfg), nBytes).1.None?
  {
    FailsIff(cfg, Start(cfg), nBytes);
  }

  lemma FirstBlock(cfg: Config, u: nat, nBytes: nat) returns (ap: int)
    requires cfg.Ok() && cfg.lo + HEADER_SIZE * u <= cfg.end
    requires Grows(cfg, nBytes, u) && forall v: nat :: Grows(cfg, nBytes, v) ==> u <= v
    ensures Malloc(cfg, Start(cfg), nBytes).1 == Some(ap)
    ensures Malloc(cfg, Start(cfg), nBytes).0.brk == cfg.lo + HEADER_SIZE * u
    ensures ap + nBytes <= cfg.lo + HEADER_SIZE * u < ap + nBytes + HEADER_SIZE
  {
    var s := Start(cfg);
    FailsIff(cfg, s, nBytes);
    ap := Malloc(cfg, s, nBytes).1.value;
    HandsOut(cfg, s, nBytes);
    if Malloc(cfg, s, nBytes).0.brk == s.brk {
      var f := TakesNext(cfg, s, nBytes);
      assert false;
    }
    var v := GrowsWhenFull(cfg, s, nBytes);
  }
}
