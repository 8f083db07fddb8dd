/**
 What the next-fit allocator does, as functions on its abstract state, and the
 laws that hold over whole runs of allocations and releases.

 The kernel heap and the early boot heap are the same algorithm with different
 constants, so both are instances of one `Config`.
 */
module HeapSpec {
  import opened Wrappers
  import opened Tiling
  import opened FreeRing

  /** Address of the static `base` header, the pool [lo, end), and MORECORE_DEFAULT in units. */
  datatype Config = Config(base: int, lo: int, end: int, minGrow: nat) {
    /**
     `base` lies outside the pool, on either side of it.  It must not start exactly at the
     end of the pool either: by `FreeRing.NodeSurvivesIff`, releasing a block that ends at `base`
     takes `base` off the list, unless it is the only node there.
     */
    ghost predicate Ok() {
      && 0 < base && 0 < lo <= end
      && (base + HEADER_SIZE <= lo || base > end)
      && minGrow >= 1
    }
  }

  /** KERNEL_HEAP_SIZE and PAGE_SIZE / sizeof(Header). */
  function KernelConfig(base: int, lo: int): Config {
    Config(base, lo, lo + 0x4000000, 512)
  }

  /** EARLY_HEAP_SIZE and the early heap's own MORECORE_DEFAULT. */
  function BootConfig(base: int, lo: int): Config {
    Config(base, lo, lo + 4096, 128)
  }

  /** The kernel heap starts behind the kernel image, which holds its `base`. */
  lemma KernelHeapIsOk(base: int, imageEnd: int, lo: int)
    requires 0 < base && base + HEADER_SIZE <= imageEnd <= lo
    ensures KernelConfig(base, lo).Ok()
  {
  }

  /** `base` and the early pool are two objects of the kernel image: only one placement is ruled out. */
  lemma BootHeapOkIff(base: int, lo: int)
    requires 0 < base && 0 < lo && (base + HEADER_SIZE <= lo || lo + 4096 <= base)
    ensures BootConfig(base, lo).Ok() <==> base != lo + 4096
  {
  }

  /** The pool, the heap break, and the roving `freep` (0 before the first call). */
  datatype Arena = Arena(tiles: seq<Block>, brk: int, rover: int)

  function Max(a: nat, b: nat): nat {
    if a < b then b else a
  }

  /** Units for a request: the rounded-up payload and one header. */
  function Units(nBytes: nat): nat {
    (nBytes + HEADER_SIZE - 1) / HEADER_SIZE + 1
  }

  /** All nodes of the ring in address order, `base` among them. */
  ghost function Nodes(cfg: Config, t: seq<Block>): seq<int> {
    WithBase(cfg, Frees(t))
  }

  ghost function WithBase(cfg: Config, f: seq<int>): seq<int> {
    if cfg.base < cfg.lo then [cfg.base] + f else f + [cfg.base]
  }

  /** 1 when `base` comes first in the ring, 0 when it comes last. */
  ghost function BaseFirst(cfg: Config): nat {
    if cfg.base < cfg.lo then 1 else 0
  }

  ghost predicate WellFormed(cfg: Config, s: Arena) {
    && cfg.Ok()
    && Covers(s.tiles, cfg.lo, s.brk) && Coalesced(s.tiles)
    && s.brk <= cfg.end
    && (if s.rover == 0 then s.tiles == [] else s.rover in Nodes(cfg, s.tiles))
  }

  // ---------------------------------------------------------------- the operations

  /** The first block above address `after` that can serve `n` units. */
  ghost function FirstFit(t: seq<Block>, after: int, n: nat): (r: Option<nat>)
    ensures r.Some? ==> r.value < |t| && t[r.value].Fits(n) && t[r.value].addr > after
  {
    if t == [] then None
    else if t[0].Fits(n) && t[0].addr > after then Some(0)
    else match FirstFit(t[1..], after, n)
      case None => None
      case Some(j) => Some(j + 1)
  }

  /** Next fit: search upwards from the rover, then from the bottom of the pool. */
  ghost function NextFit(t: seq<Block>, rover: int, n: nat): (r: Option<nat>)
    ensures r.Some? ==> r.value < |t| && t[r.value].Fits(n)
  {
    if FirstFit(t, rover, n).Some? then FirstFit(t, rover, n) else FirstFit(t, 0, n)
  }

  ghost function Take(cfg: Config, s: Arena, j: nat, n: nat): (Arena, Option<int>)
    requires j < |s.tiles| && s.tiles[j].Fits(n)
  {
    (Arena(Carve(s.tiles, j, n), s.brk, PrevNode(cfg, s.tiles, s.tiles[j].addr)),
     Some(CarveAddr(s.tiles, j, n) + HEADER_SIZE))
  }

  /** The node before address `a`, going round the ring. */
  ghost function PrevNode(cfg: Config, t: seq<Block>, a: int): int {
    Nodes(cfg, t)[Gap(Nodes(cfg, t), a)]
  }

  /** The pool grown by a block of `g` units that is released at once. */
  ghost function Grow(cfg: Config, s: Arena, g: nat): Arena {
    Arena(Release(s.tiles + [Block(s.brk, g, false)], |s.tiles|),
          s.brk + HEADER_SIZE * g,
          PrevNode(cfg, s.tiles, s.brk))
  }

  /** The first call points the rover at `base`. */
  ghost function Started(cfg: Config, s: Arena): Arena {
    if s.rover == 0 then s.(rover := cfg.base) else s
  }

  ghost function Malloc(cfg: Config, s: Arena, nBytes: nat): (Arena, Option<int>) {
    var n := Units(nBytes);
    var s0 := Started(cfg, s);
    var g := Max(n, cfg.minGrow);
    match NextFit(s0.tiles, s0.rover, n)
    case Some(j) => Take(cfg, s0, j, n)
    case None =>
      if s0.brk + HEADER_SIZE * g > cfg.end then (s0, None)
      else
        var s1 := Grow(cfg, s0, g);
        match NextFit(s1.tiles, s1.rover, n)
        case Some(j) => Take(cfg, s1, j, n)
        case None => (s1, None)
  }

  /** `ap` was handed out and has not been given back. */
  ghost predicate IsLive(s: Arena, ap: int) {
    var j := IndexOf(s.tiles, ap - HEADER_SIZE);
    j < |s.tiles| && !s.tiles[j].free
  }

  ghost function Free(cfg: Config, s: Arena, ap: int): Arena
    requires IsLive(s, ap)
  {
    var j := IndexOf(s.tiles, ap - HEADER_SIZE);
    Arena(Release(s.tiles, j), s.brk, PrevNode(cfg, s.tiles, ap - HEADER_SIZE))
  }

  // ---------------------------------------------------------------- searching

  lemma {:induction false} FirstFitFails(t: seq<Block>, after: int, n: nat)
    ensures FirstFit(t, after, n).None? <==> forall b <- t :: !(b.Fits(n) && b.addr > after)
  {
    if t != [] {
      FirstFitFails(t[1..], after, n);
      assert forall b <- t :: b == t[0] || b in t[1..];
      assert t[0] in t;
      assert forall b <- t[1..] :: b in t;
    }
  }

  lemma {:induction false} FirstFitFirst(t: seq<Block>, after: int, n: nat, j: nat)
    requires j < |t| && t[j].Fits(n) && t[j].addr > after
    requires forall i :: 0 <= i < j ==> !(t[i].Fits(n) && t[i].addr > after)
    ensures FirstFit(t, after, n) == Some(j)
  {
    if j > 0 {
      assert !(t[0].Fits(n) && t[0].addr > after);
      forall i | 0 <= i < j - 1
        ensures !(t[1..][i].Fits(n) && t[1..][i].addr > after)
      {
        assert t[1..][i] == t[i + 1];
      }
      FirstFitFirst(t[1..], after, n, j - 1);
    }
  }

  /** Next fit fails only when no block anywhere is large enough. */
  lemma NextFitFails(cfg: Config, s: Arena, n: nat)
    requires WellFormed(cfg, s)
    ensures NextFit(s.tiles, s.rover, n).None? <==> forall b <- s.tiles :: !b.Fits(n)
  {
    FirstFitFails(s.tiles, s.rover, n);
    FirstFitFails(s.tiles, 0, n);
    CoversInside(s.tiles, cfg.lo, s.brk);
  }

  /** After growing there is a block that fits, so a second growth is never needed. */
  lemma GrowFits(cfg: Config, s: Arena, g: nat, n: nat)
    requires WellFormed(cfg, s) && g >= n && g >= 1
    ensures exists b <- Grow(cfg, s, g).tiles :: b.Fits(n)
  {
    var t := s.tiles + [Block(s.brk, g, false)];
    var m := Merged(t, |s.tiles|);
    assert m.Fits(n);
    assert m in Grow(cfg, s, g).tiles;
  }

  // ---------------------------------------------------------------- nodes

  lemma NodesAscend(cfg: Config, t: seq<Block>, hi: int)
    requires cfg.Ok() && Covers(t, cfg.lo, hi) && hi <= cfg.end
    ensures Ascending(Nodes(cfg, t)) && cfg.base in Nodes(cfg, t)
    ensures forall x <- Nodes(cfg, t) :: x > 0 && (x == cfg.base || cfg.lo <= x < hi)
  {
    FreesSorted(t, cfg.lo, hi);
    var f := Frees(t);
    assert Nodes(cfg, t)[if cfg.base < cfg.lo then 0 else |f|] == cfg.base;
    assert forall i :: 0 <= i < |f| ==> f[i] in f;
  }

  lemma AddLive(cfg: Config, s: Arena, g: nat)
    requires WellFormed(cfg, s) && g >= 1
    ensures var t := s.tiles + [Block(s.brk, g, false)];
            && Covers(t, cfg.lo, s.brk + HEADER_SIZE * g) && Coalesced(t)
            && Nodes(cfg, t) == Nodes(cfg, s.tiles)
            && Live(t) == Live(s.tiles) + {Block(s.brk, g, false)}
  {
    var b := Block(s.brk, g, false);
    assert Covers([b], s.brk, b.End());
    CoversJoin(s.tiles, [b], cfg.lo, s.brk, b.End());
    FreesConcat(s.tiles, [b]);
    assert forall x :: x in s.tiles + [b] <==> x in s.tiles || x == b;
  }

  // ---------------------------------------------------------------- preservation

  /** A node other than the carved block itself is still a node after carving. */
  lemma TakeKeeps(cfg: Config, s: Arena, j: nat, n: nat)
    requires WellFormed(cfg, s) && s.rover != 0 && n >= 1
    requires j < |s.tiles| && s.tiles[j].Fits(n)
    ensures WellFormed(cfg, Take(cfg, s, j, n).0)
    ensures Take(cfg, s, j, n).0.rover != 0
  {
    var t, t' := s.tiles, Carve(s.tiles, j, n);
    CarveCovers(t, j, n, cfg.lo, s.brk);
    CarveCoalesced(t, j, n);
    NodesAscend(cfg, t, s.brk);
    NodesAscend(cfg, t', s.brk);
    var a := t[j].addr;
    FreesComplete(t, a);
    assert t[j] in t;
    var nodes := Nodes(cfg, t);
    CarveNodes(cfg, t, j, n);
    BelowSplits(nodes, a);
    var p := PrevNode(cfg, t, a);
    assert p in nodes && a in nodes;
    CoversInside(t, cfg.lo, s.brk);
    assert cfg.base != a;
    assert p != a by {
      var x :| 0 <= x < |nodes| && nodes[x] == a;
      var y :| 0 <= y < |nodes| && nodes[y] == cfg.base;
    }
  }

  lemma CarveFrees(t: seq<Block>, j: nat, n: nat)
    requires j < |t| && t[j].Fits(n)
    ensures Frees(Carve(t, j, n)) == Frees(t[..j]) + (if t[j].units == n then [] else [t[j].addr]) + Frees(t[j + 1..])
  {
    var r := Carve(t, j, n);
    FreesAround(r, j);
    assert r[..j] == t[..j];
    if t[j].units == n {
      assert r[j + 1..] == t[j + 1..];
    } else {
      var rest := r[j + 1..];
      assert rest[0] == Block(CarveAddr(t, j, n), n, false);
      assert rest[1..] == t[j + 1..];
    }
  }

  /** Position of the ring node of block `j`, or of the gap where it would go. */
  ghost function NodeIndex(cfg: Config, t: seq<Block>, j: nat): nat
    requires j <= |t|
  {
    |Frees(t[..j])| + BaseFirst(cfg)
  }

  /** Carving all of a block takes its node off the list; carving part of it leaves the list alone. */
  lemma CarveNodes(cfg: Config, t: seq<Block>, j: nat, n: nat)
    requires j < |t| && t[j].Fits(n)
    ensures var k := NodeIndex(cfg, t, j);
            k < |Nodes(cfg, t)| && Nodes(cfg, t)[k] == t[j].addr
    ensures t[j].units != n ==> Nodes(cfg, Carve(t, j, n)) == Nodes(cfg, t)
    ensures t[j].units == n ==>
      var k := NodeIndex(cfg, t, j);
      Nodes(cfg, Carve(t, j, n)) == Nodes(cfg, t)[..k] + Nodes(cfg, t)[k + 1..]
  {
    var pre, post := Frees(t[..j]), Frees(t[j + 1..]);
    FreesAround(t, j);
    CarveFrees(t, j, n);
    NodesWithout(cfg, pre, t[j].addr, post);
    assert pre + [] + post == pre + post;
  }

  lemma NodesWithout(cfg: Config, pre: seq<int>, a: int, post: seq<int>)
    ensures var nodes, k := WithBase(cfg, pre + [a] + post), |pre| + BaseFirst(cfg);
            k < |nodes| && nodes[k] == a && WithBase(cfg, pre + post) == nodes[..k] + nodes[k + 1..]
  {
  }

  /** The list after a release, as the ring operation `Inserted` gives it. */
  lemma ReleaseNodes(cfg: Config, t: seq<Block>, j: nat, hi: int)
    requires cfg.Ok() && Covers(t, cfg.lo, hi) && hi <= cfg.end && j < |t| && !t[j].free
    ensures var nodes, k := Nodes(cfg, t), Below(Nodes(cfg, t), t[j].addr);
            && (FreeAbove(t, j) ==> k < |nodes| && nodes[k] == t[j + 1].addr)
            && (FreeBelow(t, j) ==> k > 0 && nodes[k - 1] == t[j - 1].addr)
            && Nodes(cfg, Release(t, j)) == Inserted(nodes, k, t[j].addr, FreeBelow(t, j), FreeAbove(t, j))
  {
    BelowHere(cfg, t, j, hi);
    var below := if FreeBelow(t, j) then [t[j - 1].addr] else [];
    var above := if FreeAbove(t, j) then [t[j + 1].addr] else [];
    var lower, upper := Frees(Lower(t, j)), Frees(Upper(t, j));
    ReleasedSplit(t, j, lower, below, above, upper);
    ReleasedNodes(cfg, Frees(t), Frees(Release(t, j)), lower, below, t[j].addr, above, upper,
                  FreeBelow(t, j), FreeAbove(t, j), Below(Nodes(cfg, t), t[j].addr));
  }

  lemma ReleasedNodes(cfg: Config, before: seq<int>, after: seq<int>, lower: seq<int>, below: seq<int>, a: int,
                      above: seq<int>, upper: seq<int>, isBelow: bool, isAbove: bool, k: nat)
    requires |below| <= 1 && |above| <= 1 && isBelow == (below != []) && isAbove == (above != [])
    requires before == (lower + below) + (above + upper) && k == |lower + below| + BaseFirst(cfg)
    requires after == (lower + (if below != [] then below else [a])) + upper
    ensures var nodes := WithBase(cfg, before);
            && k <= |nodes|
            && (isAbove ==> k < |nodes| && nodes[k] == above[0])
            && (isBelow ==> k > 0 && nodes[k - 1] == below[0])
            && WithBase(cfg, after) == Inserted(nodes, k, a, isBelow, isAbove)
  {
    InsertedNodes(cfg, lower, below, a, above, upper);
  }

  lemma ReleasedSplit(t: seq<Block>, j: nat, lower: seq<int>, below: seq<int>, above: seq<int>, upper: seq<int>)
    requires j < |t| && !t[j].free
    requires below == (if FreeBelow(t, j) then [t[j - 1].addr] else []) && lower == Frees(Lower(t, j))
    requires above == (if FreeAbove(t, j) then [t[j + 1].addr] else []) && upper == Frees(Upper(t, j))
    ensures Frees(t) == (lower + below) + (above + upper) && Frees(t[..j]) == lower + below
    ensures Frees(Release(t, j)) == (lower + (if below != [] then below else [t[j].addr])) + upper
  {
    FreesAround(t, j);
    ReleasedFrees(t, j);
    NothingBetween(Frees(t[..j]), Frees(t[j + 1..]));
  }

  lemma NothingBetween(p: seq<int>, q: seq<int>)
    ensures p + [] + q == p + q
  {
  }

  lemma InsertedNodes(cfg: Config, lower: seq<int>, below: seq<int>, a: int, above: seq<int>, upper: seq<int>)
    requires |below| <= 1 && |above| <= 1
    ensures var nodes, k := WithBase(cfg, (lower + below) + (above + upper)), |lower + below| + BaseFirst(cfg);
            && k <= |nodes|
            && (above != [] ==> k < |nodes| && nodes[k] == above[0])
            && (below != [] ==> k > 0 && nodes[k - 1] == below[0])
            && WithBase(cfg, (lower + (if below != [] then below else [a])) + upper)
               == Inserted(nodes, k, a, below != [], above != [])
  {
    var mid := if below != [] then below else [a];
    var nodes := WithBase(cfg, (lower + below) + (above + upper));
    if cfg.base < cfg.lo {
      var low := [cfg.base] + lower;
      InsertedSplit(low, below, a, above, upper);
      assert nodes == (low + below) + (above + upper);
      assert [cfg.base] + ((lower + mid) + upper) == (low + mid) + upper;
    } else {
      var up := upper + [cfg.base];
      InsertedSplit(lower, below, a, above, up);
      assert nodes == (lower + below) + (above + up);
      assert ((lower + mid) + upper) + [cfg.base] == (lower + mid) + up;
    }
  }

  lemma InsertedSplit(pre: seq<int>, below: seq<int>, a: int, above: seq<int>, post: seq<int>)
    requires |below| <= 1 && |above| <= 1
    ensures var nodes, k := (pre + below) + (above + post), |pre + below|;
            && (above != [] ==> k < |nodes| && nodes[k] == above[0])
            && (below != [] ==> k > 0 && nodes[k - 1] == below[0])
            && Inserted(nodes, k, a, below != [], above != []) == (pre + (if below != [] then below else [a])) + post
  {
    var nodes, k := (pre + below) + (above + post), |pre + below|;
    assert nodes[..k] == pre + below;
    assert nodes[if above != [] then k + 1 else k..] == post;
  }

  /** Block `j` sits after the free blocks of lower index, and after `base` when that is below. */
  lemma BelowHere(cfg: Config, t: seq<Block>, j: nat, hi: int)
    requires cfg.Ok() && Covers(t, cfg.lo, hi) && hi <= cfg.end && j < |t|
    ensures Below(Nodes(cfg, t), t[j].addr) == NodeIndex(cfg, t, j)
    ensures t[j].addr in Nodes(cfg, t) <==> t[j].free
  {
    var a := t[j].addr;
    var pre := Frees(t[..j]);
    var post := (if t[j].free then [a] else []) + Frees(t[j + 1..]);
    FreesAround(t, j);
    FreesAboutIndex(t, j, cfg.lo, hi);
    CoversInside(t, cfg.lo, hi);
    assert t[j] in t;
    assert Frees(t) == pre + post;
    BelowWithBase(cfg, pre, post, a);
  }

  lemma BelowWithBase(cfg: Config, pre: seq<int>, post: seq<int>, a: int)
    requires cfg.Ok() && cfg.lo <= a < cfg.end
    requires forall x :: x in pre ==> x < a
    requires forall x :: x in post ==> x >= a
    ensures Below(WithBase(cfg, pre + post), a) == |pre| + BaseFirst(cfg)
    ensures a in WithBase(cfg, pre + post) <==> a in post
  {
    var low := if cfg.base < cfg.lo then [cfg.base] + pre else pre;
    var high := if cfg.base < cfg.lo then post else post + [cfg.base];
    assert WithBase(cfg, pre + post) == low + high;
    forall i | 0 <= i < |low| ensures low[i] < a {
      assert low[i] in low;
    }
    forall i | 0 <= i < |high| ensures high[i] >= a {
      assert high[i] in high;
    }
    BelowConcat(low, high, a);
  }

  lemma {:induction false} BelowConcat(pre: seq<int>, post: seq<int>, a: int)
    requires forall i :: 0 <= i < |pre| ==> pre[i] < a
    requires forall i :: 0 <= i < |post| ==> post[i] >= a
    ensures Below(pre + post, a) == |pre|
  {
    if pre != [] {
      BelowConcat(pre[1..], post, a);
      assert (pre + post)[1..] == pre[1..] + post;
    }
  }

  lemma FreesAboutIndex(t: seq<Block>, j: nat, lo: int, hi: int)
    requires Covers(t, lo, hi) && j < |t|
    ensures forall x :: x in Frees(t[..j]) ==> x < t[j].addr
    ensures forall x {:trigger x in Frees(t[j + 1..])} :: x in Frees(t[j + 1..]) ==> x > t[j].addr
  {
    CoversSplit(t, j, lo, hi);
    CoversSplit(t, j + 1, lo, hi);
    FreesSorted(t[..j], lo, t[j].addr);
    FreesSorted(t[j + 1..], Boundary(t, j + 1, hi), hi);
    CoversInside(t, lo, hi);
    assert t[j] in t;
    if j + 1 < |t| { CoversOrdered(t, lo, hi, j, j + 1); }
  }

  lemma ReleasedFrees(t: seq<Block>, j: nat)
    requires j < |t|
    ensures Frees(Release(t, j)) == Frees(Lower(t, j)) + [Merged(t, j).addr] + Frees(Upper(t, j))
    ensures Frees(t[..j]) == Frees(Lower(t, j)) + (if FreeBelow(t, j) then [t[j - 1].addr] else [])
    ensures Frees(t[j + 1..]) == (if FreeAbove(t, j) then [t[j + 1].addr] else []) + Frees(Upper(t, j))
  {
    var r := Release(t, j);
    var p := |Lower(t, j)|;
    FreesAround(r, p);
    assert r[..p] == Lower(t, j) && r[p + 1..] == Upper(t, j);
    FreesBelow(t, j);
    FreesAbove(t, j);
  }

  lemma FreesBelow(t: seq<Block>, j: nat)
    requires j < |t|
    ensures Frees(t[..j]) == Frees(Lower(t, j)) + (if FreeBelow(t, j) then [t[j - 1].addr] else [])
  {
    if FreeBelow(t, j) {
      FreesAround(t[..j], j - 1);
      assert t[..j][..j - 1] == Lower(t, j) && t[..j][j..] == [];
    }
  }

  lemma FreesAbove(t: seq<Block>, j: nat)
    requires j < |t|
    ensures Frees(t[j + 1..]) == (if FreeAbove(t, j) then [t[j + 1].addr] else []) + Frees(Upper(t, j))
  {
    if FreeAbove(t, j) {
      FreesAround(t[j + 1..], 0);
      assert t[j + 1..][1..] == Upper(t, j) && t[j + 1..][..0] == [];
    }
  }

  lemma ReleaseKeeps(cfg: Config, t: seq<Block>, j: nat, hi: int)
    requires cfg.Ok() && Covers(t, cfg.lo, hi) && Coalesced(t) && hi <= cfg.end
    requires j < |t| && !t[j].free
    ensures WellFormed(cfg, Arena(Release(t, j), hi, PrevNode(cfg, t, t[j].addr)))
    ensures PrevNode(cfg, t, t[j].addr) != 0
  {
    ReleaseCovers(t, j, cfg.lo, hi);
    ReleaseCoalesces(t, j);
    ReleaseNodes(cfg, t, j, hi);
    NodesAscend(cfg, t, hi);
    var nodes := Nodes(cfg, t);
    var a := t[j].addr;
    assert PrevNode(cfg, t, a) in nodes;
    if |nodes| == 1 && FreeAbove(t, j) {
      BaseIsNoBlock(cfg, t, hi, j + 1);
      assert false;
    }
    GapSurvives(nodes, a, FreeBelow(t, j), FreeAbove(t, j));
  }

  lemma BaseIsNoBlock(cfg: Config, t: seq<Block>, hi: int, j: nat)
    requires cfg.Ok() && Covers(t, cfg.lo, hi) && hi <= cfg.end && j < |t|
    ensures t[j].addr != cfg.base && t[j].End() != cfg.base
  {
    CoversInside(t, cfg.lo, hi);
    assert t[j] in t;
  }

  lemma GapSurvives(nodes: seq<int>, a: int, below: bool, above: bool)
    requires nodes != [] && (above ==> Below(nodes, a) < |nodes| && |nodes| >= 2) && (below ==> Below(nodes, a) > 0)
    ensures nodes[Gap(nodes, a)] in Inserted(nodes, Below(nodes, a), a, below, above)
  {
    var k, g := Below(nodes, a), Gap(nodes, a);
    var r := Inserted(nodes, k, a, below, above);
    if k > 0 {
      assert r[g] == nodes[g];
    } else {
      assert r[|r| - 1] == nodes[g];
    }
  }

  lemma GrowKeeps(cfg: Config, s: Arena, g: nat)
    requires WellFormed(cfg, s) && s.rover != 0 && g >= 1 && s.brk + HEADER_SIZE * g <= cfg.end
    ensures WellFormed(cfg, Grow(cfg, s, g)) && Grow(cfg, s, g).rover != 0
    ensures Live(Grow(cfg, s, g).tiles) == Live(s.tiles)
  {
    var b := Block(s.brk, g, false);
    var t := s.tiles + [b];
    AddLive(cfg, s, g);
    ReleaseKeeps(cfg, t, |s.tiles|, b.End());
    assert t[|s.tiles|] == b;
    assert Grow(cfg, s, g) == Arena(Release(t, |s.tiles|), b.End(), PrevNode(cfg, t, b.addr));
    GrowLive(cfg, s, g);
  }

  lemma GrowLive(cfg: Config, s: Arena, g: nat)
    requires WellFormed(cfg, s) && g >= 1
    ensures Live(Grow(cfg, s, g).tiles) == Live(s.tiles)
  {
    var b := Block(s.brk, g, false);
    var t := s.tiles + [b];
    AddLive(cfg, s, g);
    ReleaseLive(t, |s.tiles|, cfg.lo, b.End());
    CoversInside(s.tiles, cfg.lo, s.brk);
    assert b !in s.tiles;
  }

  /** Releasing a live block keeps the pool well formed and takes exactly that block out of use. */
  lemma FreeKeeps(cfg: Config, s: Arena, ap: int)
    requires WellFormed(cfg, s) && IsLive(s, ap)
    ensures WellFormed(cfg, Free(cfg, s, ap)) && Free(cfg, s, ap).rover != 0
    ensures Live(Free(cfg, s, ap).tiles) == Live(s.tiles) - {LiveBlock(s, ap)}
  {
    var j := IndexOf(s.tiles, ap - HEADER_SIZE);
    ReleaseKeeps(cfg, s.tiles, j, s.brk);
    ReleaseLive(s.tiles, j, cfg.lo, s.brk);
  }

  /** A served request: one more live block, clear of the old ones, aligned, and large enough. */
  ghost predicate Serves(cfg: Config, s: Arena, s': Arena, ap: int, nBytes: nat) {
    var b := Block(ap - HEADER_SIZE, Units(nBytes), false);
    && Live(s'.tiles) == Live(s.tiles) + {b}
    && ap + nBytes <= b.End()
    && cfg.lo <= b.addr && b.End() <= s'.brk <= cfg.end
    && (b.addr - cfg.lo) % HEADER_SIZE == 0
    && forall c <- Live(s.tiles) :: c.End() <= b.addr || b.End() <= c.addr
  }

  /** What a call may leave behind: a served request, or the same blocks. */
  ghost predicate Outcome(cfg: Config, s: Arena, nBytes: nat, s': Arena, ap: Option<int>) {
    && WellFormed(cfg, s') && s'.rover != 0
    && match ap
       case None => s'.tiles == s.tiles && s'.brk == s.brk
       case Some(a) => Serves(cfg, s, s', a, nBytes)
  }

  /**
   Allocation keeps the pool well formed.  A successful call serves the request; a failing one
   leaves every block alone.
   */
  lemma MallocKeeps(cfg: Config, s: Arena, nBytes: nat)
    requires WellFormed(cfg, s)
    ensures Outcome(cfg, s, nBytes, Malloc(cfg, s, nBytes).0, Malloc(cfg, s, nBytes).1)
  {
    var n := Units(nBytes);
    var s0 := Started(cfg, s);
    var g := Max(n, cfg.minGrow);
    StartedKeeps(cfg, s);
    match NextFit(s0.tiles, s0.rover, n)
    case Some(j) =>
      TakeServes(cfg, s0, j, nBytes);
    case None =>
      if s0.brk + HEADER_SIZE * g <= cfg.end {
        GrowThenTakeServes(cfg, s0, g, nBytes);
      }
  }

  lemma StartedKeeps(cfg: Config, s: Arena)
    requires WellFormed(cfg, s)
    ensures WellFormed(cfg, Started(cfg, s)) && Started(cfg, s).rover != 0
  {
    NodesAscend(cfg, s.tiles, s.brk);
  }

  lemma GrowThenTakeServes(cfg: Config, s: Arena, g: nat, nBytes: nat)
    requires WellFormed(cfg, s) && s.rover != 0 && g >= Units(nBytes) && s.brk + HEADER_SIZE * g <= cfg.end
    ensures var s1 := Grow(cfg, s, g);
            var j := NextFit(s1.tiles, s1.rover, Units(nBytes));
            && j.Some?
            && Outcome(cfg, s, nBytes, Take(cfg, s1, j.value, Units(nBytes)).0, Take(cfg, s1, j.value, Units(nBytes)).1)
  {
    var s1 := Grow(cfg, s, g);
    GrowKeeps(cfg, s, g);
    SecondSearch(cfg, s, g, Units(nBytes));
    TakeServes(cfg, s1, NextFit(s1.tiles, s1.rover, Units(nBytes)).value, nBytes);
  }

  lemma SecondSearch(cfg: Config, s: Arena, g: nat, n: nat)
    requires WellFormed(cfg, Grow(cfg, s, g)) && WellFormed(cfg, s) && g >= n && g >= 1
    ensures NextFit(Grow(cfg, s, g).tiles, Grow(cfg, s, g).rover, n).Some?
  {
    GrowFits(cfg, s, g, n);
    NextFitFails(cfg, Grow(cfg, s, g), n);
  }

  lemma TakeServes(cfg: Config, s: Arena, j: nat, nBytes: nat)
    requires WellFormed(cfg, s) && s.rover != 0 && j < |s.tiles| && s.tiles[j].Fits(Units(nBytes))
    ensures Outcome(cfg, s, nBytes, Take(cfg, s, j, Units(nBytes)).0, Take(cfg, s, j, Units(nBytes)).1)
  {
    var n := Units(nBytes);
    TakeKeeps(cfg, s, j, n);
    var t' := Carve(s.tiles, j, n);
    var b := Block(CarveAddr(s.tiles, j, n), n, false);
    CarveLive(s.tiles, j, n, cfg.lo, s.brk);
    CoversInside(t', cfg.lo, s.brk);
    CoversAligned(t', cfg.lo, s.brk);
    assert b in Live(t');
    forall c <- Live(s.tiles)
      ensures c.End() <= b.addr || b.End() <= c.addr
    {
      assert c in Live(t');
      DistinctDisjoint(t', cfg.lo, s.brk, b, c);
    }
  }

  lemma DistinctDisjoint(t: seq<Block>, lo: int, hi: int, b: Block, c: Block)
    requires Covers(t, lo, hi) && b in t && c in t && b != c
    ensures c.End() <= b.addr || b.End() <= c.addr
  {
    var x :| 0 <= x < |t| && t[x] == c;
    var y :| 0 <= y < |t| && t[y] == b;
    if x < y { CoversOrdered(t, lo, hi, x, y); } else { CoversOrdered(t, lo, hi, y, x); }
  }

  /** The exact failure condition: nothing fits, and the pool cannot grow by the larger of the two sizes. */
  lemma MallocFailsIff(cfg: Config, s: Arena, nBytes: nat)
    requires WellFormed(cfg, s)
    ensures Malloc(cfg, s, nBytes).1.None?
      <==> (forall b <- s.tiles :: !b.Fits(Units(nBytes)))
           && s.brk + HEADER_SIZE * Max(Units(nBytes), cfg.minGrow) > cfg.end
  {
    var n := Units(nBytes);
    var s0 := Started(cfg, s);
    StartedKeeps(cfg, s);
    NextFitFails(cfg, s0, n);
    var g := Max(n, cfg.minGrow);
    if NextFit(s0.tiles, s0.rover, n).None? && s0.brk + HEADER_SIZE * g <= cfg.end {
      GrowKeeps(cfg, s0, g);
      SecondSearch(cfg, s0, g, n);
    }
  }

  // ---------------------------------------------------------------- runs

  datatype Op = Alloc(nBytes: nat) | Dealloc(ap: int)

  function Start(cfg: Config): Arena {
    Arena([], cfg.lo, 0)
  }

  /** Every release in the run names a block that is live at that point. */
  ghost predicate Legal(cfg: Config, s: Arena, ops: seq<Op>)
    decreases |ops|
  {
    if ops == [] then true
    else match ops[0]
      case Alloc(n) => Legal(cfg, Malloc(cfg, s, n).0, ops[1..])
      case Dealloc(ap) => IsLive(s, ap) && Legal(cfg, Free(cfg, s, ap), ops[1..])
  }

  ghost function Run(cfg: Config, s: Arena, ops: seq<Op>): Arena
    requires Legal(cfg, s, ops)
    decreases |ops|
  {
    if ops == [] then s
    else match ops[0]
      case Alloc(n) => Run(cfg, Malloc(cfg, s, n).0, ops[1..])
      case Dealloc(ap) => Run(cfg, Free(cfg, s, ap), ops[1..])
  }

  /** Whatever the run, free and live blocks tile the grown pool and no two free blocks touch. */
  lemma {:induction false} RunKeepsShape(cfg: Config, s: Arena, ops: seq<Op>)
    requires WellFormed(cfg, s) && Legal(cfg, s, ops)
    ensures WellFormed(cfg, Run(cfg, s, ops)) && s.brk <= Run(cfg, s, ops).brk
    decreases |ops|
  {
    if ops != [] {
      match ops[0]
      case Alloc(n) =>
        MallocKeeps(cfg, s, n);
        RunKeepsShape(cfg, Malloc(cfg, s, n).0, ops[1..]);
      case Dealloc(ap) =>
        FreeKeeps(cfg, s, ap);
        RunKeepsShape(cfg, Free(cfg, s, ap), ops[1..]);
    }
  }

  // ---------------------------------------------------------------- canonical form

  /** Two runs that leave the same break and the same live blocks leave the same pool. */
  lemma RunsAgree(cfg: Config, ops: seq<Op>, ops': seq<Op>)
    requires cfg.Ok() && Legal(cfg, Start(cfg), ops) && Legal(cfg, Start(cfg), ops')
    requires Run(cfg, Start(cfg), ops).brk == Run(cfg, Start(cfg), ops').brk
    requires Live(Run(cfg, Start(cfg), ops).tiles) == Live(Run(cfg, Start(cfg), ops').tiles)
    ensures Run(cfg, Start(cfg), ops).tiles == Run(cfg, Start(cfg), ops').tiles
  {
    RunKeepsShape(cfg, Start(cfg), ops);
    RunKeepsShape(cfg, Start(cfg), ops');
    CanonicalUnique(Run(cfg, Start(cfg), ops).tiles, Run(cfg, Start(cfg), ops').tiles, cfg.lo,
        Run(cfg, Start(cfg), ops).brk);
  }

  /** The live block behind a pointer that was handed out. */
  ghost function LiveBlock(s: Arena, ap: int): (b: Block)
    requires IsLive(s, ap)
    ensures b in Live(s.tiles) && b.addr == ap - HEADER_SIZE
  {
    s.tiles[IndexOf(s.tiles, ap - HEADER_SIZE)]
  }

  lemma LiveBlockUnique(cfg: Config, s: Arena, ap: int, b: Block)
    requires WellFormed(cfg, s) && b in Live(s.tiles) && b.addr == ap - HEADER_SIZE
    ensures IsLive(s, ap) && LiveBlock(s, ap) == b
  {
    var x :| 0 <= x < |s.tiles| && s.tiles[x] == b;
    IndexOfFinds(s.tiles, cfg.lo, s.brk, x);
  }

  /** The order in which two live blocks are released does not matter. */
  lemma FreesCommute(cfg: Config, s: Arena, x: int, y: int)
    requires WellFormed(cfg, s) && x != y && IsLive(s, x) && IsLive(s, y)
    ensures IsLive(Free(cfg, s, x), y) && IsLive(Free(cfg, s, y), x)
    ensures Free(cfg, Free(cfg, s, x), y).tiles == Free(cfg, Free(cfg, s, y), x).tiles
  {
    var a := FreeBoth(cfg, s, x, y);
    var b := FreeBoth(cfg, s, y, x);
    SameLeft(cfg, a, b, Live(s.tiles), LiveBlock(s, x), LiveBlock(s, y));
  }

  lemma SameLeft(cfg: Config, a: Arena, b: Arena, live: set<Block>, p: Block, q: Block)
    requires WellFormed(cfg, a) && WellFormed(cfg, b) && a.brk == b.brk
    requires Live(a.tiles) == live - {p, q} && Live(b.tiles) == live - {q, p}
    ensures a.tiles == b.tiles
  {
    CanonicalUnique(a.tiles, b.tiles, cfg.lo, a.brk);
  }

  lemma FreeBoth(cfg: Config, s: Arena, x: int, y: int) returns (s2: Arena)
    requires WellFormed(cfg, s) && x != y && IsLive(s, x) && IsLive(s, y)
    ensures IsLive(Free(cfg, s, x), y) && s2 == Free(cfg, Free(cfg, s, x), y)
    ensures WellFormed(cfg, s2) && s2.brk == s.brk
    ensures Live(s2.tiles) == Live(s.tiles) - {LiveBlock(s, x), LiveBlock(s, y)}
  {
    var s1 := Free(cfg, s, x);
    FreeKeeps(cfg, s, x);
    StillLive(cfg, s, s1, x, y);
    FreeKeeps(cfg, s1, y);
    FreeKeepsBreak(cfg, s, x);
    FreeKeepsBreak(cfg, s1, y);
    s2 := Free(cfg, s1, y);
  }

  lemma FreeKeepsBreak(cfg: Config, s: Arena, ap: int)
    requires IsLive(s, ap)
    ensures Free(cfg, s, ap).brk == s.brk
  {
  }

  /** Another live block stays what it was. */
  lemma StillLive(cfg: Config, s: Arena, s1: Arena, x: int, y: int)
    requires WellFormed(cfg, s1) && x != y && IsLive(s, x) && IsLive(s, y)
    requires Live(s1.tiles) == Live(s.tiles) - {LiveBlock(s, x)}
    ensures IsLive(s1, y) && LiveBlock(s1, y) == LiveBlock(s, y)
  {
    LiveBlockUnique(cfg, s1, y, LiveBlock(s, y));
  }

  lemma FreeUndoesServe(cfg: Config, s: Arena, nBytes: nat, s': Arena, ap: int)
    requires WellFormed(cfg, s) && Outcome(cfg, s, nBytes, s', Some(ap)) && s'.brk == s.brk
    ensures IsLive(s', ap) && Free(cfg, s', ap).tiles == s.tiles
  {
    var b := Block(ap - HEADER_SIZE, Units(nBytes), false);
    assert b !in Live(s.tiles);
    LiveBlockUnique(cfg, s', ap, b);
    FreeKeeps(cfg, s', ap);
    var t' := Free(cfg, s', ap).tiles;
    assert Live(t') == Live(s.tiles);
    CanonicalUnique(t', s.tiles, cfg.lo, s.brk);
  }

  /** Allocating and releasing again restores the pool, unless the pool had to grow. */
  lemma FreeUndoesMalloc(cfg: Config, s: Arena, nBytes: nat)
    requires WellFormed(cfg, s) && Malloc(cfg, s, nBytes).1.Some?
    requires Malloc(cfg, s, nBytes).0.brk == s.brk
    ensures var (s', ap) := Malloc(cfg, s, nBytes);
            IsLive(s', ap.value) && Free(cfg, s', ap.value).tiles == s.tiles
  {
    var (s', ap) := Malloc(cfg, s, nBytes);
    MallocKeeps(cfg, s, nBytes);
    FreeUndoesServe(cfg, s, nBytes, s', ap.value);
  }

  lemma NothingLive(t: seq<Block>)
    requires Live(t) == {} && Coalesced(t)
    ensures |t| <= 1 && forall i :: 0 <= i < |t| ==> t[i].free
  {
    assert |t| > 1 ==> !(t[0].free && t[1].free);
    forall i | 0 <= i < |t| ensures t[i].free {
      assert t[i] !in Live(t);
    }
  }

  /** When everything has been given back, the whole grown pool is one free block. */
  lemma AllFreeIsOneBlock(cfg: Config, ops: seq<Op>)
    requires cfg.Ok() && Legal(cfg, Start(cfg), ops)
    requires Live(Run(cfg, Start(cfg), ops).tiles) == {}
    ensures var s := Run(cfg, Start(cfg), ops);
            if s.brk == cfg.lo then s.tiles == []
            else |s.tiles| == 1 && s.tiles[0].free && s.tiles[0].addr == cfg.lo && s.tiles[0].End() == s.brk
  {
    RunKeepsShape(cfg, Start(cfg), ops);
    var s := Run(cfg, Start(cfg), ops);
    var t := s.tiles;
    CoversInside(t, cfg.lo, s.brk);
    if t != [] {
      CoversLast(t, cfg.lo, s.brk);
      NothingLive(t);
    }
  }
}
