/**
 The heap pool seen as one address-ordered row of blocks.

 A `Block` is a header together with the units it governs; it is either on the
 free list or handed out to a caller.  `Covers` says that a row of blocks fills
 an address range with no gap and no overlap, and `Coalesced` that no two free
 blocks touch.  The operations of the allocator are functions on such rows.
 */
module Tiling {

  /** sizeof(Header) on i386: one pointer and one size_t. */
  const HEADER_SIZE := 8

  datatype Block = Block(addr: int, units: nat, free: bool) {
    function End(): int {
      addr + HEADER_SIZE * units
    }

    predicate Fits(n: nat) {
      free && units >= n
    }
  }

  /** The blocks of `t` lie back to back and fill [lo, hi). */
  ghost predicate Covers(t: seq<Block>, lo: int, hi: int) {
    if t == [] then lo == hi
    else t[0].addr == lo && t[0].units >= 1 && Covers(t[1..], t[0].End(), hi)
  }

  /** No two neighbouring blocks are both free. */
  ghost predicate Coalesced(t: seq<Block>) {
    forall i, j :: 0 <= i && j == i + 1 && j < |t| ==> !(t[i].free && t[j].free)
  }

  ghost function Live(t: seq<Block>): set<Block> {
    set b | b in t && !b.free
  }

  /** Header addresses of the free blocks, in address order. */
  ghost function Frees(t: seq<Block>): seq<int> {
    if t == [] then []
    else (if t[0].free then [t[0].addr] else []) + Frees(t[1..])
  }

  /** Index of the block whose header is at `a`, or |t| when there is none. */
  ghost function IndexOf(t: seq<Block>, a: int): (i: nat)
    ensures i <= |t|
    ensures i < |t| ==> t[i].addr == a
  {
    if t == [] || t[0].addr == a then 0 else 1 + IndexOf(t[1..], a)
  }

  /** Where index `i` of a row ending at `hi` starts. */
  ghost function Boundary(t: seq<Block>, i: nat, hi: int): int
    requires i <= |t|
  {
    if i < |t| then t[i].addr else hi
  }

  // ---------------------------------------------------------------- rows

  lemma {:induction false} CoversSplit(t: seq<Block>, i: nat, lo: int, hi: int)
    requires Covers(t, lo, hi) && i <= |t|
    ensures Covers(t[..i], lo, Boundary(t, i, hi))
    ensures Covers(t[i..], Boundary(t, i, hi), hi)
  {
    if i > 0 {
      CoversSplit(t[1..], i - 1, t[0].End(), hi);
      assert t[..i][1..] == t[1..][..i - 1];
      assert t[1..][i - 1..] == t[i..];
    } else {
      assert t[i..] == t;
    }
  }

  lemma {:induction false} CoversJoin(a: seq<Block>, b: seq<Block>, lo: int, mid: int, hi: int)
    requires Covers(a, lo, mid) && Covers(b, mid, hi)
    ensures Covers(a + b, lo, hi)
  {
    if a == [] {
      assert a + b == b;
    } else {
      CoversJoin(a[1..], b, a[0].End(), mid, hi);
      assert (a + b)[1..] == a[1..] + b;
    }
  }

  /** Every block lies inside the range and has at least its header unit. */
  lemma {:induction false} CoversInside(t: seq<Block>, lo: int, hi: int)
    requires Covers(t, lo, hi)
    ensures lo <= hi
    ensures forall b <- t :: b.units >= 1 && lo <= b.addr && b.End() <= hi
  {
    if t != [] {
      CoversInside(t[1..], t[0].End(), hi);
      assert forall b <- t :: b == t[0] || b in t[1..];
    }
  }

  /** Every header sits a whole number of units above the start of the range. */
  lemma {:induction false} CoversAligned(t: seq<Block>, lo: int, hi: int)
    requires Covers(t, lo, hi)
    ensures forall b <- t :: (b.addr - lo) % HEADER_SIZE == 0
  {
    if t != [] {
      CoversAligned(t[1..], t[0].End(), hi);
      forall b <- t
        ensures (b.addr - lo) % HEADER_SIZE == 0
      {
        if b != t[0] {
          assert b in t[1..];
          assert b.addr - lo == (b.addr - t[0].End()) + 8 * t[0].units;
        }
      }
    }
  }

  /** Blocks with smaller index end before blocks with larger index start. */
  lemma CoversOrdered(t: seq<Block>, lo: int, hi: int, i: nat, j: nat)
    requires Covers(t, lo, hi) && i < j < |t|
    ensures t[i].units >= 1 && t[i].End() <= t[j].addr
    ensures j == i + 1 ==> t[i].End() == t[j].addr
  {
    CoversSplit(t, i, lo, hi);
    var r := t[i..];
    CoversInside(r[1..], r[0].End(), hi);
    assert t[j] == r[1..][j - i - 1];
  }

  lemma CoversLast(t: seq<Block>, lo: int, hi: int)
    requires Covers(t, lo, hi) && t != []
    ensures t[0].addr == lo && t[|t| - 1].End() == hi
  {
    CoversSplit(t, |t| - 1, lo, hi);
    assert t[|t| - 1..] == [t[|t| - 1]];
  }

  lemma {:induction false} IndexOfFinds(t: seq<Block>, lo: int, hi: int, i: nat)
    requires Covers(t, lo, hi) && i < |t|
    ensures IndexOf(t, t[i].addr) == i
  {
    if i > 0 {
      CoversOrdered(t, lo, hi, 0, i);
      IndexOfFinds(t[1..], t[0].End(), hi, i - 1);
    }
  }

  /** Each byte of the range belongs to exactly one block. */
  lemma {:induction false} ByteHasOneBlock(t: seq<Block>, lo: int, hi: int, a: int)
    requires Covers(t, lo, hi) && lo <= a < hi
    ensures exists b <- t :: b.addr <= a < b.End()
    ensures forall b, c :: b in t && c in t && b.addr <= a < b.End() && c.addr <= a < c.End() ==> b == c
  {
    CoversInside(t[1..], t[0].End(), hi);
    if a < t[0].End() {
      assert t[0] in t;
    } else {
      ByteHasOneBlock(t[1..], t[0].End(), hi, a);
      var b :| b in t[1..] && b.addr <= a < b.End();
      assert b in t;
    }
    assert forall b <- t :: b == t[0] || b in t[1..];
  }

  // ---------------------------------------------------------------- free list of a row

  lemma {:induction false} FreesConcat(a: seq<Block>, b: seq<Block>)
    ensures Frees(a + b) == Frees(a) + Frees(b)
  {
    if a == [] {
      assert a + b == b;
    } else {
      FreesConcat(a[1..], b);
      assert (a + b)[1..] == a[1..] + b && (a + b)[0] == a[0];
      var head := if a[0].free then [a[0].addr] else [];
      assert Frees(a + b) == head + Frees(a[1..] + b);
      assert head + (Frees(a[1..]) + Frees(b)) == (head + Frees(a[1..])) + Frees(b);
    }
  }

  lemma FreesAround(t: seq<Block>, j: nat)
    requires j < |t|
    ensures Frees(t) == Frees(t[..j]) + (if t[j].free then [t[j].addr] else []) + Frees(t[j + 1..])
  {
    var r := t[j..];
    assert t == t[..j] + r;
    FreesConcat(t[..j], r);
    assert r[0] == t[j] && r[1..] == t[j + 1..];
    assert Frees(r) == (if t[j].free then [t[j].addr] else []) + Frees(t[j + 1..]);
  }

  /** The free list of a row ascends strictly and stays inside the range. */
  lemma {:induction false} FreesSorted(t: seq<Block>, lo: int, hi: int)
    requires Covers(t, lo, hi)
    ensures forall x <- Frees(t) :: lo <= x < hi
    ensures forall i, j :: 0 <= i < j < |Frees(t)| ==> Frees(t)[i] < Frees(t)[j]
  {
    if t != [] {
      FreesSorted(t[1..], t[0].End(), hi);
      CoversInside(t[1..], t[0].End(), hi);
      if t[0].free {
        PrependSorted(t[0].addr, Frees(t[1..]));
      }
    }
  }

  lemma PrependSorted(a: int, r: seq<int>)
    requires (forall x <- r :: a < x) && forall i, j :: 0 <= i < j < |r| ==> r[i] < r[j]
    ensures forall i, j :: 0 <= i < j < |[a] + r| ==> ([a] + r)[i] < ([a] + r)[j]
  {
    forall i, j | 0 <= i < j < |[a] + r| ensures ([a] + r)[i] < ([a] + r)[j] {
      assert ([a] + r)[j] == r[j - 1] && r[j - 1] in r;
    }
  }

  /** The free list names exactly the free blocks. */
  lemma {:induction false} FreesComplete(t: seq<Block>, x: int)
    ensures x in Frees(t) <==> exists b <- t :: b.free && b.addr == x
  {
    if t != [] {
      FreesComplete(t[1..], x);
      assert forall b <- t :: b == t[0] || b in t[1..];
      assert forall b <- t[1..] :: b in t;
      assert t[0] in t;
    }
  }

  /** The block behind entry `x` of the free list. */
  lemma {:induction false} FreesAt(t: seq<Block>, x: nat) returns (j: nat)
    requires x < |Frees(t)|
    ensures j < |t| && t[j].free && t[j].addr == Frees(t)[x] && |Frees(t[..j])| == x
  {
    if t[0].free && x == 0 {
      j := 0;
    } else {
      var k := FreesAt(t[1..], if t[0].free then x - 1 else x);
      j := k + 1;
      assert t[..j][1..] == t[1..][..k];
    }
  }

  // ---------------------------------------------------------------- canonical form

  lemma LiveTail(t: seq<Block>, lo: int, hi: int)
    requires Covers(t, lo, hi) && t != []
    ensures Live(t[1..]) == (if t[0].free then Live(t) else Live(t) - {t[0]})
  {
    CoversInside(t[1..], t[0].End(), hi);
    assert forall b <- t :: b == t[0] || b in t[1..];
    assert forall b <- t[1..] :: b in t;
  }

  /** A free first block ends where the first live block starts, or at the end of the range. */
  lemma FreeHeadEnd(t: seq<Block>, u: seq<Block>, lo: int, hi: int)
    requires Covers(t, lo, hi) && Covers(u, lo, hi) && t != [] && u != []
    requires Coalesced(t) && t[0].free && u[0].free
    requires Live(t) == Live(u)
    ensures u[0].End() <= t[0].End()
  {
    CoversInside(u, lo, hi);
    assert u[0] in u;
    if |t| == 1 {
    } else {
      assert t[1] in Live(t);
      var k :| 0 <= k < |u| && u[k] == t[1];
      CoversOrdered(u, lo, hi, 0, k);
    }
  }

  /** A coalesced row is determined by its range and its live blocks. */
  lemma {:induction false} CanonicalUnique(t: seq<Block>, u: seq<Block>, lo: int, hi: int)
    requires Covers(t, lo, hi) && Covers(u, lo, hi)
    requires Coalesced(t) && Coalesced(u)
    requires Live(t) == Live(u)
    ensures t == u
  {
    CoversInside(t, lo, hi);
    CoversInside(u, lo, hi);
    if t == [] || u == [] {
      BothEmpty(t, u, lo, hi);
    } else {
      HeadsAgree(t, u, lo, hi);
      LiveTail(t, lo, hi);
      LiveTail(u, lo, hi);
      CanonicalUnique(t[1..], u[1..], t[0].End(), hi);
      assert t == [t[0]] + t[1..] && u == [u[0]] + u[1..];
    }
  }

  lemma BothEmpty(t: seq<Block>, u: seq<Block>, lo: int, hi: int)
    requires Covers(t, lo, hi) && Covers(u, lo, hi) && (t == [] || u == [])
    ensures t == [] && u == []
  {
    if t != [] {
      CoversInside(t[1..], t[0].End(), hi);
    }
    if u != [] {
      CoversInside(u[1..], u[0].End(), hi);
    }
  }

  lemma HeadsAgree(t: seq<Block>, u: seq<Block>, lo: int, hi: int)
    requires Covers(t, lo, hi) && Covers(u, lo, hi) && t != [] && u != []
    requires Coalesced(t) && Coalesced(u)
    requires Live(t) == Live(u)
    ensures t[0] == u[0]
  {
    if !t[0].free {
      LiveHeadShared(t, u, lo, hi);
    } else if !u[0].free {
      LiveHeadShared(u, t, lo, hi);
    } else {
      FreeHeadEnd(t, u, lo, hi);
      FreeHeadEnd(u, t, lo, hi);
    }
  }

  lemma LiveHeadShared(t: seq<Block>, u: seq<Block>, lo: int, hi: int)
    requires Covers(t, lo, hi) && Covers(u, lo, hi) && t != [] && u != []
    requires !t[0].free && Live(t) <= Live(u)
    ensures t[0] == u[0]
  {
    assert t[0] in Live(t);
    var k :| 0 <= k < |u| && u[k] == t[0];
    if k > 0 {
      CoversOrdered(u, lo, hi, 0, k);
    }
  }

  /** The free blocks of a coalesced row are maximal runs of bytes outside the live blocks. */
  lemma FreeBlocksAreMaximalRuns(t: seq<Block>, lo: int, hi: int, i: nat)
    requires Covers(t, lo, hi) && Coalesced(t) && i < |t| && t[i].free
    ensures forall b <- Live(t) :: b.End() <= t[i].addr || t[i].End() <= b.addr
    ensures t[i].addr == lo || exists b <- Live(t) :: b.End() == t[i].addr
    ensures t[i].End() == hi || exists b <- Live(t) :: b.addr == t[i].End()
  {
    forall b <- Live(t)
      ensures b.End() <= t[i].addr || t[i].End() <= b.addr
    {
      var k :| 0 <= k < |t| && t[k] == b;
      if k < i { CoversOrdered(t, lo, hi, k, i); } else { CoversOrdered(t, lo, hi, i, k); }
    }
    CoversLast(t, lo, hi);
    if i > 0 {
      CoversOrdered(t, lo, hi, i - 1, i);
      assert t[i - 1] in Live(t);
    }
    if i + 1 < |t| {
      CoversOrdered(t, lo, hi, i, i + 1);
      assert t[i + 1] in Live(t);
    }
  }

  // ---------------------------------------------------------------- releasing a block

  ghost predicate FreeBelow(t: seq<Block>, j: nat)
    requires j < |t|
  {
    j > 0 && t[j - 1].free
  }

  ghost predicate FreeAbove(t: seq<Block>, j: nat)
    requires j < |t|
  {
    j + 1 < |t| && t[j + 1].free
  }

  /** What is left of block `j` once it and its free neighbours have become one free block. */
  ghost function Merged(t: seq<Block>, j: nat): Block
    requires j < |t|
  {
    var below := if FreeBelow(t, j) then t[j - 1].units else 0;
    var above := if FreeAbove(t, j) then t[j + 1].units else 0;
    Block(if FreeBelow(t, j) then t[j - 1].addr else t[j].addr, below + t[j].units + above, true)
  }

  ghost function Lower(t: seq<Block>, j: nat): seq<Block>
    requires j < |t|
  {
    if FreeBelow(t, j) then t[..j - 1] else t[..j]
  }

  ghost function Upper(t: seq<Block>, j: nat): seq<Block>
    requires j < |t|
  {
    if FreeAbove(t, j) then t[j + 2..] else t[j + 1..]
  }

  /** The row after live block `j` has been given back. */
  ghost function Release(t: seq<Block>, j: nat): seq<Block>
    requires j < |t|
  {
    Lower(t, j) + [Merged(t, j)] + Upper(t, j)
  }

  lemma ReleaseCovers(t: seq<Block>, j: nat, lo: int, hi: int)
    requires Covers(t, lo, hi) && j < |t|
    ensures Covers(Release(t, j), lo, hi)
  {
    var i := if FreeBelow(t, j) then j - 1 else j;
    var k := if FreeAbove(t, j) then j + 2 else j + 1;
    CoversSplit(t, i, lo, hi);
    CoversSplit(t, k, lo, hi);
    if i < j { CoversOrdered(t, lo, hi, i, j); }
    if j + 1 < |t| { CoversOrdered(t, lo, hi, j, j + 1); }
    if k < |t| { CoversOrdered(t, lo, hi, k - 1, k); } else { CoversLast(t, lo, hi); }
    CoversInside(t, lo, hi);
    assert t[j] in t;
    var m := Merged(t, j);
    assert m.End() == Boundary(t, k, hi);
    assert Covers([m], m.addr, m.End());
    CoversJoin(t[..i], [m], lo, m.addr, m.End());
    CoversJoin(t[..i] + [m], t[k..], lo, m.End(), hi);
  }

  lemma ReleaseCoalesces(t: seq<Block>, j: nat)
    requires Coalesced(t) && j < |t| && !t[j].free
    ensures Coalesced(Release(t, j))
  {
    var r := Release(t, j);
    var p := |Lower(t, j)|;
    var shift := |t| - |r|;
    forall i, k | 0 <= i && k == i + 1 && k < |r|
      ensures !(r[i].free && r[k].free)
    {
      if k < p {
        assert r[i] == t[i] && r[k] == t[k];
      } else if k == p {
        assert r[i] == t[i];
      } else if i == p {
        assert r[k] == t[k + shift];
      } else {
        assert r[i] == t[i + shift] && r[k] == t[k + shift];
      }
    }
  }

  /** Releasing a block takes that block, and no other, out of the live set. */
  lemma ReleaseLive(t: seq<Block>, j: nat, lo: int, hi: int)
    requires Covers(t, lo, hi) && j < |t| && !t[j].free
    ensures Live(Release(t, j)) == Live(t) - {t[j]}
  {
    var r := Release(t, j);
    forall b | b in Live(t) && b != t[j]
      ensures b in r
    {
      var x :| 0 <= x < |t| && t[x] == b;
      if x < j { assert b in Lower(t, j); } else { assert b in Upper(t, j); }
    }
    forall b | b in Live(r)
      ensures b in t && b != t[j]
    {
      ReleasedFrom(t, j, lo, hi, b);
    }
  }

  lemma ReleasedFrom(t: seq<Block>, j: nat, lo: int, hi: int, b: Block)
    requires Covers(t, lo, hi) && j < |t| && b in Release(t, j) && !b.free
    ensures b in t && b != t[j]
  {
    assert b in Lower(t, j) || b in Upper(t, j);
    if b in Lower(t, j) {
      var x :| 0 <= x < |Lower(t, j)| && Lower(t, j)[x] == b;
      assert t[x] == b;
      CoversOrdered(t, lo, hi, x, j);
    } else {
      var y :| 0 <= y < |Upper(t, j)| && Upper(t, j)[y] == b;
      var x := y + (|t| - |Upper(t, j)|);
      assert t[x] == b;
      CoversOrdered(t, lo, hi, j, x);
    }
  }

  // ---------------------------------------------------------------- carving a block

  /** The row after `n` units have been taken from the tail of free block `j`. */
  ghost function Carve(t: seq<Block>, j: nat, n: nat): seq<Block>
    requires j < |t| && t[j].Fits(n)
  {
    if t[j].units == n then
      t[..j] + [t[j].(free := false)] + t[j + 1..]
    else
      t[..j] + [t[j].(units := t[j].units - n), Block(CarveAddr(t, j, n), n, false)] + t[j + 1..]
  }

  ghost function CarveAddr(t: seq<Block>, j: nat, n: nat): int
    requires j < |t| && t[j].Fits(n)
  {
    t[j].addr + HEADER_SIZE * (t[j].units - n)
  }

  lemma CarveCovers(t: seq<Block>, j: nat, n: nat, lo: int, hi: int)
    requires Covers(t, lo, hi) && j < |t| && n >= 1 && t[j].Fits(n)
    ensures Covers(Carve(t, j, n), lo, hi)
  {
    CoversSplit(t, j, lo, hi);
    CoversSplit(t, j + 1, lo, hi);
    if j + 1 < |t| { CoversOrdered(t, lo, hi, j, j + 1); } else { CoversLast(t, lo, hi); }
    var mid := if t[j].units == n then [t[j].(free := false)]
               else [t[j].(units := t[j].units - n), Block(CarveAddr(t, j, n), n, false)];
    assert mid[1..] == if t[j].units == n then [] else [Block(CarveAddr(t, j, n), n, false)];
    assert Covers(mid, t[j].addr, t[j].End());
    CoversJoin(t[..j], mid, lo, t[j].addr, t[j].End());
    CoversJoin(t[..j] + mid, t[j + 1..], lo, t[j].End(), hi);
  }

  lemma CarveCoalesced(t: seq<Block>, j: nat, n: nat)
    requires Coalesced(t) && j < |t| && t[j].Fits(n)
    ensures Coalesced(Carve(t, j, n))
  {
    var r := Carve(t, j, n);
    var shift := |r| - |t|;
    forall i, k | 0 <= i && k == i + 1 && k < |r|
      ensures !(r[i].free && r[k].free)
    {
      if k <= j {
        assert r[i] == t[i] && r[k].free == (t[k].free && (k < j || shift == 1));
      } else if i > j + shift {
        assert r[i] == t[i - shift] && r[k] == t[k - shift];
      }
    }
  }

  /** Carving adds exactly the carved block to the live set. */
  lemma CarveLive(t: seq<Block>, j: nat, n: nat, lo: int, hi: int)
    requires Covers(t, lo, hi) && j < |t| && n >= 1 && t[j].Fits(n)
    ensures Live(Carve(t, j, n)) == Live(t) + {Block(CarveAddr(t, j, n), n, false)}
    ensures Block(CarveAddr(t, j, n), n, false) !in Live(t)
  {
    var r := Carve(t, j, n);
    var shift := |r| - |t|;
    var new_ := Block(CarveAddr(t, j, n), n, false);
    assert r[j + shift] == new_;
    forall b | b in Live(t)
      ensures b in r && b != new_
    {
      var x :| 0 <= x < |t| && t[x] == b;
      if x < j {
        CoversOrdered(t, lo, hi, x, j);
        assert r[x] == b;
      } else {
        CoversOrdered(t, lo, hi, j, x);
        assert r[x + shift] == b;
      }
    }
    forall b | b in Live(r)
      ensures b in t || b == new_
    {
      var y :| 0 <= y < |r| && r[y] == b;
      if y < j { assert t[y] == b; } else if y > j + shift { assert t[y - shift] == b; }
    }
  }
}
