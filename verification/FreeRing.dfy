/**
 The free list as it lies in memory: headers whose `ptr` fields form one cycle
 through the nodes in address order, with a single step back from the highest
 node to the lowest.
 */
module FreeRing {
  import opened Tiling

  datatype Header = Header(ptr: int, size: nat)

  type Headers = map<int, Header>

  ghost predicate Ascending(nodes: seq<int>) {
    forall i, j :: 0 <= i < j < |nodes| ==> nodes[i] < nodes[j]
  }

  ghost function Succ(nodes: seq<int>, i: nat): int
    requires i < |nodes|
  {
    if i + 1 < |nodes| then nodes[i + 1] else nodes[0]
  }

  /** Node `i` points at the node that follows it. */
  ghost predicate Linked(nodes: seq<int>, mem: Headers, i: nat) {
    i < |nodes| ==> nodes[i] in mem && mem[nodes[i]].ptr == Succ(nodes, i)
  }

  /** Following `ptr` from any node visits exactly `nodes`, in order, and wraps once. */
  ghost predicate Ring(nodes: seq<int>, mem: Headers) {
    && nodes != []
    && Ascending(nodes)
    && forall i: nat {:trigger Linked(nodes, mem, i)} :: Linked(nodes, mem, i)
  }

  /** How many leading nodes lie below address `a`. */
  ghost function Below(nodes: seq<int>, a: int): (k: nat)
    ensures k <= |nodes|
  {
    if nodes == [] || nodes[0] >= a then 0 else 1 + Below(nodes[1..], a)
  }

  lemma {:induction false} BelowSplits(nodes: seq<int>, a: int)
    requires Ascending(nodes)
    ensures forall i :: 0 <= i < Below(nodes, a) ==> nodes[i] < a
    ensures forall i :: Below(nodes, a) <= i < |nodes| ==> nodes[i] >= a
  {
    if nodes != [] && nodes[0] < a {
      BelowSplits(nodes[1..], a);
    }
  }

  lemma {:induction false} BelowIs(nodes: seq<int>, a: int, k: nat)
    requires Ascending(nodes) && k <= |nodes|
    requires forall i :: 0 <= i < k ==> nodes[i] < a
    requires forall i :: k <= i < |nodes| ==> nodes[i] >= a
    ensures Below(nodes, a) == k
  {
    if k > 0 {
      BelowIs(nodes[1..], a, k - 1);
    }
  }

  /** The node after which a block at `a` belongs, going round the ring. */
  ghost function Gap(nodes: seq<int>, a: int): (g: nat)
    requires nodes != []
    ensures g < |nodes|
  {
    if Below(nodes, a) == 0 then |nodes| - 1 else Below(nodes, a) - 1
  }

  /** The test on which the insertion search leaves its loop. */
  predicate Brackets(p: int, next: int, bp: int) {
    || (bp > p && bp < next)
    || (p >= next && (bp > p || bp < next))
  }

  /** The search stops at one node only: the one whose gap holds the block. */
  lemma GapIsUnique(nodes: seq<int>, bp: int, i: nat)
    requires Ascending(nodes) && i < |nodes| && bp !in nodes
    ensures Brackets(nodes[i], Succ(nodes, i), bp) <==> i == Gap(nodes, bp)
  {
    BelowSplits(nodes, bp);
    assert nodes[i] in nodes && Succ(nodes, i) in nodes && nodes[0] in nodes;
    assert i + 1 < |nodes| ==> nodes[i] < nodes[i + 1];
    assert i > 0 ==> nodes[0] < nodes[i];
  }

  /** Steps from node `i` forward to node `g`: the measure of a search round the ring. */
  function Distance(i: nat, g: nat, n: nat): (d: nat)
    requires i < n && g < n
  {
    if i <= g then g - i else g + n - i
  }

  // ---------------------------------------------------------------- inserting with coalescing

  ghost predicate MeetsNext(mem: Headers, p: int, bp: int)
    requires p in mem && bp in mem
  {
    bp + HEADER_SIZE * mem[bp].size == mem[p].ptr
  }

  ghost predicate MeetsPrev(mem: Headers, p: int, bp: int)
    requires p in mem
  {
    p + HEADER_SIZE * mem[p].size == bp
  }

  /** The header bp gets: it swallows the next node when they touch. */
  ghost function Joined(mem: Headers, p: int, bp: int): Header
    requires p in mem && bp in mem && mem[p].ptr in mem
  {
    var q := mem[p].ptr;
    if MeetsNext(mem, p, bp) then Header(mem[q].ptr, mem[bp].size + mem[q].size) else Header(q, mem[bp].size)
  }

  /** The headers after block `bp` has been linked in after node `p`. */
  ghost function Splice(mem: Headers, p: int, bp: int): Headers
    requires p in mem && bp in mem && mem[p].ptr in mem
  {
    var h := Joined(mem, p, bp);
    mem[bp := h][p := if MeetsPrev(mem, p, bp) then Header(h.ptr, mem[p].size + h.size) else Header(bp, mem[p].size)]
  }

  /** The nodes after an insertion at position `k` that may absorb the node below or above. */
  ghost function Inserted(nodes: seq<int>, k: nat, bp: int, below: bool, above: bool): seq<int>
    requires k <= |nodes| && (above ==> k < |nodes|)
  {
    nodes[..k] + (if below then [] else [bp]) + nodes[if above then k + 1 else k..]
  }

  /** Block `bp` belongs after node `p`, and `k` nodes lie below it. */
  ghost predicate Inserting(nodes: seq<int>, mem: Headers, bp: int, p: int, k: nat) {
    && Ring(nodes, mem)
    && bp in mem && bp !in nodes && mem[bp].size >= 1
    && k == Below(nodes, bp) && p == nodes[Gap(nodes, bp)] && p in mem && mem[p].ptr in mem
    && (MeetsNext(mem, p, bp) ==> k < |nodes| && mem[p].ptr == nodes[k])
    && (MeetsPrev(mem, p, bp) ==> k > 0)
  }

  /** The same, and the block does not end at the only node of the ring. */
  ghost predicate Placed(nodes: seq<int>, mem: Headers, bp: int, p: int, k: nat) {
    Inserting(nodes, mem, bp, p, k) && (MeetsNext(mem, p, bp) ==> |nodes| >= 2)
  }

  lemma InsertingAtGap(nodes: seq<int>, mem: Headers, bp: int)
    requires Ring(nodes, mem) && bp in mem && bp !in nodes && mem[bp].size >= 1
    ensures Inserting(nodes, mem, bp, nodes[Gap(nodes, bp)], Below(nodes, bp))
  {
    BelowSplits(nodes, bp);
    var k, g := Below(nodes, bp), Gap(nodes, bp);
    var next := if g + 1 < |nodes| then g + 1 else 0;
    assert Linked(nodes, mem, g) && Linked(nodes, mem, next);
    assert nodes[g] in nodes;
  }

  lemma PlacedAtGap(nodes: seq<int>, mem: Headers, bp: int)
    requires Ring(nodes, mem) && bp in mem && bp !in nodes && mem[bp].size >= 1
    requires |nodes| == 1 ==> bp + HEADER_SIZE * mem[bp].size != nodes[0]
    ensures Placed(nodes, mem, bp, nodes[Gap(nodes, bp)], Below(nodes, bp))
  {
    InsertingAtGap(nodes, mem, bp);
    assert Linked(nodes, mem, Gap(nodes, bp));
  }

  lemma InsertedAscends(nodes: seq<int>, k: nat, bp: int, below: bool, above: bool)
    requires Ascending(nodes) && k <= |nodes| && (above ==> k < |nodes|) && (below ==> k > 0)
    requires forall i :: 0 <= i < k ==> nodes[i] < bp
    requires forall i :: k <= i < |nodes| ==> nodes[i] > bp
    ensures Ascending(Inserted(nodes, k, bp, below, above))
    ensures Inserted(nodes, k, bp, below, above) != []
  {
  }

  /** Inserting keeps the ring whole; at most one node is lost, the one that was absorbed. */
  lemma SpliceKeepsRing(nodes: seq<int>, mem: Headers, bp: int, p: int, k: nat)
    requires Placed(nodes, mem, bp, p, k)
    ensures Ring(Inserted(nodes, k, bp, MeetsPrev(mem, p, bp), MeetsNext(mem, p, bp)), Splice(mem, p, bp))
  {
    BelowSplits(nodes, bp);
    var below, above := MeetsPrev(mem, p, bp), MeetsNext(mem, p, bp);
    var r := Inserted(nodes, k, bp, below, above);
    assert forall i :: k <= i < |nodes| ==> nodes[i] in nodes && nodes[i] > bp;
    InsertedAscends(nodes, k, bp, below, above);
    forall i: nat
      ensures Linked(r, Splice(mem, p, bp), i)
    {
      if i < |r| {
        if i < k {
          LinkBelow(nodes, mem, bp, p, k, i);
        } else if i == k && !below {
          LinkInserted(nodes, mem, bp, p, k);
        } else {
          LinkAbove(nodes, mem, bp, p, k, i);
        }
      }
    }
  }

  lemma LinkBelow(nodes: seq<int>, mem: Headers, bp: int, p: int, k: nat, i: nat)
    requires Placed(nodes, mem, bp, p, k) && i < k
    ensures Linked(Inserted(nodes, k, bp, MeetsPrev(mem, p, bp), MeetsNext(mem, p, bp)), Splice(mem, p, bp), i)
  {
    BelowSplits(nodes, bp);
    assert Linked(nodes, mem, i) && Linked(nodes, mem, k - 1) && Linked(nodes, mem, k);
    assert nodes[i] in nodes && p == nodes[k - 1];
  }

  lemma LinkInserted(nodes: seq<int>, mem: Headers, bp: int, p: int, k: nat)
    requires Placed(nodes, mem, bp, p, k) && !MeetsPrev(mem, p, bp)
    ensures Linked(Inserted(nodes, k, bp, MeetsPrev(mem, p, bp), MeetsNext(mem, p, bp)), Splice(mem, p, bp), k)
  {
    assert Linked(nodes, mem, Gap(nodes, bp)) && Linked(nodes, mem, k);
    BelowSplits(nodes, bp);
    assert p in nodes;
    var r := Inserted(nodes, k, bp, false, MeetsNext(mem, p, bp));
    assert r[k] == bp;
    assert k > 0 ==> r[0] == nodes[0];
    if MeetsNext(mem, p, bp) {
      assert k + 1 < |r| ==> r[k + 1] == nodes[k + 1];
    } else {
      assert k + 1 < |r| ==> r[k + 1] == nodes[k];
    }
    assert Splice(mem, p, bp)[bp].ptr == Succ(r, k);
  }

  lemma InsertedSucc(nodes: seq<int>, k: nat, bp: int, below: bool, above: bool, i: nat)
    requires k <= |nodes| && (above ==> k < |nodes|) && (below ==> k > 0)
    requires k + (if below then 0 else 1) <= i < |Inserted(nodes, k, bp, below, above)|
    ensures var x := i - (if below then 0 else 1) + (if above then 1 else 0);
            && k <= x < |nodes| && Inserted(nodes, k, bp, below, above)[i] == nodes[x]
            && Succ(Inserted(nodes, k, bp, below, above), i)
               == if x + 1 < |nodes| then nodes[x + 1] else if k > 0 then nodes[0] else bp
  {
  }

  lemma LinkAbove(nodes: seq<int>, mem: Headers, bp: int, p: int, k: nat, i: nat)
    requires Placed(nodes, mem, bp, p, k)
    requires k + (if MeetsPrev(mem, p, bp) then 0 else 1) <= i
    requires i < |Inserted(nodes, k, bp, MeetsPrev(mem, p, bp), MeetsNext(mem, p, bp))|
    ensures Linked(Inserted(nodes, k, bp, MeetsPrev(mem, p, bp), MeetsNext(mem, p, bp)), Splice(mem, p, bp), i)
  {
    var below, above := MeetsPrev(mem, p, bp), MeetsNext(mem, p, bp);
    InsertedSucc(nodes, k, bp, below, above, i);
    var x := i - (if below then 0 else 1) + (if above then 1 else 0);
    assert Linked(nodes, mem, x) && nodes[x] in nodes;
    assert p == nodes[if k > 0 then k - 1 else |nodes| - 1];
    if k > 0 || x + 1 < |nodes| {
    }
  }

  /** The ring after any insertion: the only node of a ring is not absorbed by a block that ends at it. */
  ghost function After(nodes: seq<int>, mem: Headers, bp: int, p: int, k: nat): seq<int>
    requires Inserting(nodes, mem, bp, p, k)
  {
    if |nodes| == 1 && MeetsNext(mem, p, bp) then [bp, nodes[0]]
    else Inserted(nodes, k, bp, MeetsPrev(mem, p, bp), MeetsNext(mem, p, bp))
  }

  lemma SpliceLeavesRing(nodes: seq<int>, mem: Headers, bp: int, p: int, k: nat)
    requires Inserting(nodes, mem, bp, p, k)
    ensures Ring(After(nodes, mem, bp, p, k), Splice(mem, p, bp))
  {
    if |nodes| == 1 && MeetsNext(mem, p, bp) {
      assert Linked(nodes, mem, 0);
      var r, mem' := After(nodes, mem, bp, p, k), Splice(mem, p, bp);
      assert mem'[bp].ptr == p && mem'[p].ptr == bp;
      forall i: nat ensures Linked(r, mem', i) {
        assert i < |r| ==> i == 0 || i == 1;
      }
    } else {
      SpliceKeepsRing(nodes, mem, bp, p, k);
    }
  }

  /** An insertion takes node `b` off the ring exactly when the block ends at `b` and `b` is not the only node. */
  lemma NodeSurvivesIff(nodes: seq<int>, mem: Headers, bp: int, p: int, k: nat, b: int)
    requires Inserting(nodes, mem, bp, p, k) && b in nodes
    requires k < |nodes| ==> bp + HEADER_SIZE * mem[bp].size <= nodes[k]
    ensures Ring(After(nodes, mem, bp, p, k), Splice(mem, p, bp))
    ensures b in After(nodes, mem, bp, p, k) <==> !(bp + HEADER_SIZE * mem[bp].size == b && |nodes| >= 2)
  {
    SpliceLeavesRing(nodes, mem, bp, p, k);
    if !(|nodes| == 1 && MeetsNext(mem, p, bp)) {
      BelowSplits(nodes, bp);
      var below, above := MeetsPrev(mem, p, bp), MeetsNext(mem, p, bp);
      assert Linked(nodes, mem, Gap(nodes, bp));
      var x :| 0 <= x < |nodes| && nodes[x] == b;
      if above && x == k {
      } else {
      }
    }
  }

  /** A released block that ends at `base` takes it off the ring of `base` and one free block. */
  lemma BaseIsLost()
    ensures var base, nodes, bp := 0x2000, [0x1000, 0x2000], 0x1800;
            var mem: Headers := map[0x1000 := Header(base, 1), base := Header(0x1000, 0), bp := Header(0, 256)];
            && Inserting(nodes, mem, bp, 0x1000, 1) && base in nodes
            && Ring([0x1000, bp], Splice(mem, 0x1000, bp))
  {
    var base, nodes, bp := 0x2000, [0x1000, 0x2000], 0x1800;
    var mem: Headers := map[0x1000 := Header(base, 1), base := Header(0x1000, 0), bp := Header(0, 256)];
    assert Below([0x2000], bp) == 0 && nodes[1..] == [0x2000];
    assert nodes[0] in nodes && nodes[1] in nodes;
    SpliceLeavesRing(nodes, mem, bp, 0x1000, 1);
    assert After(nodes, mem, bp, 0x1000, 1) == [0x1000, bp];
  }

  // ---------------------------------------------------------------- unlinking

  lemma UnlinkKeepsRing(nodes: seq<int>, mem: Headers, i: nat, h: nat)
    requires Ring(nodes, mem) && i < |nodes| && |nodes| >= 2
    requires h == if i == 0 then |nodes| - 1 else i - 1
    ensures nodes[h] in mem && nodes[i] in mem
    ensures Ring(nodes[..i] + nodes[i + 1..], mem[nodes[h] := mem[nodes[h]].(ptr := mem[nodes[i]].ptr)])
  {
    assert Linked(nodes, mem, i) && Linked(nodes, mem, h);
    var mem' := mem[nodes[h] := mem[nodes[h]].(ptr := mem[nodes[i]].ptr)];
    var r := nodes[..i] + nodes[i + 1..];
    forall x: nat
      ensures Linked(r, mem', x)
    {
      if x < |r| {
        var y := if x < i then x else x + 1;
        assert r[x] == nodes[y] && Linked(nodes, mem, y);
      }
    }
  }
}
