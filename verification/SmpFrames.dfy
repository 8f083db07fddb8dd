/**
 The frame allocator on any number of CPUs, one shared-memory access at a time.

 A spinlock guards the bitmaps and counters; several reads happen outside it.  What such
 a read may return is left open: the step that depends on it may go either way, so the
 theorems hold however stale the value is.  Read-modify-write statements on shared words
 (the bitmap word, both counters) are a load step and a store step.
 */
module SmpFrames {
  import opened Bitmap
  import opened FrameSpec
  import opened PhysicalMemory

  /** A block: index of its region and number inside the region. */
  type Frame = (nat, nat)

  /** Where a CPU stands.  The comments give the statement it executes next. */
  datatype Pc =
    | Idle
    // get_free_frame
    | EnterSpin                             // lock around the static declaration
    | EnterLocked                           // unlock again
    | Enter                                 // unlocked reads of the total and of the hint
    | Visit(r: nat)                         // unlocked read of the region's counter
    | AllocSpin(r: nat)                     // swap on the lock word
    | AllocSearch(r: nat)                   // first unset bit
    | AllocLoad(r: nat, b: nat)             // load the bitmap word
    | AllocStore(r: nat, b: nat, w: Word32) // store it with the bit set
    | AllocLoadUsed(r: nat, b: nat)
    | AllocStoreUsed(r: nat, b: nat, v: int)
    | AllocLoadTotal(r: nat, b: nat)
    | AllocStoreTotal(r: nat, b: nat, v: int)
    | AllocHint(r: nat, b: nat)             // move the hint when the region is full
    | AllocUnlock(r: nat, b: nat)           // unlock and return the frame
    | AllocMiss(r: nat)                     // unlock and go on to the next region
    // free_frame
    | FreeTest(r: nat, b: nat)              // unlocked test of the bit
    | FreeSpin(r: nat, b: nat)
    | FreeLoad(r: nat, b: nat)
    | FreeStore(r: nat, b: nat, w: Word32)
    | FreeLoadUsed(r: nat, b: nat)
    | FreeStoreUsed(r: nat, b: nat, v: int)
    | FreeLoadTotal(r: nat, b: nat)
    | FreeStoreTotal(r: nat, b: nat, v: int)
    | FreeUnlock
    | Panicked(r: nat, b: nat)              // stopped after the test in free_frame

  /** What the lock protects. */
  datatype Data = Data(mem: seq<bool>, used: seq<int>, total: int)

  datatype State = State(
    lock: bool,
    data: Data,
    hint: int,
    pcs: seq<Pc>,
    held: seq<set<Frame>>)

  // ---------------------------------------------------------------- steps

  ghost function Goto(s: State, c: nat, pc: Pc): State
    requires c < |s.pcs|
  {
    s.(pcs := s.pcs[c := pc])
  }

  /** After region `r`: the next element of the list, or return -1. */
  ghost function Onward(rs: seq<Region>, r: nat): Pc {
    if r + 1 < |rs| then Visit(r + 1) else Idle
  }

  function WordOf(r: Region, b: nat): nat {
    r.bitmap + b / 32 * 4
  }

  /** `arch_atomic_swap(1, &lock)`: whoever finds 0 has the lock, everyone else tries again. */
  ghost predicate Swap(s: State, s': State, c: nat, next: Pc)
    requires c < |s.pcs|
  {
    s' == if s.lock then s else Goto(s, c, next).(lock := true)
  }

  ghost predicate InRange(rs: seq<Region>, f: Frame) {
    f.0 < |rs| && f.1 < rs[f.0].totalBlocks
  }

  ghost predicate WordFits(rs: seq<Region>, m: nat, r: nat, b: nat) {
    r < |rs| && 8 * WordOf(rs[r], b) + 32 <= m
  }

  /** CPU `c` executes one statement. */
  ghost predicate Step(rs: seq<Region>, s: State, s': State, c: nat)
    requires Shape(rs, s)
  {
    c < |s.pcs| &&
    match s.pcs[c]
    case Idle =>
      || s' == Goto(s, c, EnterSpin)
      || exists f <- s.held[c] :: s' == Goto(s, c, FreeTest(f.0, f.1)).(held := s.held[c := s.held[c] - {f}])
    case EnterSpin => Swap(s, s', c, EnterLocked)
    case EnterLocked => s' == Goto(s, c, Enter).(lock := false)
    case Enter => s' == Goto(s, c, Idle) || exists r: nat :: r < |rs| && s' == Goto(s, c, Visit(r))
    case Visit(r) => s' == Goto(s, c, AllocSpin(r)) || s' == Goto(s, c, Onward(rs, r))
    case AllocSpin(r) => Swap(s, s', c, AllocSearch(r))
    case AllocSearch(r) =>
      r < |rs| &&
      var b := LeastFree(rs[r], s.data.mem, 0);
      s' == Goto(s, c, if b < rs[r].totalBlocks then AllocLoad(r, b) else AllocMiss(r))
    case AllocLoad(r, b) =>
      WordFits(rs, |s.data.mem|, r, b) && s' == Goto(s, c, AllocStore(r, b, WordAt(s.data.mem, WordOf(rs[r], b))))
    case AllocStore(r, b, w) =>
      WordFits(rs, |s.data.mem|, r, b) &&
      s' == Goto(s, c, AllocLoadUsed(r,
          b)).(data := s.data.(mem := StoreWord(s.data.mem, WordOf(rs[r], b), Or(w, Mask(b % 32)))))
    case AllocLoadUsed(r, b) => r < |rs| && s' == Goto(s, c, AllocStoreUsed(r, b, s.data.used[r]))
    case AllocStoreUsed(r, b, v) => r < |rs|
        && s' == Goto(s, c, AllocLoadTotal(r, b)).(data := s.data.(used := s.data.used[r := v + 1]))
    case AllocLoadTotal(r, b) => s' == Goto(s, c, AllocStoreTotal(r, b, s.data.total))
    case AllocStoreTotal(r, b, v) => s' == Goto(s, c, AllocHint(r, b)).(data := s.data.(total := v + 1))
    case AllocHint(r, b) =>
      r < |rs| &&
      var hint := if s.data.used[r] == rs[r].totalBlocks then Next(r, |rs|) else s.hint;
      s' == Goto(s, c, AllocUnlock(r, b)).(hint := hint)
    case AllocUnlock(r, b) => s' == Goto(s, c, Idle).(lock := false, held := s.held[c := s.held[c] + {(r, b)}])
    case AllocMiss(r) => s' == Goto(s, c, Onward(rs, r)).(lock := false)
    case FreeTest(r, b) => s' == Goto(s, c, FreeSpin(r, b)) || s' == Goto(s, c, Panicked(r, b))
    case FreeSpin(r, b) => Swap(s, s', c, FreeLoad(r, b))
    case FreeLoad(r, b) =>
      WordFits(rs, |s.data.mem|, r, b) && s' == Goto(s, c, FreeStore(r, b, WordAt(s.data.mem, WordOf(rs[r], b))))
    case FreeStore(r, b, w) =>
      WordFits(rs, |s.data.mem|, r, b) &&
      s' == Goto(s, c, FreeLoadUsed(r,
          b)).(data := s.data.(mem := StoreWord(s.data.mem, WordOf(rs[r], b), And(w, Not(Mask(b % 32))))))
    case FreeLoadUsed(r, b) => r < |rs| && s' == Goto(s, c, FreeStoreUsed(r, b, s.data.used[r]))
    case FreeStoreUsed(r, b, v) => r < |rs|
        && s' == Goto(s, c, FreeLoadTotal(r, b)).(data := s.data.(used := s.data.used[r := v - 1]))
    case FreeLoadTotal(r, b) => s' == Goto(s, c, FreeStoreTotal(r, b, s.data.total))
    case FreeStoreTotal(r, b, v) => s' == Goto(s, c, FreeUnlock).(data := s.data.(total := v - 1))
    case FreeUnlock => s' == Goto(s, c, Idle).(lock := false)
    case Panicked(_, _) => s' == s
  }

  // ---------------------------------------------------------------- invariant

  ghost predicate Shape(rs: seq<Region>, s: State) {
    DataShape(rs, s.data) && |s.held| == |s.pcs|
  }

  ghost predicate DataShape(rs: seq<Region>, s: Data) {
    WellFormed(rs, |s.mem|) && |s.used| == |rs|
  }

  /** The CPU is between taking and releasing the lock. */
  predicate Inside(pc: Pc) {
    || pc.EnterLocked? || pc.AllocSearch? || pc.AllocLoad? || pc.AllocStore? || pc.AllocLoadUsed?
    || pc.AllocStoreUsed? || pc.AllocLoadTotal? || pc.AllocStoreTotal? || pc.AllocHint? || pc.AllocUnlock?
    || pc.AllocMiss? || pc.FreeLoad? || pc.FreeStore? || pc.FreeLoadUsed? || pc.FreeStoreUsed?
    || pc.FreeLoadTotal? || pc.FreeStoreTotal? || pc.FreeUnlock?
  }

  /** The frame a CPU is in the middle of taking or giving back, while its bit is set on its behalf. */
  function InFlight(pc: Pc): set<Frame> {
    if pc.AllocLoadUsed? || pc.AllocStoreUsed? || pc.AllocLoadTotal? || pc.AllocStoreTotal? || pc.AllocHint?
       || pc.AllocUnlock? || pc.FreeTest? || pc.FreeSpin? || pc.FreeLoad? || pc.FreeStore? || pc.Panicked?
    then {(pc.r, pc.b)}
    else {}
  }

  ghost function Owned(s: State, c: nat): set<Frame>
    requires c < |s.pcs| && |s.held| == |s.pcs|
  {
    s.held[c] + InFlight(s.pcs[c])
  }

  ghost function Counts(rs: seq<Region>, mem: seq<bool>): seq<nat>
    requires WellFormed(rs, |mem|)
  {
    seq(|rs|, i requires 0 <= i < |rs| => Used(rs[i], mem))
  }

  /** The counters, off by `du` in region `r` and by `dt` in total. */
  ghost predicate OffBy(rs: seq<Region>, s: Data, r: nat, du: int, dt: int)
    requires DataShape(rs, s)
  {
    && (forall i :: 0 <= i < |rs| ==> s.used[i] == Used(rs[i], s.mem) + if i == r then du else 0)
    && s.total == Sum(Counts(rs, s.mem)) + dt
  }

  ghost predicate Balanced(rs: seq<Region>, s: Data)
    requires DataShape(rs, s)
  {
    OffBy(rs, s, 0, 0, 0)
  }

  /** What is true of the shared state at each point inside the lock. */
  ghost predicate Local(rs: seq<Region>, s: Data, pc: Pc)
    requires DataShape(rs, s)
  {
    match pc
    case AllocLoad(r, b) => InRange(rs, (r, b)) && !Taken(rs[r], s.mem, b) && Balanced(rs, s)
    case AllocStore(r, b, w) =>
      && InRange(rs, (r, b)) && !Taken(rs[r], s.mem, b) && Balanced(rs, s)
      && WordFits(rs, |s.mem|, r, b) && w == WordAt(s.mem, WordOf(rs[r], b))
    case AllocLoadUsed(r, b) => OffBy(rs, s, r, -1, -1)
    case AllocStoreUsed(r, b, v) => OffBy(rs, s, r, -1, -1) && r < |rs| && v == s.used[r]
    case AllocLoadTotal(r, b) => OffBy(rs, s, r, 0, -1)
    case AllocStoreTotal(r, b, v) => OffBy(rs, s, r, 0, -1) && v == s.total
    case FreeStore(r, b, w) =>
      && Balanced(rs, s) && WordFits(rs, |s.mem|, r, b) && w == WordAt(s.mem, WordOf(rs[r], b))
    case FreeLoadUsed(r, b) => OffBy(rs, s, r, 1, 1) && r < |rs|
    case FreeStoreUsed(r, b, v) => OffBy(rs, s, r, 1, 1) && r < |rs| && v == s.used[r]
    case FreeLoadTotal(r, b) => OffBy(rs, s, r, 0, 1)
    case FreeStoreTotal(r, b, v) => OffBy(rs, s, r, 0, 1) && v == s.total
    case _ => Balanced(rs, s)
  }

  /** At most one CPU is inside the lock, and the lock word says whether one is. */
  ghost predicate Exclusive(s: State) {
    && (forall c, d :: 0 <= c < |s.pcs| && 0 <= d < |s.pcs| && Inside(s.pcs[c]) && Inside(s.pcs[d]) ==> c == d)
    && (s.lock <==> exists c :: 0 <= c < |s.pcs| && Inside(s.pcs[c]))
  }

  /** No frame belongs to two CPUs, or to one CPU twice. */
  ghost predicate NoSharing(s: State)
    requires |s.held| == |s.pcs|
  {
    && (forall c, d :: 0 <= c < |s.pcs| && 0 <= d < |s.pcs| && c != d ==> Owned(s, c) !! Owned(s, d))
    && (forall c :: 0 <= c < |s.pcs| ==> s.held[c] !! InFlight(s.pcs[c]))
  }

  /** Every owned frame's bit is set, and every set bit is accounted for. */
  ghost predicate BitsMatch(rs: seq<Region>, s: State, reserved: set<Frame>)
    requires Shape(rs, s)
  {
    && (forall c, f :: 0 <= c < |s.pcs| && f in Owned(s, c)
           ==> InRange(rs, f) && f !in reserved && Taken(rs[f.0], s.data.mem, f.1))
    && (forall f <- reserved :: InRange(rs, f) && Taken(rs[f.0], s.data.mem, f.1))
    && (forall r: nat, b: nat :: InRange(rs, (r, b)) && Taken(rs[r], s.data.mem, b)
          ==> (r, b) in reserved || exists c :: 0 <= c < |s.pcs| && (r, b) in Owned(s, c))
  }

  ghost predicate Inv(rs: seq<Region>, s: State, reserved: set<Frame>) {
    && Shape(rs, s)
    && Exclusive(s) && NoSharing(s) && BitsMatch(rs, s, reserved)
    && (forall c :: 0 <= c < |s.pcs| && Inside(s.pcs[c]) ==> Local(rs, s.data, s.pcs[c]))
    && (!s.lock ==> Balanced(rs, s.data))
    && (forall c :: 0 <= c < |s.pcs| ==> Heading(rs, s.pcs[c]))
  }

  /** Region numbers carried along the search are list positions. */
  ghost predicate Heading(rs: seq<Region>, pc: Pc) {
    (pc.Visit? || pc.AllocSpin? || pc.AllocSearch? || pc.AllocMiss? || pc.AllocHint?) ==> pc.r < |rs|
  }

  ghost predicate Init(rs: seq<Region>, s: State, reserved: set<Frame>) {
    && Shape(rs, s) && !s.lock && Balanced(rs, s.data)
    && (forall c :: 0 <= c < |s.pcs| ==> s.pcs[c] == Idle && s.held[c] == {})
    && (forall r: nat, b: nat :: InRange(rs, (r, b)) ==> ((r, b) in reserved <==> Taken(rs[r], s.data.mem, b)))
    && (forall f <- reserved :: InRange(rs, f))
  }

  // ---------------------------------------------------------------- one CPU moves

  /** All CPUs but `c` stay as they are. */
  ghost predicate Alone(s: State, s': State, c: nat) {
    && |s.held| == |s.pcs| && |s'.held| == |s.pcs| && |s'.pcs| == |s.pcs| && c < |s.pcs|
    && (forall d :: 0 <= d < |s.pcs| && d != c ==> s'.pcs[d] == s.pcs[d] && s'.held[d] == s.held[d])
  }

  /** What a step does to the lock: nothing, take it when it is free, or give it back. */
  ghost predicate LockStep(s: State, s': State, c: nat)
    requires c < |s.pcs| && c < |s'.pcs|
  {
    || (s'.lock == s.lock && Inside(s'.pcs[c]) == Inside(s.pcs[c]))
    || (!s.lock && s'.lock && Inside(s'.pcs[c]))
    || (Inside(s.pcs[c]) && !s'.lock && !Inside(s'.pcs[c]))
  }

  /** The lock protocol keeps at most one CPU inside. */
  lemma ExclusiveKept(s: State, s': State, c: nat)
    requires Exclusive(s) && Alone(s, s', c) && LockStep(s, s', c)
    ensures Exclusive(s')
  {
    if s'.lock {
      if Inside(s'.pcs[c]) {
      } else {
        var d :| 0 <= d < |s.pcs| && Inside(s.pcs[d]);
        assert Inside(s'.pcs[d]);
      }
    }
    forall d, e | 0 <= d < |s'.pcs| && 0 <= e < |s'.pcs| && Inside(s'.pcs[d]) && Inside(s'.pcs[e])
      ensures d == e
    {
      assert d != c ==> Inside(s.pcs[d]);
      assert e != c ==> Inside(s.pcs[e]);
    }
  }

  /** Frames owned before and after are the same ones. */
  lemma OwnershipKept(rs: seq<Region>, s: State, s': State, c: nat, reserved: set<Frame>)
    requires Shape(rs, s) && Shape(rs, s') && Alone(s, s', c) && s'.data.mem == s.data.mem
    requires NoSharing(s) && BitsMatch(rs, s, reserved)
    requires Owned(s', c) == Owned(s, c) && s'.held[c] !! InFlight(s'.pcs[c])
    ensures NoSharing(s') && BitsMatch(rs, s', reserved)
  {
    assert forall d :: 0 <= d < |s.pcs| ==> Owned(s', d) == Owned(s, d);
  }

  lemma StoreSets(rs: seq<Region>, mem: seq<bool>, r: nat, b: nat)
    requires WellFormed(rs, |mem|) && InRange(rs, (r, b)) && WordFits(rs, |mem|, r, b)
    ensures rs[r].Pos(b) < |mem|
    ensures StoreWord(mem, WordOf(rs[r], b), Or(WordAt(mem, WordOf(rs[r], b)), Mask(b % 32)))
            == mem[rs[r].Pos(b) := true]
    ensures StoreWord(mem, WordOf(rs[r], b), And(WordAt(mem, WordOf(rs[r], b)), Not(Mask(b % 32))))
            == mem[rs[r].Pos(b) := false]
  {
    OrSetsOne(mem, WordOf(rs[r], b), b % 32);
    AndClearsOne(mem, WordOf(rs[r], b), b % 32);
    assert 8 * WordOf(rs[r], b) + b % 32 == rs[r].Pos(b);
  }

  lemma OtherBits(rs: seq<Region>, mem: seq<bool>, r: nat, b: nat, v: bool)
    requires WellFormed(rs, |mem|) && InRange(rs, (r, b))
    ensures var mem' := mem[rs[r].Pos(b) := v];
            forall q: nat, e: nat :: InRange(rs, (q, e)) ==>
              Taken(rs[q], mem', e) == if (q, e) == (r, b) then v else Taken(rs[q], mem, e)
  {
    forall q: nat, e: nat | InRange(rs, (q, e))
      ensures Taken(rs[q], mem[rs[r].Pos(b) := v], e) == if (q, e) == (r, b) then v else Taken(rs[q], mem, e)
    {
      BitsDisjoint(rs, |mem|, r, q, b, e);
    }
  }

  /** Setting the bit of a free frame gives that frame to the CPU. */
  lemma OwnershipGained(rs: seq<Region>, s: State, s': State, c: nat, reserved: set<Frame>, f: Frame)
    requires Shape(rs, s) && Shape(rs, s') && Alone(s, s', c)
    requires NoSharing(s) && BitsMatch(rs, s, reserved)
    requires InRange(rs, f) && !Taken(rs[f.0], s.data.mem, f.1)
             && s'.data.mem == s.data.mem[rs[f.0].Pos(f.1) := true]
    requires s'.held[c] == s.held[c] && InFlight(s.pcs[c]) == {} && InFlight(s'.pcs[c]) == {f}
    ensures NoSharing(s') && BitsMatch(rs, s', reserved)
  {
    OtherBits(rs, s.data.mem, f.0, f.1, true);
    forall d | 0 <= d < |s.pcs| ensures f !in Owned(s, d) && (d != c ==> Owned(s', d) == Owned(s, d)) {
    }
    assert Owned(s', c) == Owned(s, c) + {f};
    forall r: nat, b: nat | InRange(rs, (r, b)) && Taken(rs[r], s'.data.mem, b)
      ensures (r, b) in reserved || exists d :: 0 <= d < |s'.pcs| && (r, b) in Owned(s', d)
    {
      if (r, b) != f && (r, b) !in reserved {
        var d :| 0 <= d < |s.pcs| && (r, b) in Owned(s, d);
        assert (r, b) in Owned(s', d);
      } else if (r, b) == f {
        assert f in Owned(s', c);
      }
    }
  }

  /** Clearing the bit of an owned frame takes that frame from the CPU. */
  lemma OwnershipLost(rs: seq<Region>, s: State, s': State, c: nat, reserved: set<Frame>, f: Frame)
    requires Shape(rs, s) && Shape(rs, s') && Alone(s, s', c)
    requires NoSharing(s) && BitsMatch(rs, s, reserved)
    requires InRange(rs, f) && s'.data.mem == s.data.mem[rs[f.0].Pos(f.1) := false]
    requires s'.held[c] == s.held[c] && InFlight(s.pcs[c]) == {f} && InFlight(s'.pcs[c]) == {}
    ensures NoSharing(s') && BitsMatch(rs, s', reserved)
  {
    OtherBits(rs, s.data.mem, f.0, f.1, false);
    assert f in Owned(s, c) && f !in s.held[c];
    forall d | 0 <= d < |s.pcs| ensures f !in Owned(s', d) && (d != c ==> Owned(s', d) == Owned(s, d)) {
      assert d != c ==> Owned(s, c) !! Owned(s, d);
    }
    assert Owned(s', c) == Owned(s, c) - {f};
    forall r: nat, b: nat | InRange(rs, (r, b)) && Taken(rs[r], s'.data.mem, b)
      ensures (r, b) in reserved || exists d :: 0 <= d < |s'.pcs| && (r, b) in Owned(s', d)
    {
      if (r, b) !in reserved {
        var d :| 0 <= d < |s.pcs| && (r, b) in Owned(s, d);
        assert (r, b) in Owned(s', d);
      }
    }
  }

  // ---------------------------------------------------------------- counters

  lemma CountsAfterWrite(rs: seq<Region>, mem: seq<bool>, r: nat, b: nat, v: bool)
    requires WellFormed(rs, |mem|) && InRange(rs, (r, b)) && Taken(rs[r], mem, b) != v
    ensures var mem' := mem[rs[r].Pos(b) := v];
            && (forall i :: 0 <= i < |rs|
                   ==> Used(rs[i], mem') == Used(rs[i], mem) + if i == r then (if v then 1 else -1) else 0)
            && Sum(Counts(rs, mem')) == Sum(Counts(rs, mem)) + if v then 1 else -1
  {
    var mem' := mem[rs[r].Pos(b) := v];
    forall i | 0 <= i < |rs|
      ensures Used(rs[i], mem') == Used(rs[i], mem) + if i == r then (if v then 1 else -1) else 0
    {
      UsedAfterWrite(rs, mem, r, b, v, i);
    }
    SumUpdate(Counts(rs, mem), r, Used(rs[r], mem'));
    assert Counts(rs, mem') == Counts(rs, mem)[r := Used(rs[r], mem')];
  }

  // ---------------------------------------------------------------- every step keeps the invariant

  /** The part of the invariant that speaks about the lock and the data it protects. */
  lemma Assemble(rs: seq<Region>, s: State, s': State, c: nat, reserved: set<Frame>)
    requires Inv(rs, s, reserved) && Shape(rs, s') && Alone(s, s', c) && LockStep(s, s', c)
    requires NoSharing(s') && BitsMatch(rs, s', reserved)
    requires s'.data == s.data || Inside(s.pcs[c])
    requires Inside(s'.pcs[c]) ==> Local(rs, s'.data, s'.pcs[c])
    requires Inside(s.pcs[c]) && !Inside(s'.pcs[c]) ==> Balanced(rs, s'.data)
    requires Heading(rs, s'.pcs[c])
    ensures Inv(rs, s', reserved)
  {
    ExclusiveKept(s, s', c);
    forall d | 0 <= d < |s'.pcs| && Inside(s'.pcs[d]) && d != c ensures Local(rs, s'.data, s'.pcs[d]) {
      assert Inside(s.pcs[d]);
    }
    if !s'.lock && s.lock {
      assert Inside(s.pcs[c]) && !Inside(s'.pcs[c]);
    }
  }

  /** A step that writes neither bitmaps nor counters and moves no frame between CPUs. */
  lemma QuietStep(rs: seq<Region>, s: State, s': State, c: nat, reserved: set<Frame>)
    requires Inv(rs, s, reserved) && Shape(rs, s') && Alone(s, s', c) && LockStep(s, s', c)
    requires s'.data == s.data && s'.held[c] + InFlight(s'.pcs[c]) == s.held[c] + InFlight(s.pcs[c])
    requires s'.held[c] !! InFlight(s'.pcs[c])
    requires Inside(s'.pcs[c]) ==> Local(rs, s.data, s'.pcs[c])
    requires Inside(s.pcs[c]) && !Inside(s'.pcs[c]) ==> Balanced(rs, s.data)
    requires Heading(rs, s'.pcs[c])
    ensures Inv(rs, s', reserved)
  {
    assert Owned(s', c) == Owned(s, c);
    OwnershipKept(rs, s, s', c, reserved);
    Assemble(rs, s, s', c, reserved);
  }

  lemma StoreSetsBit(rs: seq<Region>, s: State, s': State, c: nat, reserved: set<Frame>)
    requires Inv(rs, s, reserved) && Step(rs, s, s', c) && s.pcs[c].AllocStore?
    ensures Inv(rs, s', reserved)
  {
    var r, b := s.pcs[c].r, s.pcs[c].b;
    assert Inside(s.pcs[c]);
    StoreSets(rs, s.data.mem, r, b);
    CountsAfterWrite(rs, s.data.mem, r, b, true);
    OwnershipGained(rs, s, s', c, reserved, (r, b));
    Assemble(rs, s, s', c, reserved);
  }

  lemma StoreClearsBit(rs: seq<Region>, s: State, s': State, c: nat, reserved: set<Frame>)
    requires Inv(rs, s, reserved) && Step(rs, s, s', c) && s.pcs[c].FreeStore?
    ensures Inv(rs, s', reserved)
  {
    var r, b := s.pcs[c].r, s.pcs[c].b;
    assert Inside(s.pcs[c]) && (r, b) in Owned(s, c);
    StoreSets(rs, s.data.mem, r, b);
    CountsAfterWrite(rs, s.data.mem, r, b, false);
    OwnershipLost(rs, s, s', c, reserved, (r, b));
    Assemble(rs, s, s', c, reserved);
  }

  /** The region's counter is stored with the block counted in. */
  lemma AllocUsedStore(rs: seq<Region>, s: State, s': State, c: nat, reserved: set<Frame>)
    requires Inv(rs, s, reserved) && Step(rs, s, s', c) && s.pcs[c].AllocStoreUsed?
    ensures Inv(rs, s', reserved)
  {
    assert Inside(s.pcs[c]) && Local(rs, s.data, s.pcs[c]);
    assert (s.pcs[c].r, s.pcs[c].b) in Owned(s, c);
    assert Owned(s', c) == Owned(s, c);
    OwnershipKept(rs, s, s', c, reserved);
    Assemble(rs, s, s', c, reserved);
  }

  /** The total is stored with the block counted in. */
  lemma AllocTotalStore(rs: seq<Region>, s: State, s': State, c: nat, reserved: set<Frame>)
    requires Inv(rs, s, reserved) && Step(rs, s, s', c) && s.pcs[c].AllocStoreTotal?
    ensures Inv(rs, s', reserved)
  {
    assert Inside(s.pcs[c]) && Local(rs, s.data, s.pcs[c]);
    assert (s.pcs[c].r, s.pcs[c].b) in Owned(s, c);
    assert Owned(s', c) == Owned(s, c);
    OwnershipKept(rs, s, s', c, reserved);
    Assemble(rs, s, s', c, reserved);
  }

  /** The region's counter is stored with the block counted out. */
  lemma FreeUsedStore(rs: seq<Region>, s: State, s': State, c: nat, reserved: set<Frame>)
    requires Inv(rs, s, reserved) && Step(rs, s, s', c) && s.pcs[c].FreeStoreUsed?
    ensures Inv(rs, s', reserved)
  {
    assert Inside(s.pcs[c]) && Local(rs, s.data, s.pcs[c]);
    assert Owned(s', c) == Owned(s, c);
    OwnershipKept(rs, s, s', c, reserved);
    Assemble(rs, s, s', c, reserved);
  }

  /** The total is stored with the block counted out. */
  lemma FreeTotalStore(rs: seq<Region>, s: State, s': State, c: nat, reserved: set<Frame>)
    requires Inv(rs, s, reserved) && Step(rs, s, s', c) && s.pcs[c].FreeStoreTotal?
    ensures Inv(rs, s', reserved)
  {
    assert Inside(s.pcs[c]) && Local(rs, s.data, s.pcs[c]);
    assert Owned(s', c) == Owned(s, c);
    OwnershipKept(rs, s, s', c, reserved);
    Assemble(rs, s, s', c, reserved);
  }

  /** The lock and unlock at the start of get_free_frame. */
  lemma EnterStep(rs: seq<Region>, s: State, s': State, c: nat, reserved: set<Frame>)
    requires Inv(rs, s, reserved) && Step(rs, s, s', c) && s.pcs[c].EnterSpin?
    ensures Inv(rs, s', reserved)
  {
    if s' != s {
      QuietStep(rs, s, s', c, reserved);
    }
  }

  /** The lock is released again, and a region chosen by unlocked reads. */
  lemma EnteredStep(rs: seq<Region>, s: State, s': State, c: nat, reserved: set<Frame>)
    requires Inv(rs, s, reserved) && Step(rs, s, s', c) && (s.pcs[c].EnterLocked? || s.pcs[c].Enter?)
    ensures Inv(rs, s', reserved)
  {
    QuietStep(rs, s, s', c, reserved);
  }

  /** A region is passed by, or tried. */
  lemma VisitStep(rs: seq<Region>, s: State, s': State, c: nat, reserved: set<Frame>)
    requires Inv(rs, s, reserved) && Step(rs, s, s', c) && s.pcs[c].Visit?
    ensures Inv(rs, s', reserved)
  {
    QuietStep(rs, s, s', c, reserved);
  }

  /** The lock is released because the region was full. */
  lemma MissStep(rs: seq<Region>, s: State, s': State, c: nat, reserved: set<Frame>)
    requires Inv(rs, s, reserved) && Step(rs, s, s', c) && s.pcs[c].AllocMiss?
    ensures Inv(rs, s', reserved)
  {
    QuietStep(rs, s, s', c, reserved);
  }

  /** A CPU spins on the lock. */
  lemma AllocSpinStep(rs: seq<Region>, s: State, s': State, c: nat, reserved: set<Frame>)
    requires Inv(rs, s, reserved) && Step(rs, s, s', c) && s.pcs[c].AllocSpin?
    ensures Inv(rs, s', reserved)
  {
    if s' != s {
      QuietStep(rs, s, s', c, reserved);
    }
  }

  /** A CPU looks for a free block under the lock. */
  lemma SearchStep(rs: seq<Region>, s: State, s': State, c: nat, reserved: set<Frame>)
    requires Inv(rs, s, reserved) && Step(rs, s, s', c) && s.pcs[c].AllocSearch?
    ensures Inv(rs, s', reserved)
  {
    if s' != s {
      QuietStep(rs, s, s', c, reserved);
    }
  }

  /** The bitmap word is loaded. */
  lemma AllocLoadStep(rs: seq<Region>, s: State, s': State, c: nat, reserved: set<Frame>)
    requires Inv(rs, s, reserved) && Step(rs, s, s', c) && s.pcs[c].AllocLoad?
    ensures Inv(rs, s', reserved)
  {
    assert Inside(s.pcs[c]) && Local(rs, s.data, s.pcs[c]);
    QuietStep(rs, s, s', c, reserved);
  }

  /** A counter is loaded. */
  lemma AllocReadStep(rs: seq<Region>, s: State, s': State, c: nat, reserved: set<Frame>)
    requires Inv(rs, s, reserved) && Step(rs, s, s', c) && (s.pcs[c].AllocLoadUsed? || s.pcs[c].AllocLoadTotal?)
    ensures Inv(rs, s', reserved)
  {
    assert Inside(s.pcs[c]) && Local(rs, s.data, s.pcs[c]);
    assert (s.pcs[c].r, s.pcs[c].b) in Owned(s, c);
    QuietStep(rs, s, s', c, reserved);
  }

  /** The hint moves on when the region is full. */
  lemma HintStep(rs: seq<Region>, s: State, s': State, c: nat, reserved: set<Frame>)
    requires Inv(rs, s, reserved) && Step(rs, s, s', c) && s.pcs[c].AllocHint?
    ensures Inv(rs, s', reserved)
  {
    assert Inside(s.pcs[c]) && Local(rs, s.data, s.pcs[c]);
    assert (s.pcs[c].r, s.pcs[c].b) in Owned(s, c);
    QuietStep(rs, s, s', c, reserved);
  }

  /** The lock is released and the frame returned. */
  lemma ReturnStep(rs: seq<Region>, s: State, s': State, c: nat, reserved: set<Frame>)
    requires Inv(rs, s, reserved) && Step(rs, s, s', c) && s.pcs[c].AllocUnlock?
    ensures Inv(rs, s', reserved)
  {
    assert Inside(s.pcs[c]) && Local(rs, s.data, s.pcs[c]);
    assert (s.pcs[c].r, s.pcs[c].b) in Owned(s, c);
    QuietStep(rs, s, s', c, reserved);
  }

  /** free_frame tests the bit without the lock. */
  lemma FreeTestStep(rs: seq<Region>, s: State, s': State, c: nat, reserved: set<Frame>)
    requires Inv(rs, s, reserved) && Step(rs, s, s', c) && s.pcs[c].FreeTest?
    ensures Inv(rs, s', reserved)
  {
    QuietStep(rs, s, s', c, reserved);
  }

  /** A CPU that has panicked stays where it is. */
  lemma PanickedStep(rs: seq<Region>, s: State, s': State, c: nat, reserved: set<Frame>)
    requires Inv(rs, s, reserved) && Step(rs, s, s', c) && s.pcs[c].Panicked?
    ensures Inv(rs, s', reserved)
  {
    assert s' == s;
  }

  /** A CPU spins on the lock to give a frame back. */
  lemma FreeSpinStep(rs: seq<Region>, s: State, s': State, c: nat, reserved: set<Frame>)
    requires Inv(rs, s, reserved) && Step(rs, s, s', c) && s.pcs[c].FreeSpin?
    ensures Inv(rs, s', reserved)
  {
    if s' != s {
      QuietStep(rs, s, s', c, reserved);
    }
  }

  /** The bitmap word is loaded. */
  lemma FreeLoadStep(rs: seq<Region>, s: State, s': State, c: nat, reserved: set<Frame>)
    requires Inv(rs, s, reserved) && Step(rs, s, s', c) && s.pcs[c].FreeLoad?
    ensures Inv(rs, s', reserved)
  {
    if s' != s {
      QuietStep(rs, s, s', c, reserved);
    }
  }

  /** A counter is loaded after the bit is cleared. */
  lemma FreeReadStep(rs: seq<Region>, s: State, s': State, c: nat, reserved: set<Frame>)
    requires Inv(rs, s, reserved) && Step(rs, s, s', c) && (s.pcs[c].FreeLoadUsed? || s.pcs[c].FreeLoadTotal?)
    ensures Inv(rs, s', reserved)
  {
    QuietStep(rs, s, s', c, reserved);
  }

  /** free_frame releases the lock. */
  lemma FreeReturnStep(rs: seq<Region>, s: State, s': State, c: nat, reserved: set<Frame>)
    requires Inv(rs, s, reserved) && Step(rs, s, s', c) && s.pcs[c].FreeUnlock?
    ensures Inv(rs, s', reserved)
  {
    QuietStep(rs, s, s', c, reserved);
  }

  /** A CPU starts a call: get_free_frame, or free_frame on a frame it holds. */
  lemma CallStep(rs: seq<Region>, s: State, s': State, c: nat, reserved: set<Frame>)
    requires Inv(rs, s, reserved) && Step(rs, s, s', c) && s.pcs[c].Idle?
    ensures Inv(rs, s', reserved)
  {
    QuietStep(rs, s, s', c, reserved);
  }

  /** Whichever CPU moves, and whatever its unlocked reads return, the invariant survives. */
  lemma StepKeepsInv(rs: seq<Region>, s: State, s': State, c: nat, reserved: set<Frame>)
    requires Inv(rs, s, reserved) && Step(rs, s, s', c)
    ensures Inv(rs, s', reserved)
  {
    match s.pcs[c]
    case Idle => CallStep(rs, s, s', c, reserved);
    case AllocStore(_, _, _) => StoreSetsBit(rs, s, s', c, reserved);
    case FreeStore(_, _, _) => StoreClearsBit(rs, s, s', c, reserved);
    case AllocStoreUsed(_, _, _) => AllocUsedStore(rs, s, s', c, reserved);
    case AllocStoreTotal(_, _, _) => AllocTotalStore(rs, s, s', c, reserved);
    case FreeStoreUsed(_, _, _) => FreeUsedStore(rs, s, s', c, reserved);
    case FreeStoreTotal(_, _, _) => FreeTotalStore(rs, s, s', c, reserved);
    case EnterSpin => EnterStep(rs, s, s', c, reserved);
    case EnterLocked => EnteredStep(rs, s, s', c, reserved);
    case Enter => EnteredStep(rs, s, s', c, reserved);
    case Visit(_) => VisitStep(rs, s, s', c, reserved);
    case AllocMiss(_) => MissStep(rs, s, s', c, reserved);
    case AllocSpin(_) => AllocSpinStep(rs, s, s', c, reserved);
    case AllocSearch(_) => SearchStep(rs, s, s', c, reserved);
    case AllocLoad(_, _) => AllocLoadStep(rs, s, s', c, reserved);
    case AllocLoadUsed(_, _) => AllocReadStep(rs, s, s', c, reserved);
    case AllocLoadTotal(_, _) => AllocReadStep(rs, s, s', c, reserved);
    case AllocHint(_, _) => HintStep(rs, s, s', c, reserved);
    case AllocUnlock(_, _) => ReturnStep(rs, s, s', c, reserved);
    case FreeTest(_, _) => FreeTestStep(rs, s, s', c, reserved);
    case Panicked(_, _) => PanickedStep(rs, s, s', c, reserved);
    case FreeSpin(_, _) => FreeSpinStep(rs, s, s', c, reserved);
    case FreeLoad(_, _) => FreeLoadStep(rs, s, s', c, reserved);
    case FreeLoadUsed(_, _) => FreeReadStep(rs, s, s', c, reserved);
    case FreeLoadTotal(_, _) => FreeReadStep(rs, s, s', c, reserved);
    case FreeUnlock => FreeReturnStep(rs, s, s', c, reserved);
  }

  // ---------------------------------------------------------------- runs

  /** Any interleaving: each state follows from the one before by a step of some CPU. */
  ghost predicate IsRun(rs: seq<Region>, run: seq<State>, reserved: set<Frame>) {
    run != [] && Init(rs, run[0], reserved) && MovesOn(rs, run)
  }

  ghost predicate MovesOn(rs: seq<Region>, run: seq<State>) {
    forall i, j :: 0 <= i && j == i + 1 && j < |run| ==> Moves(rs, run[i], run[j])
  }

  ghost predicate Moves(rs: seq<Region>, s: State, s': State) {
    Shape(rs, s) && exists c: nat :: Step(rs, s, s', c)
  }

  lemma MoveKeepsInv(rs: seq<Region>, s: State, s': State, reserved: set<Frame>)
    requires Inv(rs, s, reserved) && Moves(rs, s, s')
    ensures Inv(rs, s', reserved)
  {
    var c: nat :| Step(rs, s, s', c);
    StepKeepsInv(rs, s, s', c, reserved);
  }

  lemma InitInv(rs: seq<Region>, s: State, reserved: set<Frame>)
    requires Init(rs, s, reserved)
    ensures Inv(rs, s, reserved)
  {
    assert forall c :: 0 <= c < |s.pcs| ==> Owned(s, c) == {};
  }

  lemma RunInv(rs: seq<Region>, run: seq<State>, reserved: set<Frame>, k: nat)
    requires IsRun(rs, run, reserved) && k < |run|
    ensures Inv(rs, run[k], reserved)
  {
    InitInv(rs, run[0], reserved);
    MovesKeepInv(rs, run, reserved, k);
  }

  lemma {:induction false} MovesKeepInv(rs: seq<Region>, run: seq<State>, reserved: set<Frame>, k: nat)
    requires k < |run| && MovesOn(rs, run) && Inv(rs, run[0], reserved)
    ensures Inv(rs, run[k], reserved)
  {
    if k > 0 {
      MovesKeepInv(rs, run, reserved, k - 1);
      MoveKeepsInv(rs, run[k - 1], run[k], reserved);
    }
  }

  /**
   At every point of every interleaving: at most one CPU is inside the lock, no frame is held by or in the
   hands of two CPUs, none is in the hands of a CPU that holds it already, every held frame's bit is set, and
   whenever the lock is free the counters equal the numbers of set bits.
   */
  lemma RunIsSafe(rs: seq<Region>, run: seq<State>, reserved: set<Frame>, k: nat)
    requires IsRun(rs, run, reserved) && k < |run|
    ensures var s := run[k];
            && Shape(rs, s)
            && (forall c, d :: 0 <= c < |s.pcs| && 0 <= d < |s.pcs| && Inside(s.pcs[c]) && Inside(s.pcs[d]) ==> c == d)
            && (forall c, d :: 0 <= c < |s.pcs| && 0 <= d < |s.pcs| && c != d ==> Owned(s, c) !! Owned(s, d))
            && (forall c :: 0 <= c < |s.pcs| ==> s.held[c] !! InFlight(s.pcs[c]))
            && (forall c, f :: 0 <= c < |s.pcs| && f in s.held[c] ==> InRange(rs, f) && Taken(rs[f.0], s.data.mem, f.1))
            && (!s.lock ==> s.data.total == Sum(Counts(rs, s.data.mem))
                            && forall i :: 0 <= i < |rs| ==> s.data.used[i] == Used(rs[i], s.data.mem))
  {
    RunInv(rs, run, reserved, k);
    var s := run[k];
    forall c, f | 0 <= c < |s.pcs| && f in s.held[c] ensures InRange(rs, f) && Taken(rs[f.0], s.data.mem, f.1) {
      assert f in Owned(s, c);
    }
  }

  /** No frame leaks: a set bit is reserved, held, or in the middle of exactly one CPU's call. */
  lemma NoFrameLeaks(rs: seq<Region>, run: seq<State>, reserved: set<Frame>, k: nat, f: Frame)
    requires IsRun(rs, run, reserved) && k < |run| && InRange(rs, f)
    ensures Shape(rs, run[k])
    ensures Taken(rs[f.0], run[k].data.mem, f.1)
            <==> f in reserved || exists c :: 0 <= c < |run[k].pcs| && f in Owned(run[k], c)
  {
    RunInv(rs, run, reserved, k);
  }

  /** With an up-to-date read the double-free test of free_frame never fires on a held frame. */
  lemma FreshTestNeverPanics(rs: seq<Region>, run: seq<State>, reserved: set<Frame>, k: nat, c: nat)
    requires IsRun(rs, run, reserved) && k < |run| && c < |run[k].pcs| && run[k].pcs[c].FreeTest?
    ensures Shape(rs, run[k]) && InRange(rs, (run[k].pcs[c].r, run[k].pcs[c].b))
    ensures Taken(rs[run[k].pcs[c].r], run[k].data.mem, run[k].pcs[c].b)
  {
    RunInv(rs, run, reserved, k);
    assert (run[k].pcs[c].r, run[k].pcs[c].b) in Owned(run[k], c);
  }

  /** Steps of get_free_frame up to finding a free bit or none. */
  lemma SearchCanMove(rs: seq<Region>, s: State, reserved: set<Frame>, c: nat)
    requires Inv(rs, s, reserved) && c < |s.pcs|
    requires s.pcs[c].Idle? || s.pcs[c].EnterSpin? || s.pcs[c].EnterLocked? || s.pcs[c].Enter?
             || s.pcs[c].Visit? || s.pcs[c].AllocSpin? || s.pcs[c].AllocSearch? || s.pcs[c].AllocMiss?
    ensures exists s' :: Step(rs, s, s', c)
  {
    match s.pcs[c]
    case Idle => assert Step(rs, s, Goto(s, c, EnterSpin), c);
    case EnterSpin => assert Step(rs, s, if s.lock then s else Goto(s, c, EnterLocked).(lock := true), c);
    case EnterLocked => assert Step(rs, s, Goto(s, c, Enter).(lock := false), c);
    case Enter => assert Step(rs, s, Goto(s, c, Idle), c);
    case Visit(r) => assert Step(rs, s, Goto(s, c, AllocSpin(r)), c);
    case AllocSpin(r) => assert Step(rs, s, if s.lock then s else Goto(s, c, AllocSearch(r)).(lock := true), c);
    case AllocSearch(r) =>
      var b := LeastFree(rs[r], s.data.mem, 0);
      assert Step(rs, s, Goto(s, c, if b < rs[r].totalBlocks then AllocLoad(r, b) else AllocMiss(r)), c);
    case AllocMiss(r) => assert Step(rs, s, Goto(s, c, Onward(rs, r)).(lock := false), c);
  }

  /** Steps of get_free_frame once a free bit is found. */
  lemma AllocCanMove(rs: seq<Region>, s: State, reserved: set<Frame>, c: nat)
    requires Inv(rs, s, reserved) && c < |s.pcs|
    requires s.pcs[c].AllocLoad? || s.pcs[c].AllocStore? || s.pcs[c].AllocLoadUsed? || s.pcs[c].AllocStoreUsed?
    ensures exists s' :: Step(rs, s, s', c)
  {
    match s.pcs[c]
    case AllocLoad(r, b) =>
      WordInside(rs[r], |s.data.mem|, b);
      assert Step(rs, s, Goto(s, c, AllocStore(r, b, WordAt(s.data.mem, WordOf(rs[r], b)))), c);
    case AllocStore(r, b, w) =>
      var m := StoreWord(s.data.mem, WordOf(rs[r], b), Or(w, Mask(b % 32)));
      assert Step(rs, s, Goto(s, c, AllocLoadUsed(r, b)).(data := s.data.(mem := m)), c);
    case AllocLoadUsed(r, b) =>
      assert (r, b) in Owned(s, c);
      assert Step(rs, s, Goto(s, c, AllocStoreUsed(r, b, s.data.used[r])), c);
    case AllocStoreUsed(r, b, v) =>
      assert Step(rs, s, Goto(s, c, AllocLoadTotal(r, b)).(data := s.data.(used := s.data.used[r := v + 1])), c);
  }

  lemma AllocEndCanMove(rs: seq<Region>, s: State, reserved: set<Frame>, c: nat)
    requires Inv(rs, s, reserved) && c < |s.pcs|
    requires s.pcs[c].AllocLoadTotal? || s.pcs[c].AllocStoreTotal? || s.pcs[c].AllocHint? || s.pcs[c].AllocUnlock?
    ensures exists s' :: Step(rs, s, s', c)
  {
    match s.pcs[c]
    case AllocLoadTotal(r, b) => assert Step(rs, s, Goto(s, c, AllocStoreTotal(r, b, s.data.total)), c);
    case AllocStoreTotal(r, b, v) =>
      assert Step(rs, s, Goto(s, c, AllocHint(r, b)).(data := s.data.(total := v + 1)), c);
    case AllocHint(r, b) =>
      var hint := if s.data.used[r] == rs[r].totalBlocks then Next(r, |rs|) else s.hint;
      assert Step(rs, s, Goto(s, c, AllocUnlock(r, b)).(hint := hint), c);
    case AllocUnlock(r, b) =>
      assert Step(rs, s, Goto(s, c, Idle).(lock := false, held := s.held[c := s.held[c] + {(r, b)}]), c);
  }

  /** Steps of free_frame up to the write of the bitmap. */
  lemma FreeCanMove(rs: seq<Region>, s: State, reserved: set<Frame>, c: nat)
    requires Inv(rs, s, reserved) && c < |s.pcs|
    requires s.pcs[c].FreeTest? || s.pcs[c].FreeSpin? || s.pcs[c].FreeLoad? || s.pcs[c].FreeStore?
    ensures exists s' :: Step(rs, s, s', c)
  {
    match s.pcs[c]
    case FreeTest(r, b) => assert Step(rs, s, Goto(s, c, FreeSpin(r, b)), c);
    case FreeSpin(r, b) => assert Step(rs, s, if s.lock then s else Goto(s, c, FreeLoad(r, b)).(lock := true), c);
    case FreeLoad(r, b) =>
      assert (r, b) in Owned(s, c);
      WordInside(rs[r], |s.data.mem|, b);
      assert Step(rs, s, Goto(s, c, FreeStore(r, b, WordAt(s.data.mem, WordOf(rs[r], b)))), c);
    case FreeStore(r, b, w) =>
      var m := StoreWord(s.data.mem, WordOf(rs[r], b), And(w, Not(Mask(b % 32))));
      assert Step(rs, s, Goto(s, c, FreeLoadUsed(r, b)).(data := s.data.(mem := m)), c);
  }

  /** Steps of free_frame after the write of the bitmap. */
  lemma FreeEndCanMove(rs: seq<Region>, s: State, reserved: set<Frame>, c: nat)
    requires Inv(rs, s, reserved) && c < |s.pcs|
    requires s.pcs[c].FreeLoadUsed? || s.pcs[c].FreeStoreUsed? || s.pcs[c].FreeLoadTotal? || s.pcs[c].FreeStoreTotal?
             || s.pcs[c].FreeUnlock?
    ensures exists s' :: Step(rs, s, s', c)
  {
    match s.pcs[c]
    case FreeLoadUsed(r, b) =>
      assert Step(rs, s, Goto(s, c, FreeStoreUsed(r, b, s.data.used[r])), c);
    case FreeStoreUsed(r, b, v) =>
      assert Step(rs, s, Goto(s, c, FreeLoadTotal(r, b)).(data := s.data.(used := s.data.used[r := v - 1])), c);
    case FreeLoadTotal(r, b) => assert Step(rs, s, Goto(s, c, FreeStoreTotal(r, b, s.data.total)), c);
    case FreeStoreTotal(r, b, v) => assert Step(rs, s, Goto(s, c, FreeUnlock).(data := s.data.(total := v - 1)), c);
    case FreeUnlock => assert Step(rs, s, Goto(s, c, Idle).(lock := false), c);
  }

  /** The guards in `Step` never block: every CPU that has not panicked can move. */
  lemma EveryCpuCanMove(rs: seq<Region>, s: State, reserved: set<Frame>, c: nat)
    requires Inv(rs, s, reserved) && c < |s.pcs| && !s.pcs[c].Panicked?
    ensures exists s' :: Step(rs, s, s', c)
  {
    var pc := s.pcs[c];
    if pc.FreeTest? || pc.FreeSpin? || pc.FreeLoad? || pc.FreeStore? {
      FreeCanMove(rs, s, reserved, c);
    } else if pc.FreeLoadUsed? || pc.FreeStoreUsed? || pc.FreeLoadTotal? || pc.FreeStoreTotal? || pc.FreeUnlock? {
      FreeEndCanMove(rs, s, reserved, c);
    } else if pc.Idle? || pc.EnterSpin? || pc.EnterLocked? || pc.Enter? || pc.Visit? || pc.AllocSpin?
        || pc.AllocSearch? || pc.AllocMiss? {
      SearchCanMove(rs, s, reserved, c);
    } else if pc.AllocLoad? || pc.AllocStore? || pc.AllocLoadUsed? || pc.AllocStoreUsed? {
      AllocCanMove(rs, s, reserved, c);
    } else {
      AllocEndCanMove(rs, s, reserved, c);
    }
  }
}
