/**
 What a call of the frame allocator yields on a machine with several CPUs: what the search under the lock
 finds, whoever else runs, and what a whole call does when no other CPU moves meanwhile.
 */
module SmpCalls {
  import opened Wrappers
  import opened Bitmap
  import opened FrameSpec
  import opened PhysicalMemory
  import opened SmpFrames

  /** A region is left through the miss exactly when it is full; otherwise its least free block is taken. */
  lemma SearchFinds(rs: seq<Region>, s: State, s': State, c: nat, reserved: set<Frame>)
    requires Inv(rs, s, reserved) && Step(rs, s, s', c) && s.pcs[c].AllocSearch?
    ensures var r, pc := s.pcs[c].r, s'.pcs[c];
            && r < |rs| && s'.data == s.data && s'.held == s.held
            && (Full(rs[r], s.data.mem) ==> pc == AllocMiss(r))
            && (!Full(rs[r], s.data.mem) ==>
                  && pc.AllocLoad? && pc.r == r && pc.b < rs[r].totalBlocks && !Taken(rs[r], s.data.mem, pc.b)
                  && forall b: nat :: b < pc.b ==> Taken(rs[r], s.data.mem, b))
  {
  }

  // ---------------------------------------------------------------- a call on its own

  /** The bitmaps and the hint, as the allocator on its own has them. */
  function FramesIn(s: State): Frames {
    Frames(s.data.mem, s.hint)
  }

  /** CPU `c` goes on with its call, and what it reads without the lock is what is in memory. */
  ghost predicate ExactStep(rs: seq<Region>, s: State, s': State, c: nat)
    requires Shape(rs, s)
  {
    && Step(rs, s, s', c)
    && match s.pcs[c]
       case Idle => false
       case Enter =>
         if s.data.total == Sum(Totals(rs)) then s'.pcs[c] == Idle
         else s'.pcs[c].Visit? && s'.pcs[c].r == if s.hint == -1 then 0 else s.hint
       case Visit(r) =>
         r < |rs| && s'.pcs[c] == if s.data.used[r] < rs[r].totalBlocks then AllocSpin(r) else Onward(rs, r)
       case FreeTest(r, b) =>
         InRange(rs, (r, b)) && s'.pcs[c] == if Taken(rs[r], s.data.mem, b) then FreeSpin(r, b) else Panicked(r, b)
       case _ => true
  }

  /** No other CPU is inside the lock. */
  ghost predicate Undisturbed(s: State, c: nat) {
    c < |s.pcs| && forall d :: 0 <= d < |s.pcs| && d != c ==> !Inside(s.pcs[d])
  }

  /** Where a call may be that no other CPU disturbs. */
  ghost predicate Calling(rs: seq<Region>, s: State, c: nat, reserved: set<Frame>) {
    Inv(rs, s, reserved) && Undisturbed(s, c) && FrameSpec.Valid(rs, FramesIn(s))
  }

  /** What will be in memory, and the frames CPU `c` will hold, when its call returns. */
  datatype Result = Result(frames: Frames, held: set<Frame>)

  /** Nothing more happens. */
  function Over(s: State, c: nat): Result
    requires c < |s.held|
  {
    Result(FramesIn(s), s.held[c])
  }

  /** Block `b` of region `r` will be marked and handed out. */
  ghost function Gets(rs: seq<Region>, s: State, c: nat, r: nat, b: nat): Result
    requires FrameSpec.Valid(rs, FramesIn(s)) && c < |s.held|
  {
    if InRange(rs, (r, b)) then Result(Mark(rs, FramesIn(s), r, b), s.held[c] + {(r, b)}) else Over(s, c)
  }

  /** It is marked, and the hint is still to be moved. */
  ghost function Marked(rs: seq<Region>, s: State, c: nat, r: nat, b: nat): Result
    requires FrameSpec.Valid(rs, FramesIn(s)) && c < |s.held|
  {
    var full := r < |rs| && Used(rs[r], s.data.mem) == rs[r].totalBlocks;
    Result(Frames(s.data.mem, if full then Next(r, |rs|) else s.hint), s.held[c] + {(r, b)})
  }

  /** It will be cleared. */
  ghost function Clears(rs: seq<Region>, s: State, c: nat, r: nat, b: nat): Result
    requires FrameSpec.Valid(rs, FramesIn(s)) && c < |s.held|
  {
    if InRange(rs, (r, b)) then Result(Frames(s.data.mem[rs[r].Pos(b) := false], s.hint), s.held[c]) else Over(s, c)
  }

  /** The search goes on at region `r`. */
  ghost function From(rs: seq<Region>, s: State, c: nat, r: int): Result
    requires FrameSpec.Valid(rs, FramesIn(s)) && c < |s.held|
  {
    match if 0 <= r <= |rs| then FirstFree(rs, s.data.mem, r) else None
    case None => Over(s, c)
    case Some((i, b)) => Gets(rs, s, c, i, b)
  }

  /** The result of the call, told from where it stands. */
  ghost function Due(rs: seq<Region>, s: State, c: nat): Result
    requires FrameSpec.Valid(rs, FramesIn(s)) && c < |s.held| && c < |s.pcs|
  {
    match s.pcs[c]
    case EnterSpin => From(rs, s, c, StartOf(s.hint))
    case EnterLocked => From(rs, s, c, StartOf(s.hint))
    case Enter => From(rs, s, c, StartOf(s.hint))
    case Visit(r) => From(rs, s, c, r)
    case AllocSpin(r) => From(rs, s, c, r)
    case AllocSearch(r) => From(rs, s, c, r)
    case AllocMiss(r) => From(rs, s, c, r + 1)
    case AllocLoad(r, b) => Gets(rs, s, c, r, b)
    case AllocStore(r, b, _) => Gets(rs, s, c, r, b)
    case AllocLoadUsed(r, b) => Marked(rs, s, c, r, b)
    case AllocStoreUsed(r, b, _) => Marked(rs, s, c, r, b)
    case AllocLoadTotal(r, b) => Marked(rs, s, c, r, b)
    case AllocStoreTotal(r, b, _) => Marked(rs, s, c, r, b)
    case AllocHint(r, b) => Marked(rs, s, c, r, b)
    case AllocUnlock(r, b) => Result(FramesIn(s), s.held[c] + {(r, b)})
    case FreeTest(r, b) => Clears(rs, s, c, r, b)
    case FreeSpin(r, b) => Clears(rs, s, c, r, b)
    case FreeLoad(r, b) => Clears(rs, s, c, r, b)
    case FreeStore(r, b, _) => Clears(rs, s, c, r, b)
    case _ => Over(s, c)
  }

  // ---------------------------------------------------------------- each step keeps what is due

  ghost predicate Keeps(rs: seq<Region>, s: State, s': State, c: nat) {
    && FrameSpec.Valid(rs, FramesIn(s)) && c < |s.held| && c < |s.pcs|
    && FrameSpec.Valid(rs, FramesIn(s')) && c < |s'.held| && c < |s'.pcs|
    && Due(rs, s', c) == Due(rs, s, c)
  }

  lemma EnterKeeps(rs: seq<Region>, s: State, s': State, c: nat, reserved: set<Frame>)
    requires Calling(rs, s, c, reserved) && ExactStep(rs, s, s', c)
    requires s.pcs[c].EnterSpin? || s.pcs[c].EnterLocked?
    ensures Keeps(rs, s, s', c)
  {
  }

  /** The unlocked read of the total: it is full exactly when every region is. */
  lemma ReadTotalKeeps(rs: seq<Region>, s: State, s': State, c: nat, reserved: set<Frame>)
    requires Calling(rs, s, c, reserved) && ExactStep(rs, s, s', c) && s.pcs[c].Enter?
    ensures Keeps(rs, s, s', c)
  {
    LockIsFree(s, c, rs, reserved);
    if s.data.total == Sum(Totals(rs)) {
      NothingLeft(rs, s.data, StartOf(s.hint));
    }
  }

  lemma LockIsFree(s: State, c: nat, rs: seq<Region>, reserved: set<Frame>)
    requires Inv(rs, s, reserved) && Undisturbed(s, c) && !Inside(s.pcs[c])
    ensures !s.lock && Balanced(rs, s.data)
  {
  }

  lemma NothingLeft(rs: seq<Region>, d: Data, i: nat)
    requires DataShape(rs, d) && Balanced(rs, d) && d.total == Sum(Totals(rs)) && i <= |rs|
    ensures FirstFree(rs, d.mem, i) == None
  {
    var used := Counts(rs, d.mem);
    assert Accounted(rs, d.mem, used);
    AllFull(rs, d.mem, used);
    assert forall j: nat :: j < |rs| ==> Full(rs[j], d.mem);
    FirstFreeSkips(rs, d.mem, i, |rs|);
  }

  /** The unlocked read of a region's counter: a full region is passed over. */
  lemma ReadUsedKeeps(rs: seq<Region>, s: State, s': State, c: nat, reserved: set<Frame>)
    requires Calling(rs, s, c, reserved) && ExactStep(rs, s, s', c) && s.pcs[c].Visit?
    ensures Keeps(rs, s, s', c)
  {
    CounterTells(rs, s, c, reserved, s.pcs[c].r);
    VisitKeeps(rs, s, s', c, s.pcs[c].r);
  }

  lemma VisitKeeps(rs: seq<Region>, s: State, s': State, c: nat, r: nat)
    requires Shape(rs, s) && FrameSpec.Valid(rs, FramesIn(s)) && ExactStep(rs, s, s', c)
    requires s.pcs[c] == Visit(r) && r < |rs| && (s.data.used[r] < rs[r].totalBlocks <==> !Full(rs[r], s.data.mem))
    ensures Keeps(rs, s, s', c)
  {
    if Full(rs[r], s.data.mem) {
      PassesOver(rs, s, c, r);
      assert s' == Goto(s, c, Onward(rs, r));
    } else {
      assert s' == Goto(s, c, AllocSpin(r));
    }
  }

  lemma PassesOver(rs: seq<Region>, s: State, c: nat, r: nat)
    requires FrameSpec.Valid(rs, FramesIn(s)) && c < |s.held| && r < |rs| && Full(rs[r], s.data.mem)
    ensures From(rs, s, c, r) == From(rs, s, c, r + 1)
    ensures r + 1 == |rs| ==> From(rs, s, c, r) == Over(s, c)
  {
    FirstFreeSkips(rs, s.data.mem, r, r + 1);
  }

  /** Outside the lock, with nobody inside, a region's counter tells whether it is full. */
  lemma CounterTells(rs: seq<Region>, s: State, c: nat, reserved: set<Frame>, r: nat)
    requires Inv(rs, s, reserved) && Undisturbed(s, c) && !Inside(s.pcs[c]) && r < |rs|
    ensures s.data.used[r] < rs[r].totalBlocks <==> !Full(rs[r], s.data.mem)
  {
    LockIsFree(s, c, rs, reserved);
    UsedFull(rs[r], s.data.mem);
  }

  lemma SpinKeeps(rs: seq<Region>, s: State, s': State, c: nat, reserved: set<Frame>)
    requires Calling(rs, s, c, reserved) && ExactStep(rs, s, s', c) && s.pcs[c].AllocSpin?
    ensures Keeps(rs, s, s', c)
  {
  }

  lemma SearchKeeps(rs: seq<Region>, s: State, s': State, c: nat, reserved: set<Frame>)
    requires Calling(rs, s, c, reserved) && ExactStep(rs, s, s', c) && s.pcs[c].AllocSearch?
    ensures Keeps(rs, s, s', c)
  {
  }

  lemma MissKeeps(rs: seq<Region>, s: State, s': State, c: nat, reserved: set<Frame>)
    requires Calling(rs, s, c, reserved) && ExactStep(rs, s, s', c) && s.pcs[c].AllocMiss?
    ensures Keeps(rs, s, s', c)
  {
  }

  lemma LoadKeeps(rs: seq<Region>, s: State, s': State, c: nat, reserved: set<Frame>)
    requires Calling(rs, s, c, reserved) && ExactStep(rs, s, s', c)
    requires s.pcs[c].AllocLoad? || s.pcs[c].AllocUnlock?
    ensures Keeps(rs, s, s', c)
  {
  }

  lemma StoreKeeps(rs: seq<Region>, s: State, s': State, c: nat, reserved: set<Frame>)
    requires Calling(rs, s, c, reserved) && ExactStep(rs, s, s', c) && s.pcs[c].AllocStore?
    ensures Keeps(rs, s, s', c)
  {
    assert Inside(s.pcs[c]) && Local(rs, s.data, s.pcs[c]);
    StoreSets(rs, s.data.mem, s.pcs[c].r, s.pcs[c].b);
  }

  lemma CountKeeps(rs: seq<Region>, s: State, s': State, c: nat, reserved: set<Frame>)
    requires Calling(rs, s, c, reserved) && ExactStep(rs, s, s', c)
    requires s.pcs[c].AllocLoadUsed? || s.pcs[c].AllocStoreUsed? || s.pcs[c].AllocLoadTotal?
             || s.pcs[c].AllocStoreTotal?
    ensures Keeps(rs, s, s', c)
  {
  }

  lemma HintKeeps(rs: seq<Region>, s: State, s': State, c: nat, reserved: set<Frame>)
    requires Calling(rs, s, c, reserved) && ExactStep(rs, s, s', c) && s.pcs[c].AllocHint?
    ensures Keeps(rs, s, s', c)
  {
    assert Inside(s.pcs[c]) && Local(rs, s.data, s.pcs[c]);
  }

  lemma FreeKeeps(rs: seq<Region>, s: State, s': State, c: nat, reserved: set<Frame>)
    requires Calling(rs, s, c, reserved) && ExactStep(rs, s, s', c)
    requires s.pcs[c].FreeSpin? || s.pcs[c].FreeLoad?
    ensures Keeps(rs, s, s', c)
  {
  }

  /** The test finds the bit set. */
  lemma FreeTestKeeps(rs: seq<Region>, s: State, s': State, c: nat, reserved: set<Frame>)
    requires Calling(rs, s, c, reserved) && ExactStep(rs, s, s', c) && s.pcs[c].FreeTest?
    ensures s'.pcs[c].FreeSpin? && Keeps(rs, s, s', c)
  {
    assert (s.pcs[c].r, s.pcs[c].b) in Owned(s, c);
  }

  lemma FreeStoreKeeps(rs: seq<Region>, s: State, s': State, c: nat, reserved: set<Frame>)
    requires Calling(rs, s, c, reserved) && ExactStep(rs, s, s', c) && s.pcs[c].FreeStore?
    ensures Keeps(rs, s, s', c)
  {
    assert Inside(s.pcs[c]) && Local(rs, s.data, s.pcs[c]) && (s.pcs[c].r, s.pcs[c].b) in Owned(s, c);
    StoreSets(rs, s.data.mem, s.pcs[c].r, s.pcs[c].b);
  }

  lemma FreeCountKeeps(rs: seq<Region>, s: State, s': State, c: nat, reserved: set<Frame>)
    requires Calling(rs, s, c, reserved) && ExactStep(rs, s, s', c)
    requires s.pcs[c].FreeLoadUsed? || s.pcs[c].FreeStoreUsed?
    ensures Keeps(rs, s, s', c)
  {
  }

  lemma FreeEndKeeps(rs: seq<Region>, s: State, s': State, c: nat, reserved: set<Frame>)
    requires Calling(rs, s, c, reserved) && ExactStep(rs, s, s', c)
    requires s.pcs[c].FreeLoadTotal? || s.pcs[c].FreeStoreTotal?
    ensures Keeps(rs, s, s', c)
  {
  }

  lemma FreeUnlockKeeps(rs: seq<Region>, s: State, s': State, c: nat, reserved: set<Frame>)
    requires Calling(rs, s, c, reserved) && ExactStep(rs, s, s', c) && s.pcs[c].FreeUnlock?
    ensures Keeps(rs, s, s', c)
  {
  }

  lemma StepIsOwn(rs: seq<Region>, s: State, s': State, c: nat)
    requires Shape(rs, s) && Step(rs, s, s', c)
    ensures |s'.pcs| == |s.pcs| && forall d :: 0 <= d < |s.pcs| && d != c ==> s'.pcs[d] == s.pcs[d]
  {
  }

  /** A call that is not disturbed goes on towards the same result. */
  lemma StepKeepsDue(rs: seq<Region>, s: State, s': State, c: nat, reserved: set<Frame>)
    requires Calling(rs, s, c, reserved) && ExactStep(rs, s, s', c) && !s.pcs[c].Panicked?
    ensures Keeps(rs, s, s', c) && !s'.pcs[c].Panicked?
  {
    match s.pcs[c]
    case EnterSpin => EnterKeeps(rs, s, s', c, reserved);
    case EnterLocked => EnterKeeps(rs, s, s', c, reserved);
    case Enter => ReadTotalKeeps(rs, s, s', c, reserved);
    case Visit(_) => ReadUsedKeeps(rs, s, s', c, reserved);
    case AllocSpin(_) => SpinKeeps(rs, s, s', c, reserved);
    case AllocSearch(_) => SearchKeeps(rs, s, s', c, reserved);
    case AllocMiss(_) => MissKeeps(rs, s, s', c, reserved);
    case AllocLoad(_, _) => LoadKeeps(rs, s, s', c, reserved);
    case AllocUnlock(_, _) => LoadKeeps(rs, s, s', c, reserved);
    case AllocStore(_, _, _) => StoreKeeps(rs, s, s', c, reserved);
    case AllocLoadUsed(_, _) => CountKeeps(rs, s, s', c, reserved);
    case AllocStoreUsed(_, _, _) => CountKeeps(rs, s, s', c, reserved);
    case AllocLoadTotal(_, _) => CountKeeps(rs, s, s', c, reserved);
    case AllocStoreTotal(_, _, _) => CountKeeps(rs, s, s', c, reserved);
    case AllocHint(_, _) => HintKeeps(rs, s, s', c, reserved);
    case FreeTest(_, _) => FreeTestKeeps(rs, s, s', c, reserved);
    case FreeSpin(_, _) => FreeKeeps(rs, s, s', c, reserved);
    case FreeLoad(_, _) => FreeKeeps(rs, s, s', c, reserved);
    case FreeStore(_, _, _) => FreeStoreKeeps(rs, s, s', c, reserved);
    case FreeLoadUsed(_, _) => FreeCountKeeps(rs, s, s', c, reserved);
    case FreeStoreUsed(_, _, _) => FreeCountKeeps(rs, s, s', c, reserved);
    case FreeLoadTotal(_, _) => FreeEndKeeps(rs, s, s', c, reserved);
    case FreeStoreTotal(_, _, _) => FreeEndKeeps(rs, s, s', c, reserved);
    case FreeUnlock => FreeUnlockKeeps(rs, s, s', c, reserved);
  }

  lemma StepKeepsCalling(rs: seq<Region>, s: State, s': State, c: nat, reserved: set<Frame>)
    requires Calling(rs, s, c, reserved) && ExactStep(rs, s, s', c) && !s.pcs[c].Panicked?
    ensures Calling(rs, s', c, reserved) && Keeps(rs, s, s', c) && !s'.pcs[c].Panicked?
  {
    StepKeepsInv(rs, s, s', c, reserved);
    StepKeepsDue(rs, s, s', c, reserved);
    StepIsOwn(rs, s, s', c);
  }

  // ---------------------------------------------------------------- whole calls

  /** CPU `c` runs, and no other, until it is idle. */
  ghost predicate IsCall(rs: seq<Region>, run: seq<State>, c: nat) {
    && run != [] && c < |run[|run| - 1].pcs| && run[|run| - 1].pcs[c].Idle?
    && GoesOn(rs, run, c)
  }

  ghost predicate GoesOn(rs: seq<Region>, run: seq<State>, c: nat) {
    forall i, j :: 0 <= i && j == i + 1 && j < |run| ==> Follows(rs, run[i], run[j], c)
  }

  ghost predicate Follows(rs: seq<Region>, s: State, s': State, c: nat) {
    Shape(rs, s) && ExactStep(rs, s, s', c)
  }

  /** Where the call stands, and what is due. */
  ghost predicate OnTheWay(rs: seq<Region>, s: State, c: nat, reserved: set<Frame>, due: Result) {
    Calling(rs, s, c, reserved) && !s.pcs[c].Panicked? && c < |s.held| && Due(rs, s, c) == due
  }

  lemma StaysOnTheWay(rs: seq<Region>, s: State, s': State, c: nat, reserved: set<Frame>, due: Result)
    requires OnTheWay(rs, s, c, reserved, due) && ExactStep(rs, s, s', c)
    ensures OnTheWay(rs, s', c, reserved, due)
  {
    StepKeepsCalling(rs, s, s', c, reserved);
  }

  lemma {:induction false} RunKeepsDue(rs: seq<Region>, run: seq<State>, c: nat, reserved: set<Frame>, due: Result,
                                       k: nat)
    requires k < |run| && OnTheWay(rs, run[0], c, reserved, due) && GoesOn(rs, run, c)
    ensures OnTheWay(rs, run[k], c, reserved, due)
  {
    if k > 0 {
      var i: nat := k - 1;
      RunKeepsDue(rs, run, c, reserved, due, i);
      assert Follows(rs, run[i], run[k], c);
      StaysOnTheWay(rs, run[i], run[k], c, reserved, due);
    }
  }

  /** The call has returned with that result, and the counters match the bitmaps. */
  ghost predicate Returned(rs: seq<Region>, s: State, c: nat, result: Result) {
    && !s.lock && DataShape(rs, s.data) && Balanced(rs, s.data)
    && c < |s.held| && FramesIn(s) == result.frames && s.held[c] == result.held
  }

  lemma CallYields(rs: seq<Region>, run: seq<State>, c: nat, reserved: set<Frame>)
    requires IsCall(rs, run, c) && Calling(rs, run[0], c, reserved) && !run[0].pcs[c].Panicked?
    ensures Returned(rs, run[|run| - 1], c, Due(rs, run[0], c))
  {
    var k: nat := |run| - 1;
    RunKeepsDue(rs, run, c, reserved, Due(rs, run[0], c), k);
    HasReturned(rs, run[k], c, reserved, Due(rs, run[0], c));
  }

  lemma HasReturned(rs: seq<Region>, s: State, c: nat, reserved: set<Frame>, due: Result)
    requires OnTheWay(rs, s, c, reserved, due) && s.pcs[c].Idle?
    ensures Returned(rs, s, c, due)
  {
    LockIsFree(s, c, rs, reserved);
  }

  /**
   get_free_frame on its own does what the allocator on one CPU does: bitmaps and hint are as after `Alloc`, the CPU
   holds the frame whose address that returns, and the counters match the bitmaps.
   */
  lemma GetFreeFrameAlone(rs: seq<Region>, run: seq<State>, c: nat, reserved: set<Frame>) returns (f: Option<Frame>)
    requires IsCall(rs, run, c) && Calling(rs, run[0], c, reserved) && run[0].pcs[c].EnterSpin?
    ensures var s := run[0];
            match f
            case None =>
              && Alloc(rs, FramesIn(s)) == (FramesIn(s), None)
              && Returned(rs, run[|run| - 1], c, Result(FramesIn(s), s.held[c]))
            case Some(g) =>
              && InRange(rs, g) && Alloc(rs, FramesIn(s)).1 == Some(rs[g.0].Address(g.1))
              && Returned(rs, run[|run| - 1], c, Result(Alloc(rs, FramesIn(s)).0, s.held[c] + {g}))
  {
    CallYields(rs, run, c, reserved);
    f := FirstFree(rs, run[0].data.mem, StartOf(run[0].hint));
  }

  /** free_frame on its own does what it does on one CPU. */
  lemma FreeFrameAlone(rs: seq<Region>, run: seq<State>, c: nat, reserved: set<Frame>, r: nat, b: nat)
    requires IsCall(rs, run, c) && Calling(rs, run[0], c, reserved) && run[0].pcs[c] == FreeTest(r, b)
    ensures InRange(rs, (r, b))
    ensures var s, a := run[0], rs[r].Address(b);
            && IsTaken(rs, FramesIn(s), a)
            && Returned(rs, run[|run| - 1], c, Result(Release(rs, FramesIn(s), a), s.held[c]))
  {
    FreedIsTaken(rs, run[0], c, reserved, r, b);
    CallYields(rs, run, c, reserved);
    ReleaseClears(rs, FramesIn(run[0]), r, b);
  }

  lemma FreedIsTaken(rs: seq<Region>, s: State, c: nat, reserved: set<Frame>, r: nat, b: nat)
    requires Inv(rs, s, reserved) && c < |s.pcs| && s.pcs[c] == FreeTest(r, b)
    ensures InRange(rs, (r, b)) && Taken(rs[r], s.data.mem, b)
  {
    assert (r, b) in Owned(s, c);
  }

  lemma ReleaseClears(rs: seq<Region>, s: Frames, r: nat, b: nat)
    requires FrameSpec.Valid(rs, s) && InRange(rs, (r, b)) && Taken(rs[r], s.mem, b)
    ensures IsTaken(rs, s, rs[r].Address(b))
    ensures Release(rs, s, rs[r].Address(b)) == Frames(s.mem[rs[r].Pos(b) := false], s.hint)
  {
    AddressBlock(rs[r], b);
    LookupFindsOwner(rs, |s.mem|, rs[r].Address(b), r);
  }

  // ---------------------------------------------------------------- such calls return

  /** A bound on the steps to the end of the call. */
  function StepsLeft(pc: Pc, n: nat): int {
    match pc
    case Idle => 0
    case EnterSpin => 20 * n + 18
    case EnterLocked => 20 * n + 17
    case Enter => 20 * n + 16
    case Visit(r) => 20 * (n - r) + 15
    case AllocSpin(r) => 20 * (n - r) + 14
    case AllocSearch(r) => 20 * (n - r) + 13
    case AllocMiss(r) => 20 * (n - r) + 12
    case AllocLoad(_, _) => 11
    case AllocStore(_, _, _) => 10
    case AllocLoadUsed(_, _) => 9
    case AllocStoreUsed(_, _, _) => 8
    case AllocLoadTotal(_, _) => 7
    case AllocStoreTotal(_, _, _) => 6
    case AllocHint(_, _) => 5
    case AllocUnlock(_, _) => 4
    case FreeTest(_, _) => 9
    case FreeSpin(_, _) => 8
    case FreeLoad(_, _) => 7
    case FreeStore(_, _, _) => 6
    case FreeLoadUsed(_, _) => 5
    case FreeStoreUsed(_, _, _) => 4
    case FreeLoadTotal(_, _) => 3
    case FreeStoreTotal(_, _, _) => 2
    case FreeUnlock => 1
    case Panicked(_, _) => 0
  }

  lemma SearchNearsEnd(rs: seq<Region>, s: State, s': State, c: nat)
    requires Shape(rs, s) && ExactStep(rs, s, s', c) && Heading(rs, s.pcs[c]) && (Inside(s.pcs[c]) || !s.lock)
    requires FrameSpec.Valid(rs, FramesIn(s))
    requires s.pcs[c].EnterSpin? || s.pcs[c].EnterLocked? || s.pcs[c].Enter? || s.pcs[c].Visit? || s.pcs[c].AllocSpin?
             || s.pcs[c].AllocSearch? || s.pcs[c].AllocMiss?
    ensures c < |s'.pcs| && 0 <= StepsLeft(s'.pcs[c], |rs|) < StepsLeft(s.pcs[c], |rs|)
  {
  }

  lemma TakingNearsEnd(rs: seq<Region>, s: State, s': State, c: nat)
    requires Shape(rs, s) && ExactStep(rs, s, s', c)
    requires s.pcs[c].AllocLoad? || s.pcs[c].AllocStore? || s.pcs[c].AllocLoadUsed? || s.pcs[c].AllocStoreUsed?
             || s.pcs[c].AllocLoadTotal? || s.pcs[c].AllocStoreTotal? || s.pcs[c].AllocHint? || s.pcs[c].AllocUnlock?
    ensures c < |s'.pcs| && 0 <= StepsLeft(s'.pcs[c], |rs|) < StepsLeft(s.pcs[c], |rs|)
  {
  }

  lemma FreeingNearsEnd(rs: seq<Region>, s: State, s': State, c: nat)
    requires Shape(rs, s) && ExactStep(rs, s, s', c) && (Inside(s.pcs[c]) || !s.lock)
    requires s.pcs[c].FreeTest? || s.pcs[c].FreeSpin? || s.pcs[c].FreeLoad? || s.pcs[c].FreeStore?
             || s.pcs[c].FreeLoadUsed? || s.pcs[c].FreeStoreUsed? || s.pcs[c].FreeLoadTotal?
             || s.pcs[c].FreeStoreTotal? || s.pcs[c].FreeUnlock?
    ensures c < |s'.pcs| && 0 <= StepsLeft(s'.pcs[c], |rs|) < StepsLeft(s.pcs[c], |rs|)
  {
  }

  lemma StepNearsEnd(rs: seq<Region>, s: State, s': State, c: nat, reserved: set<Frame>)
    requires Calling(rs, s, c, reserved) && ExactStep(rs, s, s', c) && !s.pcs[c].Panicked?
    ensures c < |s'.pcs| && 0 <= StepsLeft(s'.pcs[c], |rs|) < StepsLeft(s.pcs[c], |rs|)
  {
    var pc := s.pcs[c];
    if !Inside(pc) {
      LockIsFree(s, c, rs, reserved);
    }
    if pc.EnterSpin? || pc.EnterLocked? || pc.Enter? || pc.Visit? || pc.AllocSpin? || pc.AllocSearch? || pc.AllocMiss? {
      SearchNearsEnd(rs, s, s', c);
    } else if pc.AllocLoad? || pc.AllocStore? || pc.AllocLoadUsed? || pc.AllocStoreUsed? || pc.AllocLoadTotal?
              || pc.AllocStoreTotal? || pc.AllocHint? || pc.AllocUnlock? {
      TakingNearsEnd(rs, s, s', c);
    } else {
      FreeingNearsEnd(rs, s, s', c);
    }
  }

  /** A call can always go on. */
  lemma CanGoOn(rs: seq<Region>, s: State, c: nat, reserved: set<Frame>) returns (s': State)
    requires Calling(rs, s, c, reserved) && !s.pcs[c].Panicked? && !s.pcs[c].Idle?
    ensures ExactStep(rs, s, s', c)
  {
    var pc := s.pcs[c];
    if pc.Enter? {
      s' := Goto(s, c, if s.data.total == Sum(Totals(rs)) then Idle else Visit(if s.hint == -1 then 0 else s.hint));
    } else if pc.Visit? {
      s' := Goto(s, c, if s.data.used[pc.r] < rs[pc.r].totalBlocks then AllocSpin(pc.r) else Onward(rs, pc.r));
    } else if pc.FreeTest? {
      assert (pc.r, pc.b) in Owned(s, c);
      s' := Goto(s, c, FreeSpin(pc.r, pc.b));
    } else {
      EveryCpuCanMove(rs, s, reserved, c);
      s' :| Step(rs, s, s', c);
    }
  }

  /** Left alone, every call of the allocator returns. */
  lemma {:induction false} CallReturns(rs: seq<Region>, s: State, c: nat, reserved: set<Frame>)
    returns (run: seq<State>)
    requires Calling(rs, s, c, reserved) && !s.pcs[c].Panicked?
    ensures run != [] && run[0] == s && IsCall(rs, run, c)
    decreases StepsLeft(s.pcs[c], |rs|)
  {
    if s.pcs[c].Idle? {
      run := [s];
    } else {
      var s' := CanGoOn(rs, s, c, reserved);
      StepKeepsCalling(rs, s, s', c, reserved);
      StepNearsEnd(rs, s, s', c, reserved);
      var rest := CallReturns(rs, s', c, reserved);
      run := [s] + rest;
      RunInFront(rs, s, rest, c);
    }
  }

  lemma RunInFront(rs: seq<Region>, s: State, rest: seq<State>, c: nat)
    requires rest != [] && IsCall(rs, rest, c) && Shape(rs, s) && ExactStep(rs, s, rest[0], c)
    ensures IsCall(rs, [s] + rest, c)
  {
    var run := [s] + rest;
    assert run[|run| - 1] == rest[|rest| - 1];
    forall i, j | 0 <= i && j == i + 1 && j < |run| ensures Follows(rs, run[i], run[j], c) {
      if i == 0 {
        assert run[i] == s && run[j] == rest[0];
      } else {
        var k := i - 1;
        assert run[i] == rest[k] && run[j] == rest[i];
      }
    }
  }
}
