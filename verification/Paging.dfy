/**
 Two-level 32-bit paging (section 4.3 of the Intel SDM, Volume 3A) and what `map_page` and
 `unmap_page` do to it, as functions on physical memory and the frame allocator.

 Addresses are handled as page and frame numbers except where the recursive window needs them.
 */
module Paging {
  import opened Wrappers
  import opened FrameSpec

  const ENTRIES := 1024
  const PAGE_SIZE := 4096
  const PAGES := 0x10_0000
  const SELF := 1023                       // directory slot that points at the directory
  const RECURSIVE_REGION := 0xFFC0_0000

  type FrameNo = x: int | 0 <= x < 0x10_0000

  /** The bits `map_page` copies from its flags besides presence. */
  datatype Attrs = Attrs(readWrite: bool, userSupervisor: bool, writeThrough: bool, cacheDisable: bool, global: bool)

  /** One 32-bit directory or table entry; both kinds keep presence and address in the same bits. */
  datatype Entry = Entry(present: bool, address: FrameNo, attrs: Attrs)

  const BLANK := Entry(false, 0, Attrs(false, false, false, false, false))

  type Table = t: seq<Entry> | |t| == 1024 witness seq(1024, _ => BLANK)

  /** Every frame of physical memory, read as 1024 entries. */
  type Ram = m: seq<Table> | |m| == 0x10_0000 witness seq(0x10_0000, _ => seq(1024, _ => BLANK))

  /** Memory after one entry has been stored. */
  function Put(m: Ram, f: FrameNo, i: nat, e: Entry): Ram
    requires i < ENTRIES
  {
    m[f := m[f][i := e]]
  }

  lemma PutTwice(m: Ram, f: FrameNo, i: nat, e: Entry, e': Entry)
    requires i < ENTRIES
    ensures Put(Put(m, f, i, e), f, i, e') == Put(m, f, i, e')
    ensures Put(m, f, i, e)[f][i] == e
  {
    assert Put(m, f, i, e)[f] == m[f][i := e];
    assert m[f][i := e][i := e'] == m[f][i := e'];
  }

  predicate IsPage(p: int) {
    0 <= p < PAGES
  }

  function Dir(p: int): nat
    requires IsPage(p)
  {
    p / ENTRIES
  }

  function Idx(p: int): nat
    requires IsPage(p)
  {
    p % ENTRIES
  }

  lemma DirIdx(p: int)
    requires IsPage(p)
    ensures Dir(p) < ENTRIES && Idx(p) < ENTRIES && p == Dir(p) * ENTRIES + Idx(p)
  {
  }

  /** The page walk of the processor: the frame a page translates to, if any. */
  function Walk(m: Ram, cr3: FrameNo, p: int): Option<FrameNo>
    requires IsPage(p)
  {
    var pde := m[cr3][Dir(p)];
    if !pde.present then None
    else
      var pte := m[pde.address][Idx(p)];
      if pte.present then Some(pte.address) else None
  }

  // ---------------------------------------------------------------- the recursive window

  /** A 32-bit virtual address through the page walk. */
  function Translate(m: Ram, cr3: FrameNo, va: int): Option<int>
    requires 0 <= va < PAGES * PAGE_SIZE
  {
    match Walk(m, cr3, va / PAGE_SIZE)
    case None => None
    case Some(f) => Some(f * PAGE_SIZE + va % PAGE_SIZE)
  }

  function GetTableVirtualAddress(va: int): int
    requires 0 <= va < PAGES * PAGE_SIZE
  {
    RECURSIVE_REGION + va / 0x40_0000 % 0x400 * PAGE_SIZE
  }

  /** The page through which the table that governs page `p` is reached. */
  function WindowPage(p: int): (w: int)
    requires IsPage(p)
    ensures IsPage(w)
  {
    SELF * ENTRIES + Dir(p)
  }

  predicate SelfMapped(m: Ram, cr3: FrameNo) {
    m[cr3][SELF].present && m[cr3][SELF].address == cr3
  }

  lemma SlotArithmetic(va: int)
    requires 0 <= va < PAGES * PAGE_SIZE
    ensures IsPage(va / PAGE_SIZE)
    ensures va / 0x40_0000 % 0x400 == Dir(va / PAGE_SIZE) < ENTRIES
    ensures va / 0x1000 % 0x400 == Idx(va / PAGE_SIZE) < ENTRIES
  {
  }

  lemma WindowArithmetic(va: int, i: nat)
    requires 0 <= va < PAGES * PAGE_SIZE && i < ENTRIES
    ensures var a := GetTableVirtualAddress(va) + 4 * i;
            && 0 <= a < PAGES * PAGE_SIZE
            && IsPage(va / PAGE_SIZE)
            && a / PAGE_SIZE == WindowPage(va / PAGE_SIZE) && a % PAGE_SIZE == 4 * i
  {
    var d := va / 0x40_0000 % 0x400;
    assert d == va / 0x40_0000;
    assert Dir(va / PAGE_SIZE) == d;
    var a := GetTableVirtualAddress(va) + 4 * i;
    assert a == (SELF * ENTRIES + d) * PAGE_SIZE + 4 * i;
  }

  /** The window page of a slot translates to the directory entry of that slot. */
  lemma WindowWalk(m: Ram, cr3: FrameNo, p: int)
    requires IsPage(p) && SelfMapped(m, cr3)
    ensures Walk(m, cr3, WindowPage(p)) == if m[cr3][Dir(p)].present then Some(m[cr3][Dir(p)].address) else None
  {
    DirIdx(p);
    assert Dir(WindowPage(p)) == SELF && Idx(WindowPage(p)) == Dir(p);
  }

  /**
   With the last slot pointing at the directory, the table address computed for `va`, plus four
   times an index, translates to exactly that entry of the table that governs `va`; it translates
   to nothing when the slot of `va` has no table.
   */
  lemma WindowReachesTable(m: Ram, cr3: FrameNo, va: int, i: nat)
    requires 0 <= va < PAGES * PAGE_SIZE && i < ENTRIES && SelfMapped(m, cr3)
    ensures var a := GetTableVirtualAddress(va) + 4 * i;
            var pde := m[cr3][va / 0x40_0000];
            && 0 <= a < PAGES * PAGE_SIZE
            && Translate(m, cr3, a) == if pde.present then Some(pde.address * PAGE_SIZE + 4 * i) else None
  {
    WindowArithmetic(va, i);
    WindowWalk(m, cr3, va / PAGE_SIZE);
    assert Dir(va / PAGE_SIZE) == va / 0x40_0000;
  }

  // ---------------------------------------------------------------- map and unmap

  /** The flag bits of `map_page`. */
  datatype Flags = Flags(present: bool, readWrite: bool, userSupervisor: bool, writeThrough: bool, cacheDisable: bool,
      global: bool)

  /** A directory entry: bit 8 is left as it was. */
  function DirEntry(e: Entry, f: FrameNo, g: Flags): Entry {
    Entry(g.present, f, Attrs(g.readWrite, g.userSupervisor, g.writeThrough, g.cacheDisable, e.attrs.global))
  }

  function PageEntry(f: FrameNo, g: Flags): Entry {
    Entry(g.present, f, Attrs(g.readWrite, g.userSupervisor, g.writeThrough, g.cacheDisable, g.global))
  }

  datatype Outcome =
    | Done
    | Failed      // the call returned -1
    | Faulted     // the table access was a page fault
    | Panicked    // free_frame refused the address

  /** Physical memory and the allocator's bitmaps. */
  datatype Vm = Vm(ram: Ram, frames: Frames)

  ghost predicate Sane(rs: seq<Region>, s: Vm) {
    Valid(rs, s.frames) && forall i :: 0 <= i < |rs| ==> rs[i].lastAddr < PAGES * PAGE_SIZE
  }

  /** The table frame a call that needs a new table would be given. */
  ghost function NextFrame(rs: seq<Region>, s: Vm): (r: Option<FrameNo>)
    requires Sane(rs, s)
    ensures r.None? <==> Alloc(rs, s.frames).1.None?
  {
    match Alloc(rs, s.frames).1
    case None => None
    case Some(a) =>
      FrameInRange(rs, s);
      Some(a / PAGE_SIZE)
  }

  lemma FrameInRange(rs: seq<Region>, s: Vm)
    requires Sane(rs, s) && Alloc(rs, s.frames).1.Some?
    ensures 0 <= Alloc(rs, s.frames).1.value / PAGE_SIZE < 0x10_0000
  {
    var (i, b) := FirstFree(rs, s.frames.mem, StartOf(s.frames.hint)).value;
    AddressBlock(rs[i], b);
  }

  /** The state once the slot of page `p` has a table, or None when no frame was left for one. */
  ghost function WithTable(rs: seq<Region>, cr3: FrameNo, s: Vm, p: int, g: Flags): Option<Vm>
    requires Sane(rs, s) && IsPage(p)
  {
    if s.ram[cr3][Dir(p)].present then Some(s)
    else match NextFrame(rs, s)
      case None => None
      case Some(f) => Some(Vm(Put(s.ram, cr3, Dir(p), DirEntry(s.ram[cr3][Dir(p)], f, g)), Alloc(rs, s.frames).0))
  }

  ghost function Map(rs: seq<Region>, cr3: FrameNo, s: Vm, f: FrameNo, p: int, g: Flags, force: bool): (Vm, Outcome)
    requires Sane(rs, s) && IsPage(p)
  {
    var created := !s.ram[cr3][Dir(p)].present;
    match WithTable(rs, cr3, s, p, g)
    case None => (s, Failed)
    case Some(s1) =>
      var pde := s1.ram[cr3][Dir(p)];
      if !pde.present then (s1, Faulted)
      else if !created && !force && s1.ram[pde.address][Idx(p)].present then (s1, Failed)
      else (s1.(ram := Put(s1.ram, pde.address, Idx(p), PageEntry(f, g))), Done)
  }

  ghost predicate Empty(t: Table) {
    forall i :: 0 <= i < ENTRIES ==> !t[i].present
  }

  /** free_frame can be asked about this frame: it is managed, or no region reaches up to it. */
  ghost predicate Supported(rs: seq<Region>, f: FrameNo) {
    Lookup(rs, f * PAGE_SIZE, 0) < |rs| ==> Managed(rs, f * PAGE_SIZE)
  }

  /** free_frame on a supported frame; None when it panics. */
  ghost function FreeOf(rs: seq<Region>, s: Frames, f: FrameNo): (r: Option<Frames>)
    requires Valid(rs, s)
    ensures r.Some? ==> Valid(rs, r.value)
  {
    if IsTaken(rs, s, f * PAGE_SIZE) then Some(Release(rs, s, f * PAGE_SIZE)) else None
  }

  /** unmap_page once the table that governs the page, frame `t`, is within reach: entry `i` of slot `d`. */
  ghost function UnmapIn(rs: seq<Region>, cr3: FrameNo, s: Vm, t: FrameNo, d: nat, i: nat): (Vm, Outcome)
    requires Sane(rs, s) && d < ENTRIES && i < ENTRIES
  {
    var e := s.ram[t][i];
    if !e.present then (s, Failed)
    else match FreeOf(rs, s.frames, e.address)
      case None => (s.(ram := Put(s.ram, t, i, e.(present := false))), Panicked)
      case Some(frames1) =>
        var s1 := Vm(Put(s.ram, t, i, e.(present := false, address := 0)), frames1);
        if !Empty(s1.ram[t]) then (s1, Done) else ReleaseTable(rs, cr3, s1, d)
  }

  ghost function Unmap(rs: seq<Region>, cr3: FrameNo, s: Vm, p: int): (Vm, Outcome)
    requires Sane(rs, s) && IsPage(p)
  {
    var pde := s.ram[cr3][Dir(p)];
    if !pde.present then (s, Faulted) else UnmapIn(rs, cr3, s, pde.address, Dir(p), Idx(p))
  }

  ghost function ReleaseTable(rs: seq<Region>, cr3: FrameNo, s: Vm, d: nat): (Vm, Outcome)
    requires Sane(rs, s) && d < ENTRIES
  {
    var pde := s.ram[cr3][d];
    if !pde.present then (s, Failed)
    else match FreeOf(rs, s.frames, pde.address)
      case None => (s.(ram := Put(s.ram, cr3, d, pde.(present := false))), Panicked)
      case Some(frames1) => (Vm(Put(s.ram, cr3, d, pde.(present := false, address := 0)), frames1), Done)
  }

  // ---------------------------------------------------------------- invariant

  ghost function InUse(rs: seq<Region>, s: Vm): set<nat>
    requires Sane(rs, s)
  {
    UsedFrames(rs, s.frames.mem)
  }

  /** Frames the allocator may hand out. */
  ghost predicate IsFree(rs: seq<Region>, s: Vm, f: int)
    requires Sane(rs, s)
  {
    f in AllFrames(rs) && f !in InUse(rs, s)
  }

  /** Slot `d` has a table. */
  ghost predicate HasTable(m: Ram, cr3: FrameNo, d: int) {
    0 <= d < SELF && m[cr3][d].present
  }

  ghost function TableOf(m: Ram, cr3: FrameNo, d: int): FrameNo
    requires HasTable(m, cr3, d)
  {
    m[cr3][d].address
  }

  /**
   The directory maps itself, tables are distinct frames in use, and a slot has a table exactly
   as long as that table has a present entry.
   */
  ghost predicate Inv(rs: seq<Region>, cr3: FrameNo, s: Vm) {
    && Sane(rs, s) && SelfMapped(s.ram, cr3) && !IsFree(rs, s, cr3)
    && (forall d :: HasTable(s.ram, cr3, d) ==> TableOk(rs, cr3, s, d))
    && (forall d, e :: HasTable(s.ram, cr3, d) && HasTable(s.ram, cr3, e) && d != e
          ==> TableOf(s.ram, cr3, d) != TableOf(s.ram, cr3, e))
  }

  ghost predicate TableOk(rs: seq<Region>, cr3: FrameNo, s: Vm, d: int)
    requires Sane(rs, s) && HasTable(s.ram, cr3, d)
  {
    var t := TableOf(s.ram, cr3, d);
    t != cr3 && t in InUse(rs, s) && !Empty(s.ram[t])
  }

  /** Pages below the recursive window. */
  predicate IsLow(p: int) {
    0 <= p < SELF * ENTRIES
  }

  lemma LowDir(p: int)
    requires IsLow(p)
    ensures IsPage(p) && Dir(p) < SELF && Idx(p) < ENTRIES
  {
  }

  /** Outside the window translations agree except at page `p`. */
  ghost predicate OnlyPage(m: Ram, m': Ram, cr3: FrameNo, p: int, f: Option<FrameNo>) {
    forall q :: IsLow(q) ==> Walk(m', cr3, q) == if q == p then f else Walk(m, cr3, q)
  }
}
