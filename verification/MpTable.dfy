/**
 The walk over the entries of the MP configuration table (section 4.3 of the Intel
 MultiProcessor Specification 1.4): one pass counts the usable processors, a second one fills
 a slot for each of them.
 */
module MpTable {
  newtype byte = x: int | 0 <= x < 256

  const PROCESSOR: byte := 0
  const IO_APIC: byte := 2
  const LOCAL_INTERRUPT: byte := 4

  const NO_ADDRESS: seq<byte> := [0, 0, 0, 0]

  datatype Cpu = Cpu(lapicId: byte, bsp: bool)

  /** How far the walk advances; an unknown entry type does not advance it. */
  function SizeOf(kind: byte): nat {
    if kind == 0 then 20 else if kind <= 3 then 8 else if kind == 4 then 7 else 0
  }

  /** All `n` entries the walk visits from `at` on lie inside the memory `t`. */
  predicate InTable(t: seq<byte>, at: nat, n: nat)
    decreases n
  {
    n == 0 || (at < |t| && at + SizeOf(t[at]) <= |t| && InTable(t, at + SizeOf(t[at]), n - 1))
  }

  /** Offsets the walk visits. */
  function Visits(t: seq<byte>, at: nat, n: nat): seq<nat>
    requires InTable(t, at, n)
    decreases n
  {
    if n == 0 then [] else [at] + Visits(t, at + SizeOf(t[at]), n - 1)
  }

  predicate Usable(t: seq<byte>, at: nat)
    requires at < |t| && at + SizeOf(t[at]) <= |t|
  {
    t[at] == PROCESSOR && t[at + 3] % 2 == 1
  }

  function CpuAt(t: seq<byte>, at: nat): Cpu
    requires at + 20 <= |t|
  {
    Cpu(t[at + 1], t[at + 3] / 2 % 2 == 1)
  }

  /** The usable processors in the order in which the walk meets them. */
  function Found(t: seq<byte>, at: nat, n: nat): seq<Cpu>
    requires InTable(t, at, n)
    decreases n
  {
    if n == 0 then []
    else (if Usable(t, at) then [CpuAt(t, at)] else []) + Found(t, at + SizeOf(t[at]), n - 1)
  }

  /** Address in the last usable I/O APIC entry, or `was` when there is none. */
  function IoApicAfter(t: seq<byte>, at: nat, n: nat, was: seq<byte>): seq<byte>
    requires InTable(t, at, n)
    decreases n
  {
    if n == 0 then was
    else
      var address := if t[at] == IO_APIC && t[at + 3] % 2 == 1 then t[at + 4..at + 8] else was;
      IoApicAfter(t, at + SizeOf(t[at]), n - 1, address)
  }

  function Next(id: byte): byte {
    if id == 255 then 0 else id + 1
  }

  /** Threads on `n` processors. */
  function Threads(ht: bool, n: nat): nat {
    if ht then 2 * n else n
  }

  function SlotsFor(ht: bool, c: Cpu): (s: seq<Cpu>)
    ensures |s| == Threads(ht, 1)
  {
    if ht then [c, Cpu(Next(c.lapicId), false)] else [c]
  }

  /** One slot for each processor, or two with hyperthreading. */
  function Slots(ht: bool, cpus: seq<Cpu>): (s: seq<Cpu>)
    ensures |s| == Threads(ht, |cpus|)
  {
    if cpus == [] then [] else SlotsFor(ht, cpus[0]) + Slots(ht, cpus[1..])
  }

  function SlotsOf(ht: bool, t: seq<byte>, at: nat): seq<Cpu>
    requires at < |t| && at + SizeOf(t[at]) <= |t|
  {
    if Usable(t, at) then SlotsFor(ht, CpuAt(t, at)) else []
  }

  /** What one entry adds to the slots. */
  lemma SlotsOfFirst(ht: bool, t: seq<byte>, at: nat, n: nat)
    requires InTable(t, at, n) && n > 0
    ensures Slots(ht, Found(t, at, n)) == SlotsOf(ht, t, at) + Slots(ht, Found(t, at + SizeOf(t[at]), n - 1))
  {
    var rest := Found(t, at + SizeOf(t[at]), n - 1);
    if Usable(t, at) {
      assert ([CpuAt(t, at)] + rest)[1..] == rest;
    } else {
      assert [] + rest == rest;
    }
  }

  /** `done` are the first slots of `all`, and the walk over the `left` entries from `at` on gives the others. */
  ghost predicate Filling(ht: bool, t: seq<byte>, at: nat, left: nat, all: seq<Cpu>, done: seq<Cpu>) {
    InTable(t, at, left) && all == done + Slots(ht, Found(t, at, left))
  }

  lemma FillingStep(ht: bool, t: seq<byte>, at: nat, left: nat, all: seq<Cpu>, done: seq<Cpu>)
    requires Filling(ht, t, at, left, all, done) && left > 0
    ensures |done| + |SlotsOf(ht, t, at)| <= |all|
    ensures Filling(ht, t, at + SizeOf(t[at]), left - 1, all, done + SlotsOf(ht, t, at))
  {
    SlotsOfFirst(ht, t, at, left);
  }

  lemma SameTail(s: seq<Cpu>, t: seq<Cpu>, c: nat, d: nat)
    requires |s| == |t| && c <= d <= |s| && s[c..] == t[c..]
    ensures s[d..] == t[d..]
  {
    assert s[d..] == s[c..][d - c..] && t[d..] == t[c..][d - c..];
  }

  /** Slots are in table order; with hyperthreading each is followed by its sibling. */
  lemma {:induction false} SlotsAt(ht: bool, cpus: seq<Cpu>, i: nat)
    requires i < |cpus|
    ensures Slots(ht, cpus)[if ht then 2 * i else i] == cpus[i]
    ensures ht ==> var sibling := Slots(ht, cpus)[2 * i + 1];
      !sibling.bsp && sibling.lapicId as nat == (cpus[i].lapicId as nat + 1) % 256
  {
    if i > 0 {
      SlotsAt(ht, cpus[1..], i - 1);
    }
  }

  // ---------------------------------------------------------------- finding the table

  const SIGNATURE: seq<byte> := [0x5F, 0x4D, 0x50, 0x5F]     // "_MP_"
  const POINTER_SIZE := 16

  lemma SignatureIs(i: nat)
    requires i < 4
    ensures |SIGNATURE| == 4 && SIGNATURE[i] as int == "_MP_"[i] as int
  {
  }

  function SumOf(s: seq<byte>): nat {
    if s == [] then 0 else SumOf(s[..|s| - 1]) + s[|s| - 1] as nat
  }

  /** A floating pointer structure starts here. */
  predicate IsPointer(mem: seq<byte>, p: nat)
    requires p + POINTER_SIZE <= |mem|
  {
    mem[p..p + 4] == SIGNATURE && SumOf(mem[p..p + POINTER_SIZE]) % 256 == 0
  }

  method Checksum(mem: seq<byte>, addr: nat, len: nat) returns (sum: byte)
    requires addr + len <= |mem|
    ensures sum as nat == SumOf(mem[addr..addr + len]) % 256
  {
    var total: nat := 0;
    for i := 0 to len
      invariant total == SumOf(mem[addr..addr + i]) % 256
    {
      assert mem[addr..addr + i + 1][..i] == mem[addr..addr + i];
      total := (total + mem[addr + i] as nat) % 256;
    }
    return total as byte;
  }

  /** The last structure that starts on a 16-byte boundary in [addr, addr + length); -1 stands for NULL. */
  method SearchPointer(mem: seq<byte>, addr: nat, length: nat) returns (ret: int)
    requires addr + length + POINTER_SIZE <= |mem|
    ensures ret == -1 || (addr <= ret < addr + length && ret % POINTER_SIZE == 0 && IsPointer(mem, ret))
    ensures forall p: nat :: addr <= p < addr + length && p % POINTER_SIZE == 0 && p > ret ==> !IsPointer(mem, p)
  {
    ret := -1;
    var mp := (addr + 15) / POINTER_SIZE * POINTER_SIZE;
    while mp < addr + length
      invariant mp % POINTER_SIZE == 0 && addr <= mp && ret < mp
      invariant ret == -1 || (addr <= ret < addr + length && ret % POINTER_SIZE == 0 && IsPointer(mem, ret))
      invariant forall p: nat :: addr <= p < addr + length && p < mp && p % POINTER_SIZE == 0 && p > ret
                    ==> !IsPointer(mem, p)
    {
      var sum := Checksum(mem, mp, POINTER_SIZE);
      if mem[mp..mp + 4] == SIGNATURE && sum == 0 {
        ret := mp;
      }
      mp := mp + POINTER_SIZE;
    }
  }

  // ---------------------------------------------------------------- tables as the standard lays them out

  /** A table entry of the standard; `rest` is what follows the bytes named here. */
  datatype Entry =
    | Processor(apicId: byte, version: byte, flags: byte, rest: seq<byte>)
    | Other(kind: byte, rest: seq<byte>)
  {
    predicate Ok() {
      match this
      case Processor(_, _, _, rest) => |rest| == 16
      case Other(kind, rest) => 1 <= kind <= 4 && |rest| == 7
    }

    function StandardSize(): nat {
      if Processor? then 20 else 8
    }

    /** The processor of a usable processor entry. */
    function Cpus(): seq<Cpu> {
      if Processor? && flags % 2 == 1 then [Cpu(apicId, flags / 2 % 2 == 1)] else []
    }
  }

  /** Where the entries really are. */
  function StandardOffsets(es: seq<Entry>, at: nat): seq<nat> {
    if es == [] then [] else [at] + StandardOffsets(es[1..], at + es[0].StandardSize())
  }

  /** The usable processors of a table. */
  function Processors(es: seq<Entry>): seq<Cpu> {
    if es == [] then [] else es[0].Cpus() + Processors(es[1..])
  }

  predicate IsLocalInterrupt(e: Entry) {
    e.Other? && e.kind == LOCAL_INTERRUPT
  }

  /** No local interrupt entry has another entry behind it. */
  predicate LocalInterruptOnlyLast(es: seq<Entry>) {
    |es| <= 1 || (!IsLocalInterrupt(es[0]) && LocalInterruptOnlyLast(es[1..]))
  }

  /** Memory `t` holds the entries `es`, one behind the other, from `at` on. */
  ghost predicate Holds(t: seq<byte>, at: nat, es: seq<Entry>)
    decreases |es|
  {
    at <= |t| && (es == [] || (HoldsOne(t, at, es[0]) && Holds(t, at + es[0].StandardSize(), es[1..])))
  }

  /** The bytes of one entry, as the standard lays them out. */
  ghost predicate HoldsOne(t: seq<byte>, at: nat, e: Entry) {
    e.Ok() && at + e.StandardSize() <= |t| &&
    match e
    case Processor(id, version, flags, rest) =>
      t[at] == PROCESSOR && t[at + 1] == id && t[at + 2] == version && t[at + 3] == flags && t[at + 4..at + 20] == rest
    case Other(kind, rest) => t[at] == kind && t[at + 1..at + 8] == rest
  }

  lemma {:induction false} WalkStays(t: seq<byte>, at: nat, es: seq<Entry>)
    requires Holds(t, at, es) && LocalInterruptOnlyLast(es)
    ensures InTable(t, at, |es|)
    decreases |es|
  {
    if es != [] {
      ReadsFirst(t, at, es);
      if |es| > 1 {
        WalkStays(t, at + SizeOf(t[at]), es[1..]);
      }
    }
  }

  lemma {:induction false} WalkVisits(t: seq<byte>, at: nat, es: seq<Entry>)
    requires Holds(t, at, es) && LocalInterruptOnlyLast(es) && InTable(t, at, |es|)
    ensures Visits(t, at, |es|) == StandardOffsets(es, at)
    decreases |es|
  {
    if |es| > 1 {
      ReadsFirst(t, at, es);
      WalkVisits(t, at + SizeOf(t[at]), es[1..]);
    }
  }

  lemma {:induction false} WalkFinds(t: seq<byte>, at: nat, es: seq<Entry>)
    requires Holds(t, at, es) && LocalInterruptOnlyLast(es) && InTable(t, at, |es|)
    ensures Found(t, at, |es|) == Processors(es)
    decreases |es|
  {
    if es != [] {
      ReadsFirst(t, at, es);
      var next := at + SizeOf(t[at]);
      if |es| > 1 {
        WalkFinds(t, next, es[1..]);
      } else {
        assert Found(t, next, 0) == [] && Processors(es[1..]) == [];
      }
      SameRest(es[0].Cpus(), Found(t, next, |es| - 1), Processors(es[1..]));
    }
  }

  /** Without such an entry the walk visits the entries where they are and finds the table's processors. */
  lemma WalkFollowsStandard(t: seq<byte>, at: nat, es: seq<Entry>)
    requires Holds(t, at, es) && LocalInterruptOnlyLast(es)
    ensures InTable(t, at, |es|)
    ensures Visits(t, at, |es|) == StandardOffsets(es, at)
    ensures Found(t, at, |es|) == Processors(es)
  {
    WalkStays(t, at, es);
    WalkVisits(t, at, es);
    WalkFinds(t, at, es);
  }

  /** The walk reads the first entry, and goes on at the next one unless this is a local interrupt entry. */
  lemma ReadsFirst(t: seq<byte>, at: nat, es: seq<Entry>)
    requires es != [] && Holds(t, at, es)
    ensures at < |t| && at + SizeOf(t[at]) <= |t|
    ensures (if Usable(t, at) then [CpuAt(t, at)] else []) == es[0].Cpus()
    ensures !IsLocalInterrupt(es[0]) ==>
      SizeOf(t[at]) == es[0].StandardSize() && Holds(t, at + SizeOf(t[at]), es[1..])
  {
    FirstEntry(t, at, es[0]);
  }

  /** What the walk makes of one entry. */
  lemma FirstEntry(t: seq<byte>, at: nat, e: Entry)
    requires HoldsOne(t, at, e)
    ensures SizeOf(t[at]) <= e.StandardSize()
    ensures SizeOf(t[at]) == e.StandardSize() <==> !IsLocalInterrupt(e)
    ensures (if Usable(t, at) then [CpuAt(t, at)] else []) == e.Cpus()
  {
  }

  /** Behind a local interrupt entry, which the walk takes for 7 bytes instead of 8, the offsets are off. */
  lemma {:induction false} WalkDerails(t: seq<byte>, at: nat, es: seq<Entry>)
    requires Holds(t, at, es) && InTable(t, at, |es|)
    requires Visits(t, at, |es|) == StandardOffsets(es, at)
    ensures LocalInterruptOnlyLast(es)
    decreases |es|
  {
    if |es| > 1 {
      var n := at + SizeOf(t[at]);
      var m := at + es[0].StandardSize();
      var visits, actual := Visits(t, n, |es| - 1), StandardOffsets(es[1..], m);
      assert ([at] + visits)[1..] == visits && ([at] + actual)[1..] == actual;
      assert visits == actual && visits[0] == n && actual[0] == m;
      WalkDerails(t, m, es[1..]);
    }
  }

  /**
   The walk reads the table as the standard lays it out exactly when no local interrupt entry precedes another entry.
   */
  lemma WalkIsStandardIff(t: seq<byte>, at: nat, es: seq<Entry>)
    requires Holds(t, at, es)
    ensures InTable(t, at, |es|) && Visits(t, at, |es|) == StandardOffsets(es, at) <==> LocalInterruptOnlyLast(es)
  {
    if LocalInterruptOnlyLast(es) {
      WalkFollowsStandard(t, at, es);
    } else if InTable(t, at, |es|) && Visits(t, at, |es|) == StandardOffsets(es, at) {
      WalkDerails(t, at, es);
    }
  }

  /** Of two local interrupt entries the second is read from the last byte of the first on. */
  lemma TwoAtTheEnd(t: seq<byte>, at: nat, a: Entry, b: Entry)
    requires a.Ok() && b.Ok() && IsLocalInterrupt(a) && IsLocalInterrupt(b)
    requires Holds(t, at, [a, b]) && InTable(t, at, 2)
    ensures Processors([a, b]) == []
    ensures Found(t, at, 2) == [] <==> !ReadAsProcessor(a, b)
  {
    assert [a, b][1..] == [b] && [b][1..] == [];
    assert Processors([b]) == [];
    assert t[at + 7] == t[at + 1..at + 8][6] == a.rest[6];
    assert t[at + 10] == t[at + 9..at + 16][1] == b.rest[1];
    var n := at + 7;
    assert Found(t, n + SizeOf(t[n]), 0) == [];
    assert Found(t, at, 2) == [] + Found(t, n, 1);
  }

  /** The last two entries, and no others, are local interrupt entries. */
  predicate TwoAtTheEndOnly(es: seq<Entry>) {
    if |es| <= 2 then |es| == 2 && IsLocalInterrupt(es[0]) && IsLocalInterrupt(es[1])
    else !IsLocalInterrupt(es[0]) && TwoAtTheEndOnly(es[1..])
  }

  /** The first of two local interrupt entries is for input 0, and the flags of the second are odd. */
  predicate ReadAsProcessor(a: Entry, b: Entry) {
    a.Other? && b.Other? && a.Ok() && b.Ok() && a.rest[6] == 0 && b.rest[1] % 2 == 1
  }

  /** With two of them, `a` and `b`, at the end the walk finds the table's processors unless it makes one up of them. */
  lemma {:induction false} ProcessorsFoundIff(t: seq<byte>, at: nat, es: seq<Entry>, a: Entry, b: Entry)
    requires TwoAtTheEndOnly(es) && a == es[|es| - 2] && b == es[|es| - 1]
    requires Holds(t, at, es) && InTable(t, at, |es|)
    ensures Found(t, at, |es|) == Processors(es) <==> !ReadAsProcessor(a, b)
    decreases |es|
  {
    if |es| == 2 {
      assert es == [a, b];
      TwoAtTheEnd(t, at, a, b);
    } else {
      ReadsFirst(t, at, es);
      EndStays(es, a, b);
      var next := at + SizeOf(t[at]);
      ProcessorsFoundIff(t, next, es[1..], a, b);
      SameRest(es[0].Cpus(), Found(t, next, |es| - 1), Processors(es[1..]));
    }
  }

  lemma EndStays(es: seq<Entry>, a: Entry, b: Entry)
    requires |es| > 2 && a == es[|es| - 2] && b == es[|es| - 1]
    ensures a == es[1..][|es| - 3] && b == es[1..][|es| - 2]
  {
  }

  lemma SameRest(head: seq<Cpu>, s: seq<Cpu>, t: seq<Cpu>)
    ensures head + s == head + t <==> s == t
  {
    assert (head + s)[|head|..] == s && (head + t)[|head|..] == t;
  }

  /** Such a table: two local interrupt entries, no processor entry, and one processor found. */
  lemma PhantomProcessor(a: Entry, b: Entry)
    requires a.Ok() && b.Ok() && IsLocalInterrupt(a) && IsLocalInterrupt(b)
    requires ReadAsProcessor(a, b)
    ensures forall t :: Holds(t, 0, [a, b]) && |t| >= 27 ==> InTable(t, 0, 2) && |Found(t, 0, 2)| == 1
    ensures Processors([a, b]) == []
  {
    assert [a, b][1..] == [b] && Processors([b]) == [];
    forall t | Holds(t, 0, [a, b]) && |t| >= 27 ensures InTable(t, 0, 2) && |Found(t, 0, 2)| == 1 {
      assert t[7] == t[1..8][6] == a.rest[6];
      assert InTable(t, 27, 0) && InTable(t, 7, 1) && InTable(t, 0, 2);
      TwoAtTheEnd(t, 0, a, b);
      assert Found(t, 27, 0) == [];
      assert Found(t, 0, 2) == [] + Found(t, 7, 1);
    }
  }

  // ---------------------------------------------------------------- a table

  /** The processor entry of the standard, with the bytes behind the flags blank. */
  function ProcessorBytes(id: byte, flags: byte): (s: seq<byte>)
    ensures |s| == 20
  {
    [0, id, 0x14, flags] + seq(16, _ => 0)
  }

  const IO_APIC_BYTES: seq<byte> := [2, 8, 0x11, 1, 0, 0, 0xC0, 0xFE]

  /** The boot processor, an unusable processor, another one and an I/O APIC; and what init_cpu_data makes of them. */
  lemma FourEntries()
    ensures var t := ProcessorBytes(0, 3) + ProcessorBytes(2, 2) + ProcessorBytes(6, 1) + IO_APIC_BYTES;
            && InTable(t, 0, 4) && Found(t, 0, 4) == [Cpu(0, true), Cpu(6, false)]
            && Slots(true, Found(t, 0, 4)) == [Cpu(0, true), Cpu(1, false), Cpu(6, false), Cpu(7, false)]
            && IoApicAfter(t, 0, 4, NO_ADDRESS) == [0, 0, 0xC0, 0xFE]
  {
    var t := ProcessorBytes(0, 3) + ProcessorBytes(2, 2) + ProcessorBytes(6, 1) + IO_APIC_BYTES;
    assert t[20] == t[40] == 0 && t[60] == 2 && t[64..68] == [0, 0, 0xC0, 0xFE];
    assert InTable(t, 68, 0) && InTable(t, 60, 1) && InTable(t, 40, 2) && InTable(t, 20, 3);
    assert Found(t, 68, 0) == Found(t, 60, 1) == [];
    assert Found(t, 40, 2) == Found(t, 20, 3) == [Cpu(6, false)];
    assert IoApicAfter(t, 60, 1, NO_ADDRESS) == IoApicAfter(t, 40, 2, NO_ADDRESS) == [0, 0, 0xC0, 0xFE];
    assert [Cpu(0, true), Cpu(6, false)][1..] == [Cpu(6, false)];
    assert Slots(true, [Cpu(6, false)]) == [Cpu(6, false), Cpu(7, false)];
  }

  // ---------------------------------------------------------------- the I/O APIC

  /** An I/O APIC entry: bit 0 of its flags says that it is usable. */
  predicate UsableIoApic(e: Entry) {
    e.Other? && e.Ok() && e.kind == 2 && e.rest[2] % 2 == 1
  }

  /** The address remembered is that in the last usable I/O APIC entry `k`, or the old one when there is none (-1). */
  lemma {:induction false} IoApicIs(t: seq<byte>, at: nat, es: seq<Entry>, was: seq<byte>, k: int)
    requires Holds(t, at, es) && LocalInterruptOnlyLast(es) && InTable(t, at, |es|)
    requires -1 <= k < |es| && (k >= 0 ==> UsableIoApic(es[k]))
    requires forall i :: k < i < |es| ==> !UsableIoApic(es[i])
    ensures IoApicAfter(t, at, |es|, was) == if k == -1 then was else es[k].rest[3..7]
    decreases |es|
  {
    if es != [] {
      ReadsFirst(t, at, es);
      IoApicOfFirst(t, at, es, was);
      if |es| > 1 {
        IoApicIs(t, at + SizeOf(t[at]), es[1..], if UsableIoApic(es[0]) then es[0].rest[3..7] else was,
                 if k <= 0 then -1 else k - 1);
      }
    }
  }

  lemma IoApicOfFirst(t: seq<byte>, at: nat, es: seq<Entry>, was: seq<byte>)
    requires es != [] && Holds(t, at, es) && InTable(t, at, |es|)
    ensures IoApicAfter(t, at, |es|, was)
            == IoApicAfter(t, at + SizeOf(t[at]), |es| - 1, if UsableIoApic(es[0]) then es[0].rest[3..7] else was)
  {
    if es[0].Other? {
      assert t[at + 1..at + 8][2] == t[at + 3] && t[at + 1..at + 8][3..7] == t[at + 4..at + 8];
    }
  }

  // ---------------------------------------------------------------- the code

  datatype Outcome =
    | Ready
    | Single       // the call returned -1
    | Panicked     // no memory for the slots

  class Smp {
    var cpuData: array<Cpu>        // the memory b_malloc returned
    var cursor: int                // cpu_data, as an index into it
    var numCpus: nat
    var hyperthreading: bool
    var localApic: seq<byte>
    var ioApic: seq<byte>

    constructor ()
      ensures numCpus == 0 && !hyperthreading
    {
      cpuData := new Cpu[0];
      cursor, numCpus, hyperthreading := 0, 0, false;
      localApic, ioApic := NO_ADDRESS, NO_ADDRESS;
    }

    /** First pass: counts the usable processors. */
    method Count(t: seq<byte>, at: nat, n: nat)
      requires InTable(t, at, n)
      modifies this`numCpus, this`ioApic
      ensures numCpus == old(numCpus) + |Found(t, at, n)|
      ensures ioApic == IoApicAfter(t, at, n, old(ioApic))
    {
      var entry := at;
      for i := 0 to n
        invariant InTable(t, entry, n - i)
        invariant numCpus + |Found(t, entry, n - i)| == old(numCpus) + |Found(t, at, n)|
        invariant IoApicAfter(t, entry, n - i, ioApic) == IoApicAfter(t, at, n, old(ioApic))
      {
        match t[entry] {
          case 0 =>
            if t[entry + 3] % 2 == 1 {
              numCpus := numCpus + 1;
            }
            entry := entry + 20;
          case 1 => entry := entry + 8;
          case 2 =>
            if t[entry + 3] % 2 == 1 {
              ioApic := t[entry + 4..entry + 8];
            }
            entry := entry + 8;
          case 3 => entry := entry + 8;
          case 4 => entry := entry + 7;
          case _ =>
        }
      }
    }

    /** Second pass: fills the slots from `cursor` on. */
    method Fill(t: seq<byte>, at: nat, n: nat)
      requires InTable(t, at, n) && cursor == 0
      requires Threads(hyperthreading, |Found(t, at, n)|) <= cpuData.Length
      modifies this`cursor, cpuData
      ensures cursor == |Slots(hyperthreading, Found(t, at, n))| <= cpuData.Length
      ensures cpuData[..cursor] == Slots(hyperthreading, Found(t, at, n))
      ensures cpuData[cursor..] == old(cpuData[..])[cursor..]
    {
      var savedEntry: nat := at;
      ghost var all, was := Slots(hyperthreading, Found(t, at, n)), cpuData[..];
      for i := 0 to n
        invariant Filled(t, savedEntry, n - i, all, was)
      {
        savedEntry := FillRound(t, savedEntry, n - i, all, was);
      }
      assert Slots(hyperthreading, Found(t, savedEntry, 0)) == [];
    }

    /** The slots before `cursor` are done, those behind it as they `was`. */
    ghost predicate Filled(t: seq<byte>, at: nat, left: nat, all: seq<Cpu>, was: seq<Cpu>)
      reads this, cpuData
    {
      && 0 <= cursor <= cpuData.Length == |was| && |all| <= |was|
      && Filling(hyperthreading, t, at, left, all, cpuData[..cursor])
      && cpuData[cursor..] == was[cursor..]
    }

    method FillRound(t: seq<byte>, savedEntry: nat, ghost left: nat, ghost all: seq<Cpu>,
                     ghost was: seq<Cpu>) returns (next: nat)
      requires Filled(t, savedEntry, left, all, was) && left > 0
      modifies this`cursor, cpuData
      ensures Filled(t, next, left - 1, all, was)
    {
      ghost var done, now, own := cpuData[..cursor], cpuData[..], SlotsOf(hyperthreading, t, savedEntry);
      ghost var c := cursor + |own|;
      FillingStep(hyperthreading, t, savedEntry, left, all, done);
      SameTail(now, was, cursor, c);
      next := FillOne(t, savedEntry);
      assert cursor == c && cpuData[..cursor] == done + own;
      assert Filling(hyperthreading, t, next, left - 1, all, cpuData[..cursor]);
    }

    /** One round of the second pass. */
    method FillOne(t: seq<byte>, savedEntry: nat) returns (next: nat)
      requires savedEntry < |t| && savedEntry + SizeOf(t[savedEntry]) <= |t|
      requires 0 <= cursor && cursor + |SlotsOf(hyperthreading, t, savedEntry)| <= cpuData.Length
      modifies this`cursor, cpuData
      ensures next == savedEntry + SizeOf(t[savedEntry])
      ensures cursor == old(cursor) + |SlotsOf(hyperthreading, t, savedEntry)|
      ensures cpuData[..cursor] == old(cpuData[..cursor]) + SlotsOf(hyperthreading, t, savedEntry)
      ensures cpuData[cursor..] == old(cpuData[..])[cursor..]
    {
      next := savedEntry;
      match t[savedEntry] {
        case 0 =>
          if t[savedEntry + 3] % 2 == 1 {
            AddProcessor(t[savedEntry + 1], t[savedEntry + 3] / 2 % 2 == 1);
          }
          next := next + 20;
        case 1 => next := next + 8;
        case 2 => next := next + 8;
        case 3 => next := next + 8;
        case 4 => next := next + 7;
        case _ =>
      }
    }

    /** Fills the slots of one processor and moves on behind them. */
    method AddProcessor(id: byte, bsp: bool)
      requires 0 <= cursor && cursor + Threads(hyperthreading, 1) <= cpuData.Length
      modifies this`cursor, cpuData
      ensures cursor == old(cursor) + Threads(hyperthreading, 1)
      ensures cpuData[..cursor] == old(cpuData[..cursor]) + SlotsFor(hyperthreading, Cpu(id, bsp))
      ensures cpuData[cursor..] == old(cpuData[..])[cursor..]
    {
      cpuData[cursor] := Cpu(id, bsp);
      cursor := cursor + 1;
      if hyperthreading {
        cpuData[cursor] := Cpu(Next(id), false);
        cursor := cursor + 1;
      }
    }

    /**
     Finds the processors.  Starting with a count of 0, the second pass fills every slot the first
     one allocated, and the final subtraction brings cpu_data back to the first slot.
     */
    method InitCpuData(t: seq<byte>, at: nat, n: nat, cpuHasHt: bool, memory: bool) returns (r: Outcome)
      requires InTable(t, at, n)
      modifies this
      ensures var usable := old(numCpus) + |Found(t, at, n)|;
              && (r == Panicked <==> !memory)
              && (r == Single <==> memory && usable == 1)
              && (r == Single ==>
                    numCpus == 1 && cpuData.Length == 1 && cursor == 0 && localApic == ioApic == NO_ADDRESS)
              && (r == Ready ==>
                    && hyperthreading == cpuHasHt
                    && numCpus == Threads(hyperthreading, usable) == cpuData.Length
                    && cpuData[..] == Slots(hyperthreading,
                       Found(t, at, n)) + seq(Threads(hyperthreading, old(numCpus)), _ => Cpu(0, false))
                    && cursor + Threads(hyperthreading, old(numCpus)) == 0
                    && ioApic == IoApicAfter(t, at, n, old(ioApic)))
    {
      Count(t, at, n);
      if numCpus == 1 {
        if !memory {
          return Panicked;
        }
        cpuData, cursor := new Cpu[numCpus], 0;
        localApic, ioApic := NO_ADDRESS, NO_ADDRESS;
        return Single;
      }
      hyperthreading := cpuHasHt;
      if hyperthreading {
        numCpus := numCpus * 2;
      }
      if !memory {
        return Panicked;
      }
      cpuData, cursor := new Cpu[numCpus](_ => Cpu(0, false)), 0;
      FillAll(t, at, n, old(numCpus));
      return Ready;
    }

    /** The second pass on cleared slots, and the subtraction behind it. */
    method FillAll(t: seq<byte>, at: nat, n: nat, ghost before: nat)
      requires InTable(t, at, n) && cursor == 0
      requires numCpus == cpuData.Length == Threads(hyperthreading, before + |Found(t, at, n)|)
      requires forall k :: 0 <= k < cpuData.Length ==> cpuData[k] == Cpu(0, false)
      modifies this`cursor, cpuData
      ensures cpuData[..] == Slots(hyperthreading, Found(t, at, n)) + seq(Threads(hyperthreading, before),
              _ => Cpu(0, false))
      ensures cursor + Threads(hyperthreading, before) == 0
    {
      ghost var blank := cpuData[..];
      Fill(t, at, n);
      assert cpuData[..] == cpuData[..cursor] + blank[cursor..];
      assert blank[cursor..] == seq(Threads(hyperthreading, before), _ => Cpu(0, false));
      cursor := cursor - numCpus;
    }
  }
}
