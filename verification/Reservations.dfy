/** LR and SC over whole runs: a valid reservation remembers memory. */
module Reservations {
  import opened Words
  import opened Memory
  import opened BusSpec
  import opened PagingSpec
  import opened PagingProofs
  import opened CsrSpec
  import opened Decoding
  import opened CpuSpec
  import opened Precise
  import StepProofs
  import Traps

  // ----- a reserved word and what may happen to it

  /** `now` is what a reservation at `addr` remembers as `before`: the same, save that the low half of an
      aligned word may have gained accessed and dirty bits as a page-table leaf. */
  predicate Held(addr: int, before: Word, now: Word) {
    if addr % 8 == 0 then Grown(before, now) else now == before
  }

  predicate NaturallyAligned(a: int, n: nat) {
    (n == 4 && a % 4 == 0) || (n == 8 && a % 8 == 0)
  }

  /** LR only ever reserves naturally aligned words and doublewords. */
  predicate WellReserved(r: Reservation) {
    NaturallyAligned(r.addr, r.size)
  }

  function ReservedWord(r: Reservation, m: Ram): Word
    requires WellReserved(r)
  {
    RangeOfSize(r.size);
    LoadBytes(m, r.addr, r.size)
  }

  /** The reserved bytes, if in RAM, are as before up to accessed and dirty bits. */
  predicate Remembers(r: Reservation, m: Ram, m': Ram) {
    WellReserved(r) && InRam(r.addr) ==> Held(r.addr, ReservedWord(r, m), ReservedWord(r, m'))
  }

  lemma RemembersItself(r: Reservation, m: Ram)
    ensures Remembers(r, m, m)
  {
  }

  lemma RemembersOn(r: Reservation, m: Ram, m': Ram, m'': Ram)
    requires Remembers(r, m, m') && Remembers(r, m', m'')
    ensures Remembers(r, m, m'')
  {
    if WellReserved(r) && InRam(r.addr) && r.addr % 8 == 0 {
      GrowsTransitively(ReservedWord(r, m), ReservedWord(r, m'), ReservedWord(r, m''));
    }
  }

  lemma LowHalfFields(w: Word, lo: Word, hi: Word)
    requires lo < 0x1_0000_0000 && hi < 0x1_0000_0000 && w == lo + 0x1_0000_0000 * hi
    ensures Low(w) == Low(lo) && Status(w) == Status(lo) && High(w) == High(lo) + 0x100_0000 * hi
    ensures High(lo) < 0x100_0000
  {
    var q, r := lo / 64, lo % 64;
    assert w == 64 * (q + 0x400_0000 * hi) + r;
    assert w / 64 == q + 0x400_0000 * hi;
    assert w / 256 == w / 64 / 4 && lo / 256 == lo / 64 / 4;
  }

  lemma HalvesUnique(a: nat, b: nat, a': nat, b': nat)
    requires a < 0x100_0000 && a' < 0x100_0000 && a + 0x100_0000 * b == a' + 0x100_0000 * b'
    ensures a == a' && b == b'
  {
  }

  lemma LowFieldsDecide(lo: Word, lo': Word)
    requires Low(lo') == Low(lo) && Status(lo') == Status(lo) && High(lo') == High(lo)
    ensures lo' == lo
  {
    SplitEntryWord(lo);
    SplitEntryWord(lo');
  }

  lemma SameLowDecodes(w: Word, lo: Word)
    requires Low(w) == Low(lo)
    ensures IsLeaf(DecodePte(w)) == IsLeaf(DecodePte(lo))
  {
  }

  lemma HalvesGrow(w: Word, lo: Word, hi: Word, w': Word, lo': Word, hi': Word)
    requires lo < 0x1_0000_0000 && hi < 0x1_0000_0000 && w == lo + 0x1_0000_0000 * hi
    requires lo' < 0x1_0000_0000 && hi' < 0x1_0000_0000 && w' == lo' + 0x1_0000_0000 * hi'
    requires Grown(w, w')
    ensures Grown(lo, lo') && hi' == hi
  {
    LowHalfFields(w, lo, hi);
    LowHalfFields(w', lo', hi');
    HalvesUnique(High(lo), hi, High(lo'), hi');
    SameLowDecodes(w, lo);
    if Status(w') == Status(w) {
      LowFieldsDecide(lo, lo');
    }
  }

  // ----- page walks

  /** Translations only set accessed and dirty bits, and keep the position of an address in its word. */
  ghost predicate Gentle(mmu: Mmu) {
    forall s, va, access :: GentleWalk(s, va, mmu(s, va, access))
  }

  ghost predicate GentleWalk(s: State, va: bv64, walk: Walk) {
    AdExtends(s.bus, walk.s.bus) && (walk.t.At? ==> walk.t.pa % 8 == ToWord(va) % 8)
  }

  lemma Sv39IsGentle()
    ensures Gentle(Sv39Mmu())
  {
    forall s, va, access
      ensures GentleWalk(s, va, Sv39Mmu()(s, va, access))
    {
      WalkExtends(s.bus, Ctx(s), ToWord(va), access);
      MapKeepsPosition(Entries(s.bus), Ctx(s), ToWord(va), access);
    }
  }

  lemma MapKeepsPosition(t: Tables, c: Context, va: Word, access: Access)
    ensures Map(t, c, va, access).At? ==> Map(t, c, va, access).pa % 8 == va % 8
  {
    match GrantingLeaf(t, c, va, access)
    case None =>
    case Some(leaf) => OffsetKeepsPosition(va, leaf.level, leaf.entry.ppn);
  }

  lemma EightsApart(x: int, y: int, k: int)
    requires x == y + 8 * k
    ensures x % 8 == y % 8
  {
  }

  lemma FoursApart(x: int, y: int, k: int)
    requires x == y + 4 * k
    ensures x % 4 == y % 4
  {
  }

  lemma OffsetKeepsPosition(va: Word, level: nat, ppn: nat)
    ensures (ppn * 0x1000 + Offset(va, level)) % 8 == va % 8
  {
    if level == 0 {
      EightsApart(ppn * 0x1000 + Offset(va, 0), va, ppn * 0x200 - va / 0x1000 * 0x200);
    } else if level == 1 {
      EightsApart(ppn * 0x1000 + Offset(va, 1), va, ppn * 0x200 - va / 0x20_0000 * 0x4_0000);
    } else {
      EightsApart(ppn * 0x1000 + Offset(va, 2), va, ppn * 0x200 - va / 0x4000_0000 * 0x800_0000);
    }
  }

  lemma WalkRemembers(r: Reservation, b: Bus, b': Bus)
    requires AdExtends(b, b')
    ensures Remembers(r, b.ram, b'.ram)
  {
    if WellReserved(r) && InRam(r.addr) {
      if r.size == 8 {
        DoublewordRemembered(r, b, b');
      } else {
        HalfRemembered(r, b, b');
      }
    }
  }

  lemma DoublewordRemembered(r: Reservation, b: Bus, b': Bus)
    requires AdExtends(b, b') && WellReserved(r) && InRam(r.addr) && r.size == 8
    ensures Remembers(r, b.ram, b'.ram)
  {
    AlignedFits(r.addr);
    assert Grown(PteAt(b, r.addr), PteAt(b', r.addr));
  }

  lemma HalvesOfWord(m: Ram, p: int) returns (w: Word, lo: Word, hi: Word)
    ensures lo < 0x1_0000_0000 && hi < 0x1_0000_0000 && w == lo + 0x1_0000_0000 * hi
    ensures w == LoadBytes(m, p, 8) && lo == LoadBytes(m, p, 4) && hi == LoadBytes(m, p + 4, 4)
  {
    RangeOfSize(4);
    DoublewordSplits(m, p);
    lo, hi := LoadBytes(m, p, 4), LoadBytes(m, p + 4, 4);
    w := lo + 0x1_0000_0000 * hi;
  }

  lemma AlignedHalvesFit(p: int)
    requires p % 8 == 0 && InRam(p)
    ensures ValidAccess(p, 8) && ValidAccess(p, 4) && ValidAccess(p + 4, 4)
  {
    AlignedFits(p);
  }

  /** Of a word that a walk may mark, only the low half can change. */
  lemma HalvesKept(b: Bus, b': Bus, p: int)
    requires Grown(PteAt(b, p), PteAt(b', p)) && p % 8 == 0 && InRam(p)
    ensures Grown(MemRead(b.ram, p, 4), MemRead(b'.ram, p, 4))
    ensures MemRead(b'.ram, p + 4, 4) == MemRead(b.ram, p + 4, 4)
  {
    AlignedHalvesFit(p);
    var w, lo, hi := HalvesOfWord(b.ram, p);
    var w', lo', hi' := HalvesOfWord(b'.ram, p);
    assert w == PteAt(b, p) && w' == PteAt(b', p);
    HalvesGrow(w, lo, hi, w', lo', hi');
  }

  lemma LowHalfRemembered(r: Reservation, b: Bus, b': Bus)
    requires AdExtends(b, b') && r.size == 4 && r.addr % 8 == 0 && InRam(r.addr)
    ensures Remembers(r, b.ram, b'.ram)
  {
    HalvesKept(b, b', r.addr);
    AlignedHalvesFit(r.addr);
  }

  lemma HighHalfRemembered(r: Reservation, b: Bus, b': Bus)
    requires AdExtends(b, b') && r.size == 4 && r.addr % 8 == 4 && InRam(r.addr)
    ensures Remembers(r, b.ram, b'.ram)
  {
    var p := r.addr - 4;
    HighHalfBase(r.addr);
    assert Grown(PteAt(b, p), PteAt(b', p));
    HalvesKept(b, b', p);
    RemembersHighWord(r, b.ram, b'.ram, p);
  }

  lemma RemembersHighWord(r: Reservation, m: Ram, m': Ram, p: int)
    requires r.size == 4 && r.addr == p + 4 && p % 8 == 0 && InRam(p)
    requires MemRead(m', p + 4, 4) == MemRead(m, p + 4, 4)
    ensures Remembers(r, m, m')
  {
    AlignedHalvesFit(p);
    EightsApart(r.addr, 4, p / 8);
  }

  lemma HighHalfBase(a: int)
    requires a % 8 == 4 && InRam(a)
    ensures (a - 4) % 8 == 0 && InRam(a - 4)
  {
    EightsApart(a - 4, 0, a / 8);
  }

  lemma HalfRemembered(r: Reservation, b: Bus, b': Bus)
    requires AdExtends(b, b') && WellReserved(r) && InRam(r.addr) && r.size == 4
    ensures Remembers(r, b.ram, b'.ram)
  {
    if r.addr % 8 == 0 {
      LowHalfRemembered(r, b, b');
    } else {
      HighHalfRemembered(r, b, b');
    }
  }

  // ----- stores

  /** A store that leaves a reservation valid has missed all its bytes. */
  lemma StoreRemembers(r: Reservation, b: Bus, pa: int, n: Size, w: Word)
    requires Invalidated(r, pa, n).valid
    ensures Remembers(r, b.ram, BusWrite(b, pa, n, w).ram)
  {
    if WellReserved(r) && InRam(r.addr) && ValidAccess(pa, n) {
      MissedBytes(r, pa, n);
      LoadElsewhere(b.ram, pa, n, w, r.addr, r.size);
    }
    RemembersItself(r, b.ram);
  }

  /** In RAM the interval test is exact: what it lets through is disjoint. */
  lemma MissedBytes(r: Reservation, pa: int, n: Size)
    requires WellReserved(r) && InRam(r.addr) && ValidAccess(pa, n)
    ensures Overlaps(r, pa, n) <==> !Disjoint(pa, n, r.addr, r.size)
  {
  }

  // ----- one instruction

  /** What was reserved is still reserved, and remembered, unless the reservation is gone. */
  predicate Carried(s: State, s': State) {
    s'.reservation.valid ==>
      s'.reservation == s.reservation && Remembers(s.reservation, s.bus.ram, s'.bus.ram)
  }

  lemma CarriedOn(s: State, s': State, s'': State)
    requires Carried(s, s') && Carried(s', s'')
    ensures Carried(s, s'')
  {
    if s''.reservation.valid {
      RemembersOn(s.reservation, s.bus.ram, s'.bus.ram, s''.bus.ram);
    }
  }

  lemma SameMemoryCarries(s: State, s': State)
    requires s'.bus.ram == s.bus.ram && s'.reservation == s.reservation
    ensures Carried(s, s')
  {
    RemembersItself(s.reservation, s.bus.ram);
  }

  lemma WalkCarries(s: State, va: bv64, access: Access, core: Core)
    requires Lawful(core.mmu) && Gentle(core.mmu)
    ensures Carried(s, core.mmu(s, va, access).s)
  {
    var walk := core.mmu(s, va, access);
    assert Contained(s, walk) && GentleWalk(s, va, walk);
    WalkRemembers(s.reservation, s.bus, walk.s.bus);
  }

  lemma PutCarries(s: State, pa: int, n: Size, w: Word)
    ensures Carried(s, Put(s, pa, n, w))
  {
    if Put(s, pa, n, w).reservation.valid {
      StoreRemembers(s.reservation, s.bus, pa, n, w);
    }
  }

  lemma LoadCarries(walk: Walk, d: IType, va: bv64)
    ensures LoadFrom(walk, d, va).Done? ==> Carried(walk.s, LoadFrom(walk, d, va).s)
  {
    if walk.t.At? {
      SameMemoryCarries(walk.s, AfterGet(walk.s, walk.t.pa, LoadWidth(d.funct3)));
    }
  }

  lemma StoreCarries(walk: Walk, va: bv64, n: Size, w: Word)
    ensures StoreTo(walk, va, n, w).Done? ==> Carried(walk.s, StoreTo(walk, va, n, w).s)
  {
    if walk.t.At? {
      PutCarries(walk.s, walk.t.pa, n, w);
    }
  }

  lemma AmoCarries(walk: Walk, d: AType, va: bv64, rhs: bv64, n: Size, raw: bv32)
    ensures AmoAt(walk, d, va, rhs, n, raw).Done? ==> Carried(walk.s, AmoAt(walk, d, va, rhs, n, raw).s)
  {
    if walk.t.At? {
      match AmoResult(d.funct5, ToBits(GetValue(walk.s, walk.t.pa, n)), rhs, n)
      case None =>
      case Some(result) => PutCarries(walk.s, walk.t.pa, n, ToWord(result));
    }
  }

  /** Whether an instruction may write memory or the reservation at all. */
  predicate TouchesMemory(i: Instruction) {
    i.LoadOp? || i.StoreOp? || i.AtomicOp?
  }

  predicate SameMemory(s: State, e: Effect) {
    e.Done? ==> e.s.bus == s.bus && e.s.reservation == s.reservation
  }

  lemma CsrKeepsMemory(s: State, d: IType, a: nat, raw: bv32)
    ensures SameMemory(s, ExecCsr(s, d, a, raw))
  {
  }

  lemma PrivilegedKeepsMemory(s: State, d: IType, funct7: bv7, raw: bv32)
    ensures SameMemory(s, ExecPrivileged(s, d, funct7, raw))
  {
  }

  lemma OthersKeepMemory(s: State, i: Instruction, raw: bv32, core: Core)
    requires !TouchesMemory(i)
    ensures SameMemory(s, Exec(s, i, raw, core))
  {
    match i
    case SystemOp(d, funct7, csr) =>
      CsrKeepsMemory(s, d, csr, raw);
      PrivilegedKeepsMemory(s, d, funct7, raw);
    case _ =>
  }

  // ----- what a load-reserved remembers

  /** The value the reservation of a completed LR stands for; None for every other instruction. */
  ghost function Reserved(s: State, i: Instruction, core: Core): Option<Word> {
    match i
    case AtomicOp(d) =>
      var n := AtomicWidth(d);
      if (d.funct3 == 2 || d.funct3 == 3) && d.funct5 == LR && d.rs2 == 0 && !Misaligned(ReadReg(s, d.rs1), n)
      then ReservedAt(core.mmu(s, ReadReg(s, d.rs1), Load), n)
      else None
    case _ => None
  }

  function ReservedAt(walk: Walk, n: Size): Option<Word> {
    if walk.t.At? then Some(GetValue(walk.s, walk.t.pa, n)) else None
  }

  /** A valid reservation is well formed and, in RAM, memory still holds what it remembers. */
  predicate Faithful(s: State, snapshot: Word) {
    s.reservation.valid ==>
      && WellReserved(s.reservation)
      && (InRam(s.reservation.addr) ==>
            Held(s.reservation.addr, snapshot, ReservedWord(s.reservation, s.bus.ram)))
  }

  lemma CarriedFaithful(s: State, s': State, snapshot: Word)
    requires Faithful(s, snapshot) && Carried(s, s')
    ensures Faithful(s', snapshot)
  {
    if s'.reservation.valid && InRam(s.reservation.addr) && s.reservation.addr % 8 == 0 {
      GrowsTransitively(snapshot, ReservedWord(s.reservation, s.bus.ram), ReservedWord(s.reservation, s'.bus.ram));
    }
  }

  lemma LowBitsClear(va: bv64, n: Size)
    requires (n == 4 || n == 8) && !Misaligned(va, n)
    ensures !Odd(va) && !Odd(Half(va)) && (n == 8 ==> !Odd(Half(Half(va))))
  {
  }

  lemma EvenWord(x: bv64, bits: nat)
    requires bits > 0 && !Odd(x)
    ensures Unsigned(x, bits) == 2 * Unsigned(Half(x), bits - 1)
  {
  }

  lemma AlignedAddress(va: bv64, n: Size)
    requires (n == 4 || n == 8) && !Misaligned(va, n)
    ensures NaturallyAligned(ToWord(va), n)
  {
    LowBitsClear(va, n);
    var bits := 64;
    EvenWord(va, bits);
    EvenWord(Half(va), bits - 1);
    MultipleOf4(Unsigned(va, 64), Unsigned(Half(va), 63), Unsigned(Half(Half(va)), 62));
    if n == 8 {
      EvenWord(Half(Half(va)), bits - 2);
      MultipleOf8(Unsigned(va, 64), Unsigned(Half(Half(va)), 62), Unsigned(Half(Half(Half(va))), 61));
    }
  }

  lemma MultipleOf4(w: nat, h: nat, q: nat)
    requires w == 2 * h && h == 2 * q
    ensures w == 4 * q && w % 4 == 0
  {
  }

  lemma MultipleOf8(w: nat, q: nat, e: nat)
    requires w == 4 * q && q == 2 * e
    ensures w % 8 == 0
  {
  }

  /** A fresh reservation of an aligned place in RAM remembers what a read of it returns. */
  lemma FreshReservation(b: Bus, pa: int, n: Size)
    requires NaturallyAligned(pa, n) && InRam(pa)
    ensures Held(pa, BusRead(b, pa, n), ReservedWord(Reservation(true, pa, n), b.ram))
  {
    assert ValidAccess(pa, n);
  }

  lemma FreshlyFaithful(s: State, pa: int, n: Size)
    requires s.reservation == Reservation(true, pa, n) && NaturallyAligned(pa, n)
    ensures Faithful(s, BusRead(s.bus, pa, n))
  {
    if InRam(pa) {
      FreshReservation(s.bus, pa, n);
    }
  }

  lemma SamePosition(va: nat, pa: int, n: Size)
    requires NaturallyAligned(va, n) && pa % 8 == va % 8
    ensures NaturallyAligned(pa, n)
  {
    var k := pa / 8 - va / 8;
    assert pa == va + 8 * k;
    FoursApart(pa, va, 2 * k);
  }

  lemma LrReserves(walk: Walk, d: AType, va: bv64, n: Size)
    requires walk.t.At?
    ensures LrAt(walk, d, va, n).Done?
    ensures var s := LrAt(walk, d, va, n).s;
            s.reservation == Reservation(true, walk.t.pa, n) && s.bus == walk.s.bus
  {
  }

  lemma LrFaithful(s: State, va: bv64, walk: Walk, d: AType, n: Size)
    requires (n == 4 || n == 8) && !Misaligned(va, n) && GentleWalk(s, va, walk) && walk.t.At?
    ensures LrAt(walk, d, va, n).Done? && Faithful(LrAt(walk, d, va, n).s, GetValue(walk.s, walk.t.pa, n))
  {
    AlignedAddress(va, n);
    SamePosition(ToWord(va), walk.t.pa, n);
    LrReserves(walk, d, va, n);
    FreshlyFaithful(LrAt(walk, d, va, n).s, walk.t.pa, n);
  }

  // ----- runs

  /** The remembered value after an instruction: a completed LR starts a new memory, all else keeps it. */
  ghost function Snapshot(s: State, i: Instruction, core: Core, snapshot: Word): Word {
    match Reserved(s, i, core)
    case None => snapshot
    case Some(w) => w
  }

  lemma AtomicFaithful(s: State, d: AType, raw: bv32, core: Core, snapshot: Word)
    requires Lawful(core.mmu) && Gentle(core.mmu) && Faithful(s, snapshot) && ExecAtomic(s, d, raw, core).Done?
    ensures Faithful(ExecAtomic(s, d, raw, core).s, Snapshot(s, AtomicOp(d), core, snapshot))
  {
    var n := AtomicWidth(d);
    if IsAmo(d.funct5) {
      AmoFaithful(s, d, raw, n, core, snapshot);
    } else if d.funct5 == LR {
      LrExecFaithful(s, d, raw, n, core);
    } else {
      ScFaithful(s, d, n, core, snapshot);
    }
  }

  lemma LrExecFaithful(s: State, d: AType, raw: bv32, n: Size, core: Core)
    requires (n == 4 || n == 8) && Gentle(core.mmu) && ExecLr(s, d, raw, n, core).Done?
    ensures var va := ReadReg(s, d.rs1);
            var walk := core.mmu(s, va, Load);
            && d.rs2 == 0 && !Misaligned(va, n) && walk.t.At?
            && Faithful(ExecLr(s, d, raw, n, core).s, GetValue(walk.s, walk.t.pa, n))
  {
    var va := ReadReg(s, d.rs1);
    assert GentleWalk(s, va, core.mmu(s, va, Load));
    LrFaithful(s, va, core.mmu(s, va, Load), d, n);
  }

  lemma AmoFaithful(s: State, d: AType, raw: bv32, n: Size, core: Core, snapshot: Word)
    requires Lawful(core.mmu) && Gentle(core.mmu) && Faithful(s, snapshot) && ExecAmo(s, d, raw, n, core).Done?
    ensures Faithful(ExecAmo(s, d, raw, n, core).s, snapshot)
  {
    var va := ReadReg(s, d.rs1);
    WalkCarries(s, va, Store, core);
    var walk := core.mmu(s, va, Store);
    AmoCarries(walk, d, va, AmoOperand(ReadReg(s, d.rs2), n), n, raw);
    CarriedOn(s, walk.s, ExecAmo(s, d, raw, n, core).s);
    CarriedFaithful(s, ExecAmo(s, d, raw, n, core).s, snapshot);
  }

  lemma ScSucceeds(walk: Walk, d: AType, va: bv64, n: Size, w: Word)
    requires walk.t.At? && Reserves(walk.s.reservation, walk.t.pa, n)
    ensures ScAt(walk, d, va, w, n).Done?
    ensures var s' := ScAt(walk, d, va, w, n).s;
            && s'.bus == BusWrite(walk.s.bus, walk.t.pa, n, w) && !s'.reservation.valid
            && (d.rd != 0 ==> ReadReg(s', d.rd) == 0)
  {
  }

  lemma ScFails(walk: Walk, d: AType, va: bv64, n: Size, w: Word)
    requires walk.t.At? && !Reserves(walk.s.reservation, walk.t.pa, n)
    ensures ScAt(walk, d, va, w, n).Done?
    ensures var s' := ScAt(walk, d, va, w, n).s;
            && s'.bus == walk.s.bus && !s'.reservation.valid
            && (d.rd != 0 ==> ReadReg(s', d.rd) == 1)
  {
  }

  lemma ScFaithful(s: State, d: AType, n: Size, core: Core, snapshot: Word)
    requires ExecSc(s, d, n, core).Done?
    ensures !ExecSc(s, d, n, core).s.reservation.valid
  {
    var va := ReadReg(s, d.rs1);
    var walk := core.mmu(s, va, Store);
    if Reserves(walk.s.reservation, walk.t.pa, n) {
      ScSucceeds(walk, d, va, n, StoreValue(ReadReg(s, d.rs2), n));
    } else {
      ScFails(walk, d, va, n, StoreValue(ReadReg(s, d.rs2), n));
    }
  }

  lemma LoadFaithful(s: State, d: IType, raw: bv32, core: Core, snapshot: Word)
    requires Lawful(core.mmu) && Gentle(core.mmu) && Faithful(s, snapshot) && ExecLoad(s, d, raw, core).Done?
    ensures Faithful(ExecLoad(s, d, raw, core).s, snapshot)
  {
    var va := Add(d.imm, ReadReg(s, d.rs1));
    WalkCarries(s, va, Load, core);
    LoadCarries(core.mmu(s, va, Load), d, va);
    CarriedOn(s, core.mmu(s, va, Load).s, ExecLoad(s, d, raw, core).s);
    CarriedFaithful(s, ExecLoad(s, d, raw, core).s, snapshot);
  }

  lemma StoreFaithful(s: State, d: SType, raw: bv32, core: Core, snapshot: Word)
    requires Lawful(core.mmu) && Gentle(core.mmu) && Faithful(s, snapshot) && ExecStore(s, d, raw, core).Done?
    ensures Faithful(ExecStore(s, d, raw, core).s, snapshot)
  {
    var va := Add(ReadReg(s, d.rs1), d.imm);
    var n := LoadWidth(d.funct3);
    WalkCarries(s, va, Store, core);
    StoreCarries(core.mmu(s, va, Store), va, n, StoreValue(ReadReg(s, d.rs2), n));
    CarriedOn(s, core.mmu(s, va, Store).s, ExecStore(s, d, raw, core).s);
    CarriedFaithful(s, ExecStore(s, d, raw, core).s, snapshot);
  }

  lemma InstructionFaithful(s: State, i: Instruction, raw: bv32, core: Core, snapshot: Word)
    requires Lawful(core.mmu) && Gentle(core.mmu) && Faithful(s, snapshot) && Exec(s, i, raw, core).Done?
    ensures Faithful(Exec(s, i, raw, core).s, Snapshot(s, i, core, snapshot))
  {
    match i
    case LoadOp(d) => LoadFaithful(s, d, raw, core, snapshot);
    case StoreOp(d) => StoreFaithful(s, d, raw, core, snapshot);
    case AtomicOp(d) => AtomicFaithful(s, d, raw, core, snapshot);
    case _ =>
      OthersKeepMemory(s, i, raw, core);
  }

  lemma DispatchFaithful(s: State, raw: bv32, core: Core, snapshot: Word)
    requires Lawful(core.mmu) && Gentle(core.mmu) && Faithful(s, snapshot)
    ensures match Exec(s, Decode(raw), raw, core)
            case Done(s') => Faithful(s', Snapshot(s, Decode(raw), core, snapshot))
            case Raise(_, _, _) => Faithful(Dispatch(s, raw, core), snapshot)
  {
    match Exec(s, Decode(raw), raw, core)
    case Done(_) => InstructionFaithful(s, Decode(raw), raw, core, snapshot);
    case Raise(at, cause, tval) =>
      StepProofs.ExecOrderly(s, Decode(raw), raw, core);
      Traps.ExceptionTraps(s, cause, tval);
      SameMemoryCarries(s, RaiseException(s, cause, tval));
      CarriedFaithful(s, RaiseException(s, cause, tval), snapshot);
  }

  /** What happens to the machine: a step, a tick of the timer, or a byte from the host. */
  datatype Event = Stepped | Tick | Input(input: Option<bv8>)

  ghost function After(s: State, e: Event, core: Core): State {
    match e
    case Stepped => Step(s, core)
    case Tick => Ticked(s)
    case Input(input) => HostInput(s, input)
  }

  /** The remembered value after an event: that of the last LR completed. */
  ghost function Remembered(s: State, e: Event, core: Core, snapshot: Word): Word {
    if e.Stepped? then StepSnapshot(core.mmu(Begun(s), s.pc, Fetch), core, snapshot) else snapshot
  }

  ghost function StepSnapshot(walk: Walk, core: Core, snapshot: Word): Word {
    if walk.t == Fault then snapshot
    else
      var raw := InstructionAt(walk.s, walk.t.pa);
      if Exec(walk.s, Decode(raw), raw, core).Done? then Snapshot(walk.s, Decode(raw), core, snapshot) else snapshot
  }

  lemma FinishCarries(s: State)
    ensures Carried(s, Finished(Retired(s)))
  {
    Traps.InterruptTakenExactly(Retired(s));
    SameMemoryCarries(s, Finished(Retired(s)));
  }

  lemma StepFaithful(s: State, core: Core, snapshot: Word)
    requires Lawful(core.mmu) && Gentle(core.mmu) && Faithful(s, snapshot)
    ensures Faithful(Step(s, core), Remembered(s, Stepped, core, snapshot))
  {
    SameMemoryCarries(s, Begun(s));
    WalkCarries(Begun(s), s.pc, Fetch, core);
    var walk := core.mmu(Begun(s), s.pc, Fetch);
    CarriedOn(s, Begun(s), walk.s);
    CarriedFaithful(s, walk.s, snapshot);
    match walk.t
    case Fault =>
      Traps.ExceptionTraps(walk.s, EXC_FETCH_PAGE, walk.s.pc);
      SameMemoryCarries(walk.s, Step(s, core));
      CarriedFaithful(walk.s, Step(s, core), snapshot);
    case At(pa) =>
      var raw := InstructionAt(walk.s, pa);
      DispatchFaithful(walk.s, raw, core, snapshot);
      FinishCarries(Dispatch(walk.s, raw, core));
      CarriedFaithful(Dispatch(walk.s, raw, core), Step(s, core), StepSnapshot(walk, core, snapshot));
  }

  lemma EventFaithful(s: State, e: Event, core: Core, snapshot: Word)
    requires Lawful(core.mmu) && Gentle(core.mmu) && Faithful(s, snapshot)
    ensures Faithful(After(s, e, core), Remembered(s, e, core, snapshot))
  {
    match e
    case Stepped => StepFaithful(s, core, snapshot);
    case Tick =>
    case Input(_) =>
  }

  ghost function AfterAll(s: State, events: seq<Event>, core: Core): State
    decreases |events|
  {
    if events == [] then s else AfterAll(After(s, events[0], core), events[1..], core)
  }

  ghost function RememberedAll(s: State, events: seq<Event>, core: Core, snapshot: Word): Word
    decreases |events|
  {
    if events == [] then snapshot
    else RememberedAll(After(s, events[0], core), events[1..], core, Remembered(s, events[0], core, snapshot))
  }

  /** Over any run, a valid reservation in RAM still stands for what the last completed LR read: memory there
      has not changed but for accessed and dirty bits of page-table leaves. */
  lemma {:induction false} RunsAreFaithful(s: State, events: seq<Event>, core: Core, snapshot: Word)
    requires Lawful(core.mmu) && Gentle(core.mmu) && Faithful(s, snapshot)
    ensures Faithful(AfterAll(s, events, core), RememberedAll(s, events, core, snapshot))
    decreases |events|
  {
    if events != [] {
      EventFaithful(s, events[0], core, snapshot);
      RunsAreFaithful(After(s, events[0], core), events[1..], core, Remembered(s, events[0], core, snapshot));
    }
  }
}
