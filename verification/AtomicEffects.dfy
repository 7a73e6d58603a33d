/** What the atomics leave in registers and memory, in terms of the instruction word and of numbers. */
module AtomicEffects {
  import opened Words
  import opened Memory
  import opened BusSpec
  import opened PagingSpec
  import opened Decoding
  import opened CpuSpec
  import opened Digits
  import opened Precise
  import opened Reservations
  import opened CompareAndSwap
  import opened Numbers
  import opened Instructions
  import StoreLoad

  // ----- instruction words

  /** The word is the atomic with this function code (bits 31 to 27) on `n` bytes (bits 14 to 12). */
  predicate AtomicWord(raw: bv32, funct5: bv5, n: Size) {
    && OpcodeOf(raw) == 0x2F && raw >> 27 == funct5 as bv32
    && ((n == 4 && (raw >> 12) & 0x7 == 2) || (n == 8 && (raw >> 12) & 0x7 == 3))
  }

  lemma AtomicFields(raw: bv32, funct5: bv5, n: Size)
    requires AtomicWord(raw, funct5, n)
    ensures var d := DecodeA(raw);
            && d.funct5 == funct5 && (d.funct3 == 2 || d.funct3 == 3) && AtomicWidth(d) == n
            && d.rd == Rd(raw) && d.rs1 == Rs1(raw) && d.rs2 == Rs2(raw)
  {
    CodeField(raw, funct5);
  }

  lemma CodeField(raw: bv32, funct5: bv5)
    requires raw >> 27 == funct5 as bv32
    ensures ((raw >> 27) & 0x1F) as bv5 == funct5
  {
  }

  lemma AtomicExecutes(s: State, raw: bv32, funct5: bv5, n: Size, core: Core)
    requires AtomicWord(raw, funct5, n)
    ensures Exec(s, Decode(raw), raw, core) == ExecAtomic(s, DecodeA(raw), raw, core)
  {
    OpcodeSelects(raw);
  }

  /** What the instruction word does. */
  ghost function Outcome(s: State, raw: bv32, core: Core): Effect {
    Exec(s, Decode(raw), raw, core)
  }

  // ----- registers

  /** If rd is not x0, its signed number is the one the `n` bytes of value `w` denote. */
  predicate HoldsNumber(s: State, rd: bv5, w: nat, n: nat) {
    rd != 0 ==> SignedBytes(ToWord(ReadReg(s, rd)), 8) == SignedBytes(w, n)
  }

  ghost predicate OthersKept(s: State, s': State, rd: bv5) {
    forall r: bv5 | r != rd :: ReadReg(s', r) == ReadReg(s, r)
  }

  lemma BusReadFits(b: Bus, a: int, n: Size)
    ensures BusRead(b, a, n) < Range(n)
  {
    RangeOfSize(n);
  }

  lemma ValueKeepsNumber(w: Word, n: Size)
    requires (n == 4 || n == 8) && w < Range(n)
    ensures SignedBytes(ToWord(AtomicValue(w, n)), 8) == SignedBytes(w, n)
  {
    if n == 4 {
      ExtensionKeepsNumber(w, n);
    } else {
      WordOfBits(w);
    }
  }

  lemma WritesNumber(s: State, rd: bv5, w: Word, n: Size)
    requires (n == 4 || n == 8) && w < Range(n)
    ensures var s' := WriteReg(s, rd, AtomicValue(w, n)); HoldsNumber(s', rd, w, n) && OthersKept(s, s', rd)
  {
    ValueKeepsNumber(w, n);
  }

  lemma SameRegsHold(s: State, s': State, t: State, rd: bv5, w: nat, n: nat)
    requires s'.regs == s.regs && HoldsNumber(s, rd, w, n) && OthersKept(t, s, rd)
    ensures HoldsNumber(s', rd, w, n) && OthersKept(t, s', rd)
  {
    forall r: bv5 ensures ReadReg(s', r) == ReadReg(s, r) {
    }
  }

  // ----- load-reserved

  /** A completed LR at the walk's address leaves there a reservation of its width, in rd the number it read,
      and everything else as the walk left it. */
  ghost predicate LoadedAndReserved(walk: Walk, s': State, rd: bv5, n: Size) {
    && walk.t.At?
    && s' == walk.s.(regs := s'.regs, reservation := Reservation(true, walk.t.pa, n))
    && HoldsNumber(s', rd, BusRead(walk.s.bus, walk.t.pa, n), n) && OthersKept(walk.s, s', rd)
    && (ValidAccess(walk.t.pa, n) ==> HoldsNumber(s', rd, LoadBytes(walk.s.bus.ram, walk.t.pa, n), n))
  }

  lemma LrLeaves(walk: Walk, d: AType, va: bv64, n: Size)
    requires walk.t.At? && (n == 4 || n == 8)
    ensures LrAt(walk, d, va, n).Done? && LoadedAndReserved(walk, LrAt(walk, d, va, n).s, d.rd, n)
  {
    var w := BusRead(walk.s.bus, walk.t.pa, n);
    BusReadFits(walk.s.bus, walk.t.pa, n);
    WritesNumber(walk.s, d.rd, w, n);
    SameRegsHold(WriteReg(walk.s, d.rd, AtomicValue(w, n)), LrAt(walk, d, va, n).s, walk.s, d.rd, w, n);
  }

  lemma LrIsExecLr(s: State, raw: bv32, n: Size, core: Core)
    requires AtomicWord(raw, 0x02, n)
    ensures Outcome(s, raw, core) == ExecLr(s, DecodeA(raw), raw, n, core)
  {
    AtomicFields(raw, 0x02, n);
    AtomicExecutes(s, raw, 0x02, n, core);
  }

  lemma LrCases(s: State, d: AType, raw: bv32, n: Size, core: Core)
    requires Lawful(core.mmu) && (n == 4 || n == 8)
    ensures var va, e := ReadReg(s, d.rs1), ExecLr(s, d, raw, n, core);
            var walk := core.mmu(s, va, Load);
            if d.rs2 != 0 then e == Raise(s, 2, raw as bv64)
            else if ToWord(va) % n != 0 then e == Raise(s, 4, va)
            else if walk.t == Fault then e == Raise(s, 13, va)
            else e.Done? && LoadedAndReserved(walk, e.s, d.rd, n)
  {
    var va := ReadReg(s, d.rs1);
    var walk := core.mmu(s, va, Load);
    MisalignedByNumber(va, n);
    assert Contained(s, walk);
    if walk.t.At? {
      LrLeaves(walk, d, va, n);
    }
  }

  /** What LR does, for every state: an rs2 field is illegal, a misaligned address and a page fault trap with the
      address, and otherwise it loads and reserves. */
  lemma LrExactly(s: State, raw: bv32, n: Size, core: Core)
    requires Lawful(core.mmu) && AtomicWord(raw, 0x02, n)
    ensures var va, e := ReadReg(s, Rs1(raw)), Outcome(s, raw, core);
            var walk := core.mmu(s, va, Load);
            if Rs2(raw) != 0 then e == Raise(s, 2, raw as bv64)
            else if ToWord(va) % n != 0 then e == Raise(s, 4, va)
            else if walk.t == Fault then e == Raise(s, 13, va)
            else e.Done? && LoadedAndReserved(walk, e.s, Rd(raw), n)
  {
    AtomicFields(raw, 0x02, n);
    LrIsExecLr(s, raw, n, core);
    LrCases(s, DecodeA(raw), raw, n, core);
  }

  // ----- store-conditional

  /** A completed SC leaves 0 in rd and its bytes in RAM if a valid reservation has its address and width, and otherwise
      1 in rd and memory alone; it always drops the reservation and changes nothing else. */
  ghost predicate StoredIfReserved(walk: Walk, s': State, rd: bv5, v: bv64, n: Size) {
    && walk.t.At?
    && var pa, r, m, m' := walk.t.pa, walk.s.reservation, walk.s.bus.ram, s'.bus.ram;
    && s' == walk.s.(regs := s'.regs, bus := s'.bus, reservation := r.(valid := false)) && OthersKept(walk.s, s', rd)
    && if r.valid && r.addr == pa && r.size == n then
         && (rd != 0 ==> ReadReg(s', rd) == 0)
         && (ValidAccess(pa, n) ==>
               && s'.bus == walk.s.bus.(ram := m') && LoadBytes(m', pa, n) == ToWord(v) % Range(n)
               && forall a: int | !(pa <= a < pa + n) :: ByteAt(m', a) == ByteAt(m, a))
       else
         (rd != 0 ==> ReadReg(s', rd) == 1) && s'.bus == walk.s.bus
  }

  lemma RamAfterStore(b: Bus, pa: int, v: bv64, n: Size)
    requires ValidAccess(pa, n)
    ensures var b' := BusWrite(b, pa, n, StoreValue(v, n));
            && b' == b.(ram := b'.ram) && LoadBytes(b'.ram, pa, n) == ToWord(v) % Range(n)
            && forall a: int | !(pa <= a < pa + n) :: ByteAt(b'.ram, a) == ByteAt(b.ram, a)
  {
    StoredValueLoads(b.ram, pa, n, v);
  }

  lemma ScLeaves(walk: Walk, d: AType, va: bv64, v: bv64, n: Size)
    requires walk.t.At?
    ensures var e := ScAt(walk, d, va, StoreValue(v, n), n); e.Done? && StoredIfReserved(walk, e.s, d.rd, v, n)
  {
    if Reserves(walk.s.reservation, walk.t.pa, n) {
      ReservedScLeaves(walk, d, va, v, n);
    } else {
      SetsOnly(walk.s, walk.s, d.rd, 1);
      UnreservedSc(walk, d, va, v, n);
    }
  }

  lemma UnreservedSc(walk: Walk, d: AType, va: bv64, v: bv64, n: Size)
    requires walk.t.At? && !Reserves(walk.s.reservation, walk.t.pa, n)
    ensures ScAt(walk, d, va, StoreValue(v, n), n) == Done(Unreserved(WriteReg(walk.s, d.rd, 1)))
  {
  }

  lemma ReservedSc(walk: Walk, d: AType, va: bv64, v: bv64, n: Size)
    requires walk.t.At? && Reserves(walk.s.reservation, walk.t.pa, n)
    ensures var b' := BusWrite(walk.s.bus, walk.t.pa, n, StoreValue(v, n));
            ScAt(walk, d, va, StoreValue(v, n), n) == Done(Unreserved(WriteReg(walk.s.(bus := b'), d.rd, 0)))
  {
  }

  lemma ReservedScLeaves(walk: Walk, d: AType, va: bv64, v: bv64, n: Size)
    requires walk.t.At? && Reserves(walk.s.reservation, walk.t.pa, n)
    ensures var e := ScAt(walk, d, va, StoreValue(v, n), n); e.Done? && StoredIfReserved(walk, e.s, d.rd, v, n)
  {
    var b' := BusWrite(walk.s.bus, walk.t.pa, n, StoreValue(v, n));
    if ValidAccess(walk.t.pa, n) {
      RamAfterStore(walk.s.bus, walk.t.pa, v, n);
    }
    SetsOnly(walk.s.(bus := b'), walk.s, d.rd, 0);
    ReservedSc(walk, d, va, v, n);
  }

  /** Writing rd, and dropping the reservation. */
  lemma SetsOnly(s1: State, s: State, rd: bv5, v: bv64)
    requires s1 == s.(bus := s1.bus)
    ensures var s' := Unreserved(WriteReg(s1, rd, v));
            && s' == s.(regs := s'.regs, bus := s1.bus, reservation := s.reservation.(valid := false))
            && OthersKept(s, s', rd) && (rd != 0 ==> ReadReg(s', rd) == v)
  {
  }

  lemma ScIsExecSc(s: State, raw: bv32, n: Size, core: Core)
    requires AtomicWord(raw, 0x03, n)
    ensures Outcome(s, raw, core) == ExecSc(s, DecodeA(raw), n, core)
  {
    AtomicFields(raw, 0x03, n);
    AtomicExecutes(s, raw, 0x03, n, core);
  }

  lemma ScCases(s: State, d: AType, n: Size, core: Core)
    requires Lawful(core.mmu) && (n == 4 || n == 8)
    ensures var va, e := ReadReg(s, d.rs1), ExecSc(s, d, n, core);
            var walk := core.mmu(s, va, Store);
            if ToWord(va) % n != 0 then e == Raise(s, 6, va)
            else if walk.t == Fault then e == Raise(s, 15, va)
            else e.Done? && StoredIfReserved(walk, e.s, d.rd, ReadReg(s, d.rs2), n)
  {
    var va := ReadReg(s, d.rs1);
    var walk := core.mmu(s, va, Store);
    ScFaults(s, d, n, core);
    if walk.t.At? {
      ScLeaves(walk, d, va, ReadReg(s, d.rs2), n);
    }
  }

  lemma ScFaults(s: State, d: AType, n: Size, core: Core)
    requires Lawful(core.mmu) && (n == 4 || n == 8)
    ensures var va := ReadReg(s, d.rs1);
            var walk := core.mmu(s, va, Store);
            ExecSc(s, d, n, core)
            == if ToWord(va) % n != 0 then Raise(s, 6, va)
               else if walk.t == Fault then Raise(s, 15, va)
               else ScAt(walk, d, va, StoreValue(ReadReg(s, d.rs2), n), n)
  {
    var va := ReadReg(s, d.rs1);
    MisalignedByNumber(va, n);
    assert Contained(s, core.mmu(s, va, Store));
  }

  /** What SC does, for every state: a misaligned address and a page fault trap with the address, and leave the
      reservation; otherwise it stores exactly if its address and width are reserved. */
  lemma ScExactly(s: State, raw: bv32, n: Size, core: Core)
    requires Lawful(core.mmu) && AtomicWord(raw, 0x03, n)
    ensures var va, e := ReadReg(s, Rs1(raw)), Outcome(s, raw, core);
            var walk := core.mmu(s, va, Store);
            if ToWord(va) % n != 0 then e == Raise(s, 6, va)
            else if walk.t == Fault then e == Raise(s, 15, va)
            else e.Done? && StoredIfReserved(walk, e.s, Rd(raw), ReadReg(s, Rs2(raw)), n)
  {
    AtomicFields(raw, 0x03, n);
    ScIsExecSc(s, raw, n, core);
    ScCases(s, DecodeA(raw), n, core);
  }

  // ----- load-reserved as a step

  /** The step fetches this word. */
  ghost predicate StepsWord(s: State, core: Core, raw: bv32) {
    FetchOf(s, core).t.At? && InstructionAt(FetchOf(s, core).s, FetchOf(s, core).t.pa) == raw
  }

  /** The state in which the step's instruction runs. */
  ghost function AtFetch(s: State, core: Core): State {
    FetchOf(s, core).s
  }

  /** The step executes an LR, which completes. */
  ghost predicate StepsLr(s: State, core: Core, raw: bv32, n: Size) {
    StepsWord(s, core, raw) && AtomicWord(raw, 0x02, n) && Outcome(AtFetch(s, core), raw, core).Done?
  }

  /** The translation that LR makes. */
  ghost function LrWalk(s: State, core: Core, raw: bv32): Walk {
    core.mmu(AtFetch(s, core), ReadReg(s, Rs1(raw)), Load)
  }

  /** A step whose LR completes leaves in rd the number of the bytes at the translated address, keeps the other
      registers, changes memory only as its two translations do, and reserves that address and width. */
  lemma LrStep(s: State, core: Core, raw: bv32, n: Size)
    requires Lawful(core.mmu) && StepsLr(s, core, raw, n)
    ensures var walk, s' := LrWalk(s, core, raw), Step(s, core);
            && walk.t.At? && s'.bus == walk.s.bus && s'.reservation == Reservation(true, walk.t.pa, n)
            && HoldsNumber(s', Rd(raw), BusRead(walk.s.bus, walk.t.pa, n), n) && OthersKept(s, s', Rd(raw))
            && (ValidAccess(walk.t.pa, n) ==> HoldsNumber(s', Rd(raw), LoadBytes(walk.s.bus.ram, walk.t.pa, n), n))
  {
    var s1, e := AtFetch(s, core), Outcome(AtFetch(s, core), raw, core);
    FetchKeepsRegisters(s, core);
    StoreLoad.SameRegisters(s, s1, Rs1(raw));
    LrExactly(s1, raw, n, core);
    StepKeepsData(s, core, e);
    LeavesRegisters(s, LrWalk(s, core, raw), e.s, Step(s, core), Rd(raw), n);
  }

  lemma LeavesRegisters(s: State, walk: Walk, s1: State, s': State, rd: bv5, n: Size)
    requires LoadedAndReserved(walk, s1, rd, n) && walk.s.regs == s.regs && s'.regs == s1.regs
    ensures HoldsNumber(s', rd, BusRead(walk.s.bus, walk.t.pa, n), n) && OthersKept(s, s', rd)
    ensures ValidAccess(walk.t.pa, n) ==> HoldsNumber(s', rd, LoadBytes(walk.s.bus.ram, walk.t.pa, n), n)
  {
    SameRegsHold(s1, s', walk.s, rd, BusRead(walk.s.bus, walk.t.pa, n), n);
    forall r: bv5 ensures ReadReg(walk.s, r) == ReadReg(s, r) {
    }
  }

  // ----- load-reserved, anything, store-conditional

  lemma LrIsReserved(s: State, raw: bv32, n: Size, core: Core)
    requires Lawful(core.mmu) && AtomicWord(raw, 0x02, n) && Outcome(s, raw, core).Done?
    ensures Reserved(s, Decode(raw), core) == ReservedAt(core.mmu(s, ReadReg(s, Rs1(raw)), Load), n)
  {
    AtomicFields(raw, 0x02, n);
    LrIsExecLr(s, raw, n, core);
    ReservedByExecLr(s, DecodeA(raw), raw, n, core);
    OpcodeSelects(raw);
  }

  lemma ReservedByExecLr(s: State, d: AType, raw: bv32, n: Size, core: Core)
    requires ExecLr(s, d, raw, n, core).Done?
    requires AtomicWidth(d) == n && d.funct5 == LR && (d.funct3 == 2 || d.funct3 == 3)
    ensures Reserved(s, AtomicOp(d), core) == ReservedAt(core.mmu(s, ReadReg(s, d.rs1), Load), n)
  {
  }

  /** What the run remembers from then on is the value rd stands for. */
  lemma LrIsRemembered(s: State, core: Core, raw: bv32, n: Size, snapshot: Word)
    requires Lawful(core.mmu) && StepsLr(s, core, raw, n) && LrWalk(s, core, raw).t.At?
    ensures Remembered(s, Stepped, core, snapshot) == BusRead(LrWalk(s, core, raw).s.bus, LrWalk(s, core, raw).t.pa, n)
  {
    FetchKeepsRegisters(s, core);
    StoreLoad.SameRegisters(s, AtFetch(s, core), Rs1(raw));
    LrIsReserved(AtFetch(s, core), raw, n, core);
  }

  lemma {:induction false} RememberedOn(s: State, first: seq<Event>, e: Event, core: Core, snapshot: Word)
    ensures RememberedAll(s, first + [e], core, snapshot)
         == Remembered(AfterAll(s, first, core), e, core, RememberedAll(s, first, core, snapshot))
    decreases |first|
  {
    var all := first + [e];
    if first == [] {
      assert all == [e] && all[1..] == [];
    } else {
      assert all[0] == first[0] && all[1..] == first[1..] + [e];
      RememberedOn(After(s, first[0], core), first[1..], e, core, Remembered(s, first[0], core, snapshot));
    }
  }

  /** After any run that ends with a step whose LR completes, the value remembered is the one rd stands for. */
  lemma RunRemembersLr(s0: State, events: seq<Event>, core: Core, raw: bv32, n: Size, snapshot: Word)
    requires Lawful(core.mmu) && StepsLr(AfterAll(s0, events, core), core, raw, n)
    ensures HoldsNumber(Step(AfterAll(s0, events, core), core), Rd(raw),
                        RememberedAll(s0, events + [Stepped], core, snapshot), n)
  {
    var s := AfterAll(s0, events, core);
    LrStep(s, core, raw, n);
    RememberedOn(s0, events, Stepped, core, snapshot);
    LrIsRemembered(s, core, raw, n, RememberedAll(s0, events, core, snapshot));
  }

  /** No step of the run fetches an LR (opcode 0x2F, function code 2). */
  ghost predicate ReservesNothing(s: State, events: seq<Event>, core: Core)
    decreases |events|
  {
    || events == []
    || (&& (events[0].Stepped? && FetchOf(s, core).t.At? ==>
              var raw := InstructionAt(FetchOf(s, core).s, FetchOf(s, core).t.pa);
              !(OpcodeOf(raw) == 0x2F && raw >> 27 == 2))
        && ReservesNothing(After(s, events[0], core), events[1..], core))
  }

  lemma OnlyLrReserves(s: State, raw: bv32, core: Core)
    requires !(OpcodeOf(raw) == 0x2F && raw >> 27 == 2)
    ensures Reserved(s, Decode(raw), core) == None
  {
    KindShowsOpcode(raw);
    if raw >> 27 != 2 {
      OtherCode(raw);
    }
  }

  lemma OtherCode(raw: bv32)
    requires raw >> 27 != 2
    ensures DecodeA(raw).funct5 != 2
  {
    NotCode(raw);
  }

  lemma NotCode(raw: bv32)
    requires raw >> 27 != 2
    ensures ((raw >> 27) & 0x1F) as bv5 != 2
  {
  }

  lemma {:induction false} StillRemembered(s: State, events: seq<Event>, core: Core, snapshot: Word)
    requires ReservesNothing(s, events, core)
    ensures RememberedAll(s, events, core, snapshot) == snapshot
    decreases |events|
  {
    if events != [] {
      if events[0].Stepped? && FetchOf(s, core).t.At? {
        OnlyLrReserves(FetchOf(s, core).s, InstructionAt(FetchOf(s, core).s, FetchOf(s, core).t.pa), core);
      }
      StillRemembered(After(s, events[0], core), events[1..], core, snapshot);
    }
  }

  /** After a completed LR the reservation stands for what LR read, whatever the reservation before. */
  lemma LrStartsAfresh(s: State, core: Core, raw: bv32, n: Size)
    requires Lawful(core.mmu) && Gentle(core.mmu) && StepsLr(s, core, raw, n)
    ensures LrWalk(s, core, raw).t.At?
    ensures Faithful(Step(s, core), BusRead(LrWalk(s, core, raw).s.bus, LrWalk(s, core, raw).t.pa, n))
  {
    var s1, walk, va := AtFetch(s, core), LrWalk(s, core, raw), ReadReg(s, Rs1(raw));
    LrStep(s, core, raw, n);
    FetchKeepsRegisters(s, core);
    StoreLoad.SameRegisters(s, s1, Rs1(raw));
    LrExactly(s1, raw, n, core);
    MisalignedByNumber(va, n);
    assert GentleWalk(s1, va, walk);
    AlignedAddress(va, n);
    SamePosition(ToWord(va), walk.t.pa, n);
    FreshlyFaithful(Step(s, core), walk.t.pa, n);
  }

  /** LR, then any run without another LR, then SC, from any state: the SC settles by the very number that LR
      left in rd. If it reports success in RAM, the word there still was the one that LR read (up to accessed and
      dirty bits) and now is rs2. */
  lemma LoadThenStoreConditional(s: State, core: Core, raw: bv32, n: Size, between: seq<Event>, d: AType)
    requires Lawful(core.mmu) && Gentle(core.mmu) && StepsLr(s, core, raw, n)
    requires ReservesNothing(Step(s, core), between, core)
    requires StepsSc(AfterAll(Step(s, core), between, core), core, d)
    ensures LrWalk(s, core, raw).t.At?
    ensures var read := BusRead(LrWalk(s, core, raw).s.bus, LrWalk(s, core, raw).t.pa, n);
            var s2 := AfterAll(Step(s, core), between, core);
            && HoldsNumber(Step(s, core), Rd(raw), read, n)
            && Settled(ScWalk(s2, core, d), Step(s2, core), d.rd, AtomicWidth(d), ReadReg(s2, d.rs2), read)
  {
    LrStep(s, core, raw, n);
    var read := BusRead(LrWalk(s, core, raw).s.bus, LrWalk(s, core, raw).t.pa, n);
    LrStartsAfresh(s, core, raw, n);
    RunsAreFaithful(Step(s, core), between, core, read);
    StillRemembered(Step(s, core), between, core, read);
    ScStepSettles(AfterAll(Step(s, core), between, core), core, d, read);
  }
}
