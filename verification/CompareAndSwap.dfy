/** LR and SC as compare-and-swap: when a reservation survives, and what a store-conditional then does. */
module CompareAndSwap {
  import opened Words
  import opened Memory
  import opened BusSpec
  import opened PagingSpec
  import opened Decoding
  import opened CpuSpec
  import opened Precise
  import opened Reservations
  import StepProofs
  import Traps

  // ----- what a completed store-conditional did

  /** The bytes stored are the ones loaded back. */
  lemma StoredValueLoads(m: Ram, pa: int, n: Size, v: bv64)
    ensures LoadBytes(Overlay(m, pa, n, StoreValue(v, n)), pa, n) == StoreValue(v, n)
  {
    LoadAfterStore(m, pa, n, StoreValue(v, n));
    ModUnique(StoreValue(v, n), Range(n), 0, StoreValue(v, n));
  }

  /** What a completed SC did to the bytes at `pa`, given the value its reservation remembers. */
  ghost predicate ComparedAndSwapped(m: Ram, m': Ram, pa: int, n: Size, remembered: Word, v: bv64) {
    RangeOfSize(n);
    Held(pa, remembered, LoadBytes(m, pa, n)) && m' == Overlay(m, pa, n, StoreValue(v, n))
    && LoadBytes(m', pa, n) == StoreValue(v, n)
  }

  lemma ReservedFits(pa: int, n: Size)
    requires NaturallyAligned(pa, n) && InRam(pa)
    ensures ValidAccess(pa, n)
  {
  }

  lemma SwapAt(s: State, pa: int, n: Size, v: bv64, remembered: Word)
    requires Faithful(s, remembered) && InRam(pa) && Reserves(s.reservation, pa, n)
    ensures ComparedAndSwapped(s.bus.ram, BusWrite(s.bus, pa, n, StoreValue(v, n)).ram, pa, n, remembered, v)
  {
    ReservedFits(pa, n);
    StoredValueLoads(s.bus.ram, pa, n, v);
  }

  /** The outcome of a completed SC: success and a swap if its reservation stands, failure and no store
      otherwise, and never a reservation left. */
  ghost predicate Settled(walk: Walk, s': State, rd: bv5, n: Size, v: bv64, remembered: Word) {
    && walk.t.At? && !s'.reservation.valid
    && if Reserves(walk.s.reservation, walk.t.pa, n) then
         && (rd != 0 ==> ReadReg(s', rd) == 0)
         && (InRam(walk.t.pa) ==>
               ComparedAndSwapped(walk.s.bus.ram, s'.bus.ram, walk.t.pa, n, remembered, v))
       else
         (rd != 0 ==> ReadReg(s', rd) == 1) && s'.bus == walk.s.bus
  }

  lemma ScSettles(walk: Walk, d: AType, va: bv64, n: Size, v: bv64, remembered: Word)
    requires Faithful(walk.s, remembered) && walk.t.At?
    ensures ScAt(walk, d, va, StoreValue(v, n), n).Done?
    ensures Settled(walk, ScAt(walk, d, va, StoreValue(v, n), n).s, d.rd, n, v, remembered)
  {
    if Reserves(walk.s.reservation, walk.t.pa, n) {
      ScSucceeds(walk, d, va, n, StoreValue(v, n));
      if InRam(walk.t.pa) {
        SwapAt(walk.s, walk.t.pa, n, v, remembered);
      }
    } else {
      ScFails(walk, d, va, n, StoreValue(v, n));
    }
  }

  // ----- in a step

  /** The fetch of a step. */
  ghost function FetchOf(s: State, core: Core): Walk {
    core.mmu(Begun(s), s.pc, Fetch)
  }

  /** The state in which the step's instruction runs, and that instruction. */
  ghost function Fetched(s: State, core: Core): (State, Instruction)
    requires FetchOf(s, core).t.At?
  {
    var walk := FetchOf(s, core);
    (walk.s, Decode(InstructionAt(walk.s, walk.t.pa)))
  }

  /** The step executes a store-conditional, which completes. */
  ghost predicate StepsSc(s: State, core: Core, d: AType) {
    && FetchOf(s, core).t.At? && Fetched(s, core).1 == AtomicOp(d)
    && d.funct5 == SC && (d.funct3 == 2 || d.funct3 == 3)
    && ExecSc(Fetched(s, core).0, d, AtomicWidth(d), core).Done?
  }

  /** The translation that store-conditional makes. */
  ghost function ScWalk(s: State, core: Core, d: AType): Walk
    requires FetchOf(s, core).t.At?
  {
    core.mmu(Fetched(s, core).0, ReadReg(s, d.rs1), Store)
  }

  lemma FinishKeepsData(s: State)
    ensures var s' := Finished(Retired(s)); s'.bus == s.bus && s'.regs == s.regs && s'.reservation == s.reservation
  {
    Traps.InterruptTakenExactly(Retired(s));
  }

  lemma ExecIsSc(s: State, d: AType, raw: bv32, core: Core)
    requires d.funct5 == SC && (d.funct3 == 2 || d.funct3 == 3)
    ensures Exec(s, AtomicOp(d), raw, core) == ExecSc(s, d, AtomicWidth(d), core)
  {
  }

  /** The data a step leaves is what its instruction left. */
  lemma StepKeepsData(s: State, core: Core, e: Effect)
    requires FetchOf(s, core).t.At? && e.Done?
    requires var walk := FetchOf(s, core);
             var raw := InstructionAt(walk.s, walk.t.pa);
             Exec(walk.s, Decode(raw), raw, core) == e
    ensures var s' := Step(s, core); s'.bus == e.s.bus && s'.regs == e.s.regs && s'.reservation == e.s.reservation
  {
    FinishKeepsData(e.s);
  }

  lemma FetchKeepsRegisters(s: State, core: Core)
    requires Lawful(core.mmu)
    ensures FetchOf(s, core).s.regs == s.regs && FetchOf(s, core).s.reservation == s.reservation
  {
    assert Contained(Begun(s), FetchOf(s, core));
  }

  lemma StepOfSc(s: State, core: Core, d: AType)
    requires StepsSc(s, core, d)
    ensures var s1, s' := ExecSc(Fetched(s, core).0, d, AtomicWidth(d), core).s, Step(s, core);
            s'.bus == s1.bus && s'.regs == s1.regs && s'.reservation == s1.reservation
  {
    var walk := FetchOf(s, core);
    ExecIsSc(walk.s, d, InstructionAt(walk.s, walk.t.pa), core);
    StepKeepsData(s, core, ExecSc(walk.s, d, AtomicWidth(d), core));
  }

  lemma ScIsScAt(s1: State, d: AType, core: Core, walk: Walk, v: bv64)
    requires ExecSc(s1, d, AtomicWidth(d), core).Done?
    requires walk == core.mmu(s1, ReadReg(s1, d.rs1), Store) && v == ReadReg(s1, d.rs2)
    ensures walk.t.At?
    ensures ExecSc(s1, d, AtomicWidth(d), core)
         == ScAt(walk, d, ReadReg(s1, d.rs1), StoreValue(v, AtomicWidth(d)), AtomicWidth(d))
  {
  }

  lemma SettledData(walk: Walk, s1: State, s': State, rd: bv5, n: Size, v: bv64, remembered: Word)
    requires Settled(walk, s1, rd, n, v, remembered)
    requires s'.bus == s1.bus && s'.regs == s1.regs && s'.reservation == s1.reservation
    ensures Settled(walk, s', rd, n, v, remembered)
  {
    assert ReadReg(s', rd) == ReadReg(s1, rd);
  }

  /** What a run remembers is still in place where a fetched instruction makes its access. */
  lemma FaithfulAtAccess(s: State, va: bv64, access: Access, core: Core, remembered: Word)
    requires Lawful(core.mmu) && Gentle(core.mmu) && Faithful(s, remembered) && FetchOf(s, core).t.At?
    ensures Faithful(core.mmu(Fetched(s, core).0, va, access).s, remembered)
  {
    var s1 := Fetched(s, core).0;
    SameMemoryCarries(s, Begun(s));
    WalkCarries(Begun(s), s.pc, Fetch, core);
    CarriedOn(s, Begun(s), s1);
    WalkCarries(s1, va, access, core);
    CarriedOn(s, s1, core.mmu(s1, va, access).s);
    CarriedFaithful(s, core.mmu(s1, va, access).s, remembered);
  }

  /** After any run from a machine without a reservation, a step that executes a store-conditional is a
      compare-and-swap: it reports success and stores exactly if its reservation stands; memory then still
      held what the last LR read (up to accessed and dirty bits) and now holds rs2. It reports failure and
      stores nothing otherwise. Either way the reservation is gone. */
  lemma ScIsCompareAndSwap(s0: State, events: seq<Event>, core: Core, d: AType)
    requires Lawful(core.mmu) && Gentle(core.mmu) && !s0.reservation.valid
    requires StepsSc(AfterAll(s0, events, core), core, d)
    ensures var s := AfterAll(s0, events, core);
            Settled(ScWalk(s, core, d), Step(s, core), d.rd, AtomicWidth(d), ReadReg(s, d.rs2),
                    RememberedAll(s0, events, core, 0))
  {
    RunsAreFaithful(s0, events, core, 0);
    ScStepSettles(AfterAll(s0, events, core), core, d, RememberedAll(s0, events, core, 0));
  }

  lemma ScStepSettles(s: State, core: Core, d: AType, remembered: Word)
    requires Lawful(core.mmu) && Gentle(core.mmu) && Faithful(s, remembered) && StepsSc(s, core, d)
    ensures Settled(ScWalk(s, core, d), Step(s, core), d.rd, AtomicWidth(d), ReadReg(s, d.rs2), remembered)
  {
    var va, v, n := ReadReg(s, d.rs1), ReadReg(s, d.rs2), AtomicWidth(d);
    var s1, walk := Fetched(s, core).0, ScWalk(s, core, d);
    FetchKeepsRegisters(s, core);
    StepOfSc(s, core, d);
    ScIsScAt(s1, d, core, walk, v);
    FaithfulAtAccess(s, va, Store, core, remembered);
    ScSettles(walk, d, va, n, v, remembered);
    SettledData(walk, ScAt(walk, d, va, StoreValue(v, n), n).s, Step(s, core), d.rd, n, v, remembered);
  }

  // ----- when a reservation survives

  /** The instruction completes a store or AMO that overlaps the reservation, or a store-conditional. */
  ghost predicate Breaks(s: State, i: Instruction, core: Core) {
    match i
    case StoreOp(d) =>
      && d.funct3 < 4
      && BreaksAt(s, core.mmu(s, Add(ReadReg(s, d.rs1), d.imm), Store), LoadWidth(d.funct3))
    case AtomicOp(d) =>
      && (d.funct3 == 2 || d.funct3 == 3) && !Misaligned(ReadReg(s, d.rs1), AtomicWidth(d))
      && var walk := core.mmu(s, ReadReg(s, d.rs1), Store);
         (IsAmo(d.funct5) && BreaksAt(s, walk, AtomicWidth(d))) || (d.funct5 == SC && walk.t.At?)
    case _ => false
  }

  predicate BreaksAt(s: State, walk: Walk, n: Size) {
    walk.t.At? && Overlaps(s.reservation, walk.t.pa, n)
  }

  /** A reservation after an instruction that breaks it or leaves it. */
  function Broken(r: Reservation, breaks: bool): Reservation {
    if breaks then r.(valid := false) else r
  }

  function ReservationOf(e: Effect): Reservation {
    match e
    case Done(s) => s.reservation
    case Raise(at, _, _) => at.reservation
  }

  lemma ApplyKeeps(e: Effect)
    ensures Apply(e).reservation == ReservationOf(e)
  {
    match e
    case Done(_) =>
    case Raise(at, cause, tval) => Traps.ExceptionTraps(at, cause, tval);
  }

  lemma LoadLeaves(s: State, d: IType, raw: bv32, core: Core)
    requires Lawful(core.mmu)
    ensures ReservationOf(ExecLoad(s, d, raw, core)) == s.reservation
  {
    assert Contained(s, core.mmu(s, Add(d.imm, ReadReg(s, d.rs1)), Load));
  }

  lemma PutBreaks(s: State, pa: int, n: Size, w: Word)
    requires s.reservation.valid
    ensures Put(s, pa, n, w).reservation == Broken(s.reservation, Overlaps(s.reservation, pa, n))
  {
  }

  lemma StoreAtBreaks(s: State, walk: Walk, va: bv64, n: Size, w: Word)
    requires Contained(s, walk) && s.reservation.valid
    ensures ReservationOf(StoreTo(walk, va, n, w)) == Broken(s.reservation, BreaksAt(s, walk, n))
  {
    if walk.t.At? {
      PutBreaks(walk.s, walk.t.pa, n, w);
    }
  }

  lemma StoreBreaks(s: State, d: SType, raw: bv32, core: Core)
    requires Lawful(core.mmu) && s.reservation.valid
    ensures ReservationOf(ExecStore(s, d, raw, core)) == Broken(s.reservation, Breaks(s, StoreOp(d), core))
  {
    var va, n := Add(ReadReg(s, d.rs1), d.imm), LoadWidth(d.funct3);
    assert Contained(s, core.mmu(s, va, Store));
    StoreAtBreaks(s, core.mmu(s, va, Store), va, n, StoreValue(ReadReg(s, d.rs2), n));
  }

  lemma AmoAtBreaks(s: State, walk: Walk, d: AType, va: bv64, rhs: bv64, n: Size, raw: bv32)
    requires Contained(s, walk) && s.reservation.valid && IsAmo(d.funct5)
    ensures ReservationOf(AmoAt(walk, d, va, rhs, n, raw)) == Broken(s.reservation, BreaksAt(s, walk, n))
  {
    if walk.t.At? {
      var word := ToBits(GetValue(walk.s, walk.t.pa, n));
      AmoCodesAgree(d.funct5, word, rhs, n);
      PutBreaks(walk.s, walk.t.pa, n, ToWord(AmoResult(d.funct5, word, rhs, n).value));
    }
  }

  lemma ScAtBreaks(s: State, walk: Walk, d: AType, va: bv64, w: Word, n: Size)
    requires Contained(s, walk)
    ensures ReservationOf(ScAt(walk, d, va, w, n)) == Broken(s.reservation, walk.t.At?)
  {
    if walk.t.At? {
      if Reserves(walk.s.reservation, walk.t.pa, n) {
      }
    }
  }

  lemma AmoBreaks(s: State, d: AType, raw: bv32, core: Core)
    requires Lawful(core.mmu) && s.reservation.valid && (d.funct3 == 2 || d.funct3 == 3) && IsAmo(d.funct5)
    ensures ReservationOf(ExecAmo(s, d, raw, AtomicWidth(d), core))
         == Broken(s.reservation, Breaks(s, AtomicOp(d), core))
  {
    var va, n := ReadReg(s, d.rs1), AtomicWidth(d);
    assert Contained(s, core.mmu(s, va, Store));
    AmoAtBreaks(s, core.mmu(s, va, Store), d, va, AmoOperand(ReadReg(s, d.rs2), n), n, raw);
  }

  lemma ScBreaks(s: State, d: AType, core: Core)
    requires Lawful(core.mmu) && (d.funct3 == 2 || d.funct3 == 3) && d.funct5 == SC
    ensures ReservationOf(ExecSc(s, d, AtomicWidth(d), core)) == Broken(s.reservation, Breaks(s, AtomicOp(d), core))
  {
    var va, n := ReadReg(s, d.rs1), AtomicWidth(d);
    assert Contained(s, core.mmu(s, va, Store));
    ScAtBreaks(s, core.mmu(s, va, Store), d, va, StoreValue(ReadReg(s, d.rs2), n), n);
  }

  lemma FailedLrLeaves(s: State, d: AType, raw: bv32, core: Core)
    requires Lawful(core.mmu) && (d.funct3 == 2 || d.funct3 == 3) && d.funct5 == LR
    requires Reserved(s, AtomicOp(d), core) == None
    ensures ReservationOf(ExecLr(s, d, raw, AtomicWidth(d), core)) == s.reservation
  {
    assert Contained(s, core.mmu(s, ReadReg(s, d.rs1), Load));
  }

  lemma AtomicBreaks(s: State, d: AType, raw: bv32, core: Core)
    requires Lawful(core.mmu) && s.reservation.valid && Reserved(s, AtomicOp(d), core) == None
    ensures ReservationOf(ExecAtomic(s, d, raw, core)) == Broken(s.reservation, Breaks(s, AtomicOp(d), core))
  {
    if d.funct3 == 2 || d.funct3 == 3 {
      if IsAmo(d.funct5) {
        AmoBreaks(s, d, raw, core);
      } else if d.funct5 == LR {
        FailedLrLeaves(s, d, raw, core);
      } else if d.funct5 == SC {
        ScBreaks(s, d, core);
      }
    }
  }

  lemma OthersLeave(s: State, i: Instruction, raw: bv32, core: Core)
    requires Lawful(core.mmu) && !TouchesMemory(i)
    ensures ReservationOf(Exec(s, i, raw, core)) == s.reservation
  {
    OthersKeepMemory(s, i, raw, core);
    StepProofs.ExecOrderly(s, i, raw, core);
  }

  /** A valid reservation is broken by an instruction exactly if that completes an overlapping store or AMO or
      any store-conditional; nothing else but a completed load-reserved touches it, traps included. */
  lemma ReservationBrokenExactly(s: State, i: Instruction, raw: bv32, core: Core)
    requires Lawful(core.mmu) && s.reservation.valid && Reserved(s, i, core) == None
    ensures Apply(Exec(s, i, raw, core)).reservation == Broken(s.reservation, Breaks(s, i, core))
  {
    ApplyKeeps(Exec(s, i, raw, core));
    match i
    case LoadOp(d) => LoadLeaves(s, d, raw, core);
    case StoreOp(d) => StoreBreaks(s, d, raw, core);
    case AtomicOp(d) => AtomicBreaks(s, d, raw, core);
    case _ => OthersLeave(s, i, raw, core);
  }

  // ----- and when a store-conditional succeeds

  /** The step fetches an instruction that neither breaks a reservation nor takes one. */
  ghost predicate StepLeaves(s: State, core: Core) {
    FetchOf(s, core).t.At? ==>
      var (s1, i) := Fetched(s, core); !Breaks(s1, i, core) && Reserved(s1, i, core) == None
  }

  lemma StepLeavesReservation(s: State, core: Core)
    requires Lawful(core.mmu) && s.reservation.valid && StepLeaves(s, core)
    ensures Step(s, core).reservation == s.reservation
  {
    FetchKeepsRegisters(s, core);
    var walk := FetchOf(s, core);
    match walk.t
    case Fault => Traps.ExceptionTraps(walk.s, EXC_FETCH_PAGE, walk.s.pc);
    case At(pa) =>
      var raw := InstructionAt(walk.s, pa);
      ReservationBrokenExactly(walk.s, Decode(raw), raw, core);
      FinishKeepsData(Dispatch(walk.s, raw, core));
  }

  ghost predicate EventLeaves(s: State, e: Event, core: Core) {
    e.Stepped? ==> StepLeaves(s, core)
  }

  lemma EventLeavesReservation(s: State, e: Event, core: Core)
    requires Lawful(core.mmu) && s.reservation.valid && EventLeaves(s, e, core)
    ensures After(s, e, core).reservation == s.reservation
  {
    match e
    case Stepped => StepLeavesReservation(s, core);
    case Tick =>
    case Input(_) =>
  }

  /** No step of the run breaks the reservation or takes another. */
  ghost predicate RunLeaves(s: State, events: seq<Event>, core: Core)
    decreases |events|
  {
    events == [] || (EventLeaves(s, events[0], core) && RunLeaves(After(s, events[0], core), events[1..], core))
  }

  /** Such a run, however long, leaves the reservation as it was. */
  lemma {:induction false} RunLeavesReservation(s: State, events: seq<Event>, core: Core)
    requires Lawful(core.mmu) && s.reservation.valid && RunLeaves(s, events, core)
    ensures AfterAll(s, events, core).reservation == s.reservation
    decreases |events|
  {
    if events != [] {
      EventLeavesReservation(s, events[0], core);
      RunLeavesReservation(After(s, events[0], core), events[1..], core);
    }
  }

  /** Success is reported, and the `width` bytes of `w` stored, exactly if the translated address and the
      width are those of a reservation of `n` bytes at `pa`. */
  ghost predicate SucceedsOn(walk: Walk, s': State, rd: bv5, w: Word, width: Size, pa: int, n: nat) {
    var succeeds := walk.t == At(pa) && width == n;
    && (rd != 0 ==> ReadReg(s', rd) == if succeeds then 0 else 1)
    && s'.bus == if succeeds then BusWrite(walk.s.bus, pa, width, w) else walk.s.bus
  }

  lemma ScAtSucceedsOn(walk: Walk, d: AType, va: bv64, w: Word, width: Size, pa: int, n: nat)
    requires walk.t.At? && walk.s.reservation == Reservation(true, pa, n)
    ensures ScAt(walk, d, va, w, width).Done?
    ensures SucceedsOn(walk, ScAt(walk, d, va, w, width).s, d.rd, w, width, pa, n)
  {
    if Reserves(walk.s.reservation, walk.t.pa, width) {
      ScSucceeds(walk, d, va, width, w);
    } else {
      ScFails(walk, d, va, width, w);
    }
  }

  lemma SameData(walk: Walk, s1: State, s': State, rd: bv5, w: Word, width: Size, pa: int, n: nat)
    requires SucceedsOn(walk, s1, rd, w, width, pa, n) && s'.bus == s1.bus && s'.regs == s1.regs
    ensures SucceedsOn(walk, s', rd, w, width, pa, n)
  {
    assert ReadReg(s', rd) == ReadReg(s1, rd);
  }

  lemma ScStepSucceedsOn(s: State, core: Core, d: AType, pa: int, n: nat)
    requires Lawful(core.mmu) && s.reservation == Reservation(true, pa, n) && StepsSc(s, core, d)
    ensures SucceedsOn(ScWalk(s, core, d), Step(s, core), d.rd, StoreValue(ReadReg(s, d.rs2), AtomicWidth(d)),
                       AtomicWidth(d), pa, n)
  {
    var va, v, width := ReadReg(s, d.rs1), ReadReg(s, d.rs2), AtomicWidth(d);
    var s1, walk := Fetched(s, core).0, ScWalk(s, core, d);
    FetchKeepsRegisters(s, core);
    StepOfSc(s, core, d);
    ScIsScAt(s1, d, core, walk, v);
    assert Contained(s1, walk);
    ScAtSucceedsOn(walk, d, va, StoreValue(v, width), width, pa, n);
    SameData(walk, ScAt(walk, d, va, StoreValue(v, width), width).s, Step(s, core), d.rd, StoreValue(v, width),
             width, pa, n);
  }

  /** From a reservation of `n` bytes at `pa`, after any run that leaves it, a store-conditional succeeds if
      and only if it is of the same width and its address translates to `pa`. */
  lemma ScSucceedsExactly(s0: State, events: seq<Event>, core: Core, d: AType, pa: int, n: nat)
    requires Lawful(core.mmu) && s0.reservation == Reservation(true, pa, n) && RunLeaves(s0, events, core)
    requires StepsSc(AfterAll(s0, events, core), core, d)
    ensures var s := AfterAll(s0, events, core);
            SucceedsOn(ScWalk(s, core, d), Step(s, core), d.rd, StoreValue(ReadReg(s, d.rs2), AtomicWidth(d)),
                       AtomicWidth(d), pa, n)
  {
    RunLeavesReservation(s0, events, core);
    ScStepSucceedsOn(AfterAll(s0, events, core), core, d, pa, n);
  }
}
