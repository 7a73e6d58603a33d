/** What every step of the machine keeps: precise exceptions, confinement, and privilege that rises only
    through a trap vector. */
module StepProofs {
  import opened Words
  import opened Memory
  import opened PagingSpec
  import opened CsrSpec
  import opened Decoding
  import opened CpuSpec
  import opened Precise
  import opened Confinement
  import opened Traps

  // ----- one instruction

  lemma CleanIsOrderly(s: State, e: Effect)
    requires Clean(s, e)
    ensures Orderly(s, e)
  {
    UnchangedConfined(s.csrs, s.priv);
  }

  lemma ExecOrderly(s: State, i: Instruction, raw: bv32, core: Core)
    requires Lawful(core.mmu)
    ensures Orderly(s, Exec(s, i, raw, core))
  {
    if i.SystemOp? {
      SystemOrderly(s, i.i, i.funct7, i.csr, raw);
    } else {
      InstructionClean(s, i, raw, core);
      CleanIsOrderly(s, Exec(s, i, raw, core));
    }
  }

  /** Any instruction of the whole instruction set that traps has changed no memory, register, reservation
      or control register but those that record the trap, and its own pc is the one saved. */
  lemma ExceptionsArePrecise(s: State, raw: bv32, core: Core)
    requires Lawful(core.mmu) && !s.trapTaken
    ensures var e, s' := Exec(s, Decode(raw), raw, core), Dispatch(s, raw, core);
            && (s'.trapTaken <==> e.Raise?)
            && (s'.trapTaken ==>
                  TrappedInto(s, s', Handler(s.csrs[MEDELEG], s.priv, e.cause), e.cause, e.tval))
  {
    ExecOrderly(s, Decode(raw), raw, core);
    match Exec(s, Decode(raw), raw, core)
    case Done(_) =>
    case Raise(at, cause, tval) => ExceptionTraps(s, cause, tval);
  }

  // ----- one step

  /** At a trap vector: the trap flag is set and the pc is the mode's vector base. */
  predicate AtVector(s: State) {
    s.trapTaken && s.pc == Vector(s.csrs, s.priv)
  }

  lemma CheckLandsAtVector(s: State)
    ensures CheckInterrupts(s) == s || AtVector(CheckInterrupts(s))
    ensures CheckInterrupts(s).trapTaken ==> s.trapTaken || AtVector(CheckInterrupts(s))
    ensures !CheckInterrupts(s).trapTaken ==> CheckInterrupts(s) == s
  {
    InterruptTakenExactly(s);
  }

  lemma DispatchRises(s: State, raw: bv32, core: Core)
    requires Lawful(core.mmu) && !s.trapTaken
    ensures var s' := Dispatch(s, raw, core); if s'.trapTaken then AtVector(s') else s'.priv <= s.priv
  {
    ExceptionsArePrecise(s, raw, core);
    ExecOrderly(s, Decode(raw), raw, core);
  }

  lemma FinishKeepsVector(s: State)
    ensures var s' := Finished(Retired(s));
            && (AtVector(s) ==> AtVector(s'))
            && (!s.trapTaken ==> AtVector(s') || s'.priv == s.priv)
  {
    CheckLandsAtVector(Retired(s));
  }

  /** Privilege rises only through a trap vector: a step that ends more privileged than it began ends at
      the vector of its new mode, even when an exception is followed by an interrupt. */
  lemma PrivilegeRisesByTrapOnly(s: State, core: Core)
    requires Lawful(core.mmu)
    ensures var s' := Step(s, core); s'.priv > s.priv ==> AtVector(s')
  {
    var walk := core.mmu(Begun(s), s.pc, Fetch);
    assert Contained(Begun(s), walk);
    match walk.t
    case Fault => ExceptionTraps(walk.s, EXC_FETCH_PAGE, walk.s.pc);
    case At(pa) =>
      var raw := InstructionAt(walk.s, pa);
      DispatchRises(walk.s, raw, core);
      FinishKeepsVector(Dispatch(walk.s, raw, core));
  }

  /** A fetch that faults is as precise: the step is the trap alone, with its own pc saved and as value. */
  lemma FetchFaultsArePrecise(s: State, core: Core)
    requires Lawful(core.mmu) && core.mmu(Begun(s), s.pc, Fetch).t == Fault
    ensures var handler := Handler(s.csrs[MEDELEG], s.priv, EXC_FETCH_PAGE);
            TrappedInto(Begun(s), Step(s, core), handler, EXC_FETCH_PAGE, s.pc)
  {
    var walk := core.mmu(Begun(s), s.pc, Fetch);
    assert Contained(Begun(s), walk);
    assert walk.s == Begun(s);
    ExceptionTraps(walk.s, EXC_FETCH_PAGE, walk.s.pc);
  }

  // ----- the program counter

  /** No jump of one step is mistaken for a jump of the next. */
  lemma JumpsAreForgotten(s: State, core: Core)
    requires Lawful(core.mmu) && !s.pcWritten
    ensures !Step(s, core).pcWritten
  {
    var walk := core.mmu(Begun(s), s.pc, Fetch);
    assert Contained(Begun(s), walk);
    if walk.t == Fault {
      FetchFaultsArePrecise(s, core);
    }
  }

  predicate MayJump(i: Instruction) {
    i.Jal? || i.Jalr? || i.BranchOp? || i.SystemOp?
  }

  predicate StaysPut(s: State, e: Effect) {
    e.Done? ==> e.s.pc == s.pc && e.s.pcWritten == s.pcWritten
  }

  lemma LoadStays(s: State, d: IType, raw: bv32, core: Core)
    requires Lawful(core.mmu)
    ensures StaysPut(s, ExecLoad(s, d, raw, core))
  {
    assert Contained(s, core.mmu(s, Add(d.imm, ReadReg(s, d.rs1)), Load));
  }

  lemma StoreStays(s: State, d: SType, raw: bv32, core: Core)
    requires Lawful(core.mmu)
    ensures StaysPut(s, ExecStore(s, d, raw, core))
  {
    assert Contained(s, core.mmu(s, Add(ReadReg(s, d.rs1), d.imm), Store));
  }

  lemma AmoStays(s: State, walk: Walk, d: AType, va: bv64, rhs: bv64, n: Size, raw: bv32)
    requires Contained(s, walk)
    ensures StaysPut(s, AmoAt(walk, d, va, rhs, n, raw))
  {
  }

  lemma LrStays(s: State, walk: Walk, d: AType, va: bv64, n: Size)
    requires Contained(s, walk)
    ensures StaysPut(s, LrAt(walk, d, va, n))
  {
  }

  lemma ScStays(s: State, walk: Walk, d: AType, va: bv64, w: Word, n: Size)
    requires Contained(s, walk)
    ensures StaysPut(s, ScAt(walk, d, va, w, n))
  {
    if walk.t.At? {
      if Reserves(walk.s.reservation, walk.t.pa, n) {
      }
    }
  }

  lemma AtomicStays(s: State, d: AType, raw: bv32, core: Core)
    requires Lawful(core.mmu)
    ensures StaysPut(s, ExecAtomic(s, d, raw, core))
  {
    var va, n := ReadReg(s, d.rs1), AtomicWidth(d);
    if IsAmo(d.funct5) {
      AmoStays(s, core.mmu(s, va, Store), d, va, AmoOperand(ReadReg(s, d.rs2), n), n, raw);
    } else if d.funct5 == LR {
      LrStays(s, core.mmu(s, va, Load), d, va, n);
    } else {
      ScStays(s, core.mmu(s, va, Store), d, va, StoreValue(ReadReg(s, d.rs2), n), n);
    }
  }

  lemma StraightLine(s: State, i: Instruction, raw: bv32, core: Core)
    requires Lawful(core.mmu) && !MayJump(i)
    ensures StaysPut(s, Exec(s, i, raw, core))
  {
    match i
    case LoadOp(d) => LoadStays(s, d, raw, core);
    case StoreOp(d) => StoreStays(s, d, raw, core);
    case AtomicOp(d) => AtomicStays(s, d, raw, core);
    case _ =>
  }

  /** A step without a trap of an instruction that cannot jump goes on to the next word. */
  lemma StepsGoOn(s: State, core: Core)
    requires Lawful(core.mmu) && !s.pcWritten && !Step(s, core).trapTaken
    requires var walk := core.mmu(Begun(s), s.pc, Fetch);
             walk.t.At? && !MayJump(Decode(InstructionAt(walk.s, walk.t.pa)))
    ensures Step(s, core).pc == Add(s.pc, 4)
    ensures Step(s, core).csrs[MINSTRET] == Add(s.csrs[MINSTRET], 1)
  {
    QuietStep(s, core);
    var walk := core.mmu(Begun(s), s.pc, Fetch);
    var raw := InstructionAt(walk.s, walk.t.pa);
    StraightLine(walk.s, Decode(raw), raw, core);
    InstructionClean(walk.s, Decode(raw), raw, core);
    CheckLandsAtVector(Retired(Dispatch(walk.s, raw, core)));
  }

  // ----- confinement of whole steps

  /** The two counters every step may advance. */
  function Counted(f: CsrFile, cycles: bv64, retired: bv64): CsrFile {
    f[MCYCLE := cycles][MINSTRET := retired]
  }

  /** A step that takes no trap is one instruction, completed, between the two counters. */
  lemma QuietStep(s: State, core: Core)
    requires Lawful(core.mmu) && !Step(s, core).trapTaken
    ensures var walk := core.mmu(Begun(s), s.pc, Fetch);
            && walk.t.At? && Contained(Begun(s), walk)
            && Exec(walk.s, Decode(InstructionAt(walk.s, walk.t.pa)), InstructionAt(walk.s, walk.t.pa), core).Done?
            && Step(s, core).csrs == Retired(Dispatch(walk.s, InstructionAt(walk.s, walk.t.pa), core)).csrs
  {
    var walk := core.mmu(Begun(s), s.pc, Fetch);
    assert Contained(Begun(s), walk);
    match walk.t
    case Fault => ExceptionTraps(walk.s, EXC_FETCH_PAGE, walk.s.pc);
    case At(pa) =>
      var s1 := Dispatch(walk.s, InstructionAt(walk.s, pa), core);
      ExceptionsArePrecise(walk.s, InstructionAt(walk.s, pa), core);
      CheckLandsAtVector(Retired(s1));
  }

  /** A user step without a trap changes no control register but the two counters; a supervisor step none
      that belongs to machine mode but those, and of mstatus, mie and mip only what its views show. */
  lemma StepsAreConfined(s: State, core: Core)
    requires Lawful(core.mmu) && !Step(s, core).trapTaken
    ensures Confined(Counted(s.csrs, 0, 0), Counted(Step(s, core).csrs, 0, 0), s.priv)
  {
    QuietStep(s, core);
    var walk := core.mmu(Begun(s), s.pc, Fetch);
    var raw := InstructionAt(walk.s, walk.t.pa);
    ExecOrderly(walk.s, Decode(raw), raw, core);
    var s1 := Exec(walk.s, Decode(raw), raw, core).s;
    ConfinedBesidesCounters(s.csrs, walk.s.csrs, s1.csrs, Step(s, core).csrs, s.priv);
  }

  lemma ConfinedBesidesCounters(f0: CsrFile, f1: CsrFile, f2: CsrFile, f3: CsrFile, priv: bv2)
    requires f1 == f0[MCYCLE := f1[MCYCLE]] && f3 == f2[MINSTRET := f3[MINSTRET]] && Confined(f1, f2, priv)
    ensures Confined(Counted(f0, 0, 0), Counted(f3, 0, 0), priv)
  {
    CounterBlanked(f1, f2, MCYCLE, priv);
    CounterBlanked(f1[MCYCLE := 0], f2[MCYCLE := 0], MINSTRET, priv);
    assert Counted(f0, 0, 0) == f1[MCYCLE := 0][MINSTRET := 0];
    assert Counted(f3, 0, 0) == f2[MCYCLE := 0][MINSTRET := 0];
  }

  lemma CounterBlanked(f: CsrFile, f': CsrFile, counter: nat, priv: bv2)
    requires (counter == MCYCLE || counter == MINSTRET) && Confined(f, f', priv)
    ensures Confined(f[counter := 0], f'[counter := 0], priv)
  {
    if priv < M_MODE {
      MachineSideBlanked(f, f', counter);
    }
  }

  lemma MachineSideBlanked(f: CsrFile, f': CsrFile, counter: nat)
    requires (counter == MCYCLE || counter == MINSTRET) && MachineSideKept(f, f')
    ensures MachineSideKept(f[counter := 0], f'[counter := 0])
  {
    assert DelegatedMask(f[counter := 0]) == DelegatedMask(f);
  }
}
