/** Where instructions go, what they raise and what a step counts, by instruction word and in numbers. */
module ControlFlow {
  import opened Words
  import opened PagingSpec
  import opened Decoding
  import opened CpuSpec
  import opened Precise
  import opened CompareAndSwap
  import opened Numbers
  import opened Instructions
  import opened AtomicEffects
  import opened Interrupts
  import StepProofs
  import StoreLoad
  import Traps
  import Comparisons
  import Memory

  // ----- jumps and branches

  /** The number `distance` bytes on from `from`, around 2^64. */
  function Onward(from: bv64, distance: nat): Word {
    (ToWord(from) + distance) % TWO_TO_64
  }

  /** Jumped: only pc, its flag and rd changed, and rd (unless x0) links to the next instruction. */
  ghost predicate Linked(s: State, s': State, rd: bv5) {
    && s' == s.(regs := s'.regs, pc := s'.pc, pcWritten := true) && OthersKept(s, s', rd)
    && (rd != 0 ==> ToWord(ReadReg(s', rd)) == Onward(s.pc, 4))
  }

  lemma NumberOfFour()
    ensures ToWord(4) == 4
  {
    FourIsTwice();
    AddNumber(1, 1);
    NumberOfOne();
    AddNumber(2, 2);
  }

  lemma FourIsTwice()
    ensures Add(1, 1) == 2 && Add(2, 2) == 4
  {
  }

  lemma GoesOn(from: bv64, offset: bv64)
    ensures ToWord(Add(from, offset)) == Onward(from, ToWord(offset))
  {
    AddNumber(from, offset);
  }

  lemma NextInstruction(pc: bv64)
    ensures ToWord(Add(pc, 4)) == Onward(pc, 4)
  {
    GoesOn(pc, 4);
    NumberOfFour();
  }

  /** Outcomes of the three kinds, before their numbers. */
  lemma JumpsByKind(s: State, raw: bv32, core: Core)
    ensures OpcodeOf(raw) == 0x6F ==> Outcome(s, raw, core) == ExecJal(s, DecodeJ(raw))
    ensures OpcodeOf(raw) == 0x67 ==> Outcome(s, raw, core) == ExecJalr(s, DecodeI(raw))
    ensures OpcodeOf(raw) == 0x63 ==> Outcome(s, raw, core) == ExecBranch(s, DecodeB(raw), raw)
  {
    OpcodeSelects(raw);
  }

  lemma Links(s: State, s1: State, rd: bv5, target: bv64)
    requires s1 == WriteReg(s, rd, Add(s.pc, 4)).(pc := target, pcWritten := true)
    ensures Linked(s, s1, rd) && s1.pc == target
  {
    NextInstruction(s.pc);
    forall r: bv5 | r != rd ensures ReadReg(s1, r) == ReadReg(s, r) {
    }
  }

  /** JAL (opcode 0x6F) goes its offset on from pc. */
  lemma JalGoes(s: State, raw: bv32, core: Core)
    requires OpcodeOf(raw) == 0x6F
    ensures var e := Outcome(s, raw, core);
            e.Done? && Linked(s, e.s, Rd(raw)) && ToWord(e.s.pc) == Onward(s.pc, ToWord(DecodeJ(raw).imm))
  {
    JumpsByKind(s, raw, core);
    GoesOn(s.pc, DecodeJ(raw).imm);
    Links(s, ExecJal(s, DecodeJ(raw)).s, Rd(raw), Add(s.pc, DecodeJ(raw).imm));
  }

  lemma EvenNumber(x: bv64)
    ensures ToWord(Align2(x)) == ToWord(x) - ToWord(x) % 2
  {
    var bits := 64;
    FirstDigit(x, bits);
    FirstDigit(Align2(x), bits);
    AlignedHalf(x);
  }

  lemma AlignedHalf(x: bv64)
    ensures !Odd(Align2(x)) && Half(Align2(x)) == Half(x)
  {
  }

  lemma EvenSum(x: bv64, imm: bv64)
    ensures var sum := Onward(x, ToWord(imm)); ToWord(Align2(Add(imm, x))) == sum - sum % 2
  {
    GoesOn(imm, x);
    EvenNumber(Add(imm, x));
  }

  /** JALR (0x67) goes to rs1, as it was, plus the offset, with the lowest bit dropped. */
  lemma JalrGoes(s: State, raw: bv32, core: Core)
    requires OpcodeOf(raw) == 0x67
    ensures var e, sum := Outcome(s, raw, core), Onward(ReadReg(s, Rs1(raw)), ToWord(DecodeI(raw).imm));
            e.Done? && Linked(s, e.s, Rd(raw)) && ToWord(e.s.pc) == sum - sum % 2
  {
    JumpsByKind(s, raw, core);
    EvenSum(ReadReg(s, Rs1(raw)), DecodeI(raw).imm);
    Links(s, ExecJalr(s, DecodeI(raw)).s, Rd(raw), Align2(Add(DecodeI(raw).imm, ReadReg(s, Rs1(raw)))));
  }

  /** The comparison a branch makes of the numbers in rs1 and rs2, signed for codes 4 and 5. */
  predicate Holds(funct3: bv3, x: Word, y: Word) {
    var a, b := SignedBytes(x, 8), SignedBytes(y, 8);
    && (funct3 == 0 ==> x == y) && (funct3 == 1 ==> x != y)
    && (funct3 == 4 ==> a < b) && (funct3 == 5 ==> a >= b)
    && (funct3 == 6 ==> x < y) && (funct3 == 7 ==> x >= y)
  }

  lemma BranchDecides(funct3: bv3, x: bv64, y: bv64)
    requires funct3 != 2 && funct3 != 3
    ensures BranchTaken(funct3, x, y) <==> Holds(funct3, ToWord(x), ToWord(y))
  {
    Comparisons.BranchesCompareNumbers(funct3, x, y);
    Memory.RangeOfSize(8);
  }

  /** A branch (0x63) goes its offset on from pc if its comparison holds, and otherwise does nothing; the codes 2
      and 3 are illegal. */
  lemma BranchGoes(s: State, raw: bv32, funct3: bv3, core: Core)
    requires OpcodeOf(raw) == 0x63 && funct3 == Funct3(raw)
    ensures var e := Outcome(s, raw, core);
            if funct3 == 2 || funct3 == 3 then e == Raise(s, 2, raw as bv64)
            else if Holds(funct3, ToWord(ReadReg(s, Rs1(raw))), ToWord(ReadReg(s, Rs2(raw)))) then
              && e.Done? && e.s == s.(pc := e.s.pc, pcWritten := true)
              && ToWord(e.s.pc) == Onward(s.pc, ToWord(DecodeB(raw).imm))
            else e == Done(s)
  {
    JumpsByKind(s, raw, core);
    GoesOn(s.pc, DecodeB(raw).imm);
    if funct3 != 2 && funct3 != 3 {
      BranchDecides(funct3, ReadReg(s, Rs1(raw)), ReadReg(s, Rs2(raw)));
    }
  }

  // ----- as steps

  /** After a step without a trap, pc is where the instruction went, or at the next word. */
  lemma StepGoes(s: State, core: Core, raw: bv32)
    requires Lawful(core.mmu) && StepsWord(s, core, raw) && !Step(s, core).trapTaken
    ensures var e := Outcome(AtFetch(s, core), raw, core);
            e.Done? && Step(s, core).pc == if e.s.pcWritten then e.s.pc else Add(e.s.pc, 4)
  {
    StepProofs.QuietStep(s, core);
    StepProofs.CheckLandsAtVector(Retired(Dispatch(AtFetch(s, core), raw, core)));
    StepProofs.ExceptionsArePrecise(AtFetch(s, core), raw, core);
  }

  lemma FetchKeepsPc(s: State, core: Core)
    requires Lawful(core.mmu)
    ensures AtFetch(s, core).pc == s.pc && AtFetch(s, core).pcWritten == s.pcWritten
    ensures AtFetch(s, core).regs == s.regs && AtFetch(s, core).csrs == Begun(s).csrs && AtFetch(s, core).priv == s.priv
  {
    assert Contained(Begun(s), FetchOf(s, core));
  }

  /** What a step of a jump or a taken branch leaves in pc, and what one of a branch not taken does. */
  lemma JumpStep(s: State, core: Core, raw: bv32)
    requires Lawful(core.mmu) && StepsWord(s, core, raw) && !Step(s, core).trapTaken && !s.pcWritten
    ensures OpcodeOf(raw) == 0x6F ==> ToWord(Step(s, core).pc) == Onward(s.pc, ToWord(DecodeJ(raw).imm))
    ensures OpcodeOf(raw) == 0x67 ==>
              var sum := Onward(ReadReg(s, Rs1(raw)), ToWord(DecodeI(raw).imm));
              ToWord(Step(s, core).pc) == sum - sum % 2
    ensures OpcodeOf(raw) == 0x63 ==>
              ToWord(Step(s, core).pc)
              == if Holds(Funct3(raw), ToWord(ReadReg(s, Rs1(raw))), ToWord(ReadReg(s, Rs2(raw))))
                 then Onward(s.pc, ToWord(DecodeB(raw).imm))
                 else Onward(s.pc, 4)
  {
    var s1 := AtFetch(s, core);
    FetchKeepsPc(s, core);
    StepGoes(s, core, raw);
    StoreLoad.SameRegisters(s, s1, Rs1(raw));
    StoreLoad.SameRegisters(s, s1, Rs2(raw));
    if OpcodeOf(raw) == 0x6F {
      JalGoes(s1, raw, core);
    } else if OpcodeOf(raw) == 0x67 {
      JalrGoes(s1, raw, core);
    } else if OpcodeOf(raw) == 0x63 {
      BranchGoes(s1, raw, Funct3(raw), core);
      NextInstruction(s.pc);
    }
  }

  /** After the instruction: pc goes on unless it was written, and minstret counts; a trap has done neither. */
  function Continued(e: Effect): State {
    match e
    case Done(s) =>
      s.(pc := if s.pcWritten then s.pc else Add(s.pc, 4), csrs := s.csrs[0xB02 := Add(s.csrs[0xB02], 1)])
    case Raise(_, _, _) => Apply(e)
  }

  /** Interrupts come last in a step: the first that the instruction, its trap included, leaves to interrupt is taken,
      and resumes where execution would have gone on. */
  lemma InterruptsComeLast(s: State, core: Core, raw: bv32)
    requires Lawful(core.mmu) && StepsWord(s, core, raw)
    ensures var s2, s' := Continued(Outcome(AtFetch(s, core), raw, core)), Step(s, core);
            && !s'.pcWritten
            && (forall k | 0 <= k < 6 && FirstToInterrupt(s2.csrs, s2.priv, k) ::
                  Interrupted(s2, s'.(pcWritten := s2.pcWritten), ORDER[k]))
            && ((forall k | 0 <= k < 6 :: !MayInterrupt(s2.csrs, s2.priv, ORDER[k])) ==> s' == s2.(pcWritten := false))
  {
    var s1 := AtFetch(s, core);
    var s2 := Continued(Outcome(s1, raw, core));
    RetiresAsContinued(s, core, raw);
    InterruptByBits(s2);
    KeepsJumpFlag(s2);
    assert CheckInterrupts(s2).(pcWritten := false).(pcWritten := s2.pcWritten) == CheckInterrupts(s2);
  }

  lemma KeepsJumpFlag(s: State)
    ensures CheckInterrupts(s).pcWritten == s.pcWritten
  {
    Traps.InterruptTakenExactly(s);
  }

  lemma RetiresAsContinued(s: State, core: Core, raw: bv32)
    requires Lawful(core.mmu) && StepsWord(s, core, raw)
    ensures Step(s, core) == CheckInterrupts(Continued(Outcome(AtFetch(s, core), raw, core))).(pcWritten := false)
  {
    assert Contained(Begun(s), FetchOf(s, core));
    StepProofs.ExceptionsArePrecise(AtFetch(s, core), raw, core);
  }

  // ----- exceptions

  /** A word with none of the opcodes of RV64IMA is illegal: cause 2, with the word as value. */
  lemma UnknownWords(s: State, raw: bv32, core: Core)
    requires var o := OpcodeOf(raw);
             && o != 0x03 && o != 0x0F && o != 0x13 && o != 0x17 && o != 0x1B && o != 0x23 && o != 0x2F && o != 0x33
             && o != 0x37 && o != 0x3B && o != 0x63 && o != 0x67 && o != 0x6F && o != 0x73
    ensures Outcome(s, raw, core) == Raise(s, 2, raw as bv64)
  {
    KindShowsOpcode(raw);
  }

  /** A fence (0x0F) does nothing: code 0, or code 1 with its other fields zero. Any other code is illegal. */
  lemma FenceWords(s: State, raw: bv32, core: Core)
    requires OpcodeOf(raw) == 0x0F
    ensures Outcome(s, raw, core)
         == if Funct3(raw) == 0 || raw == 0x0000_100F then Done(s) else Raise(s, 2, raw as bv64)
  {
    OpcodeSelects(raw);
    InstructionFence(raw);
  }

  lemma InstructionFence(raw: bv32)
    requires OpcodeOf(raw) == 0x0F
    ensures raw == 0x0000_100F
            <==> Funct3(raw) == 1 && Rd(raw) == 0 && Rs1(raw) == 0 && SignExtend(ImmediateI(raw), 12) == 0
  {
  }

  /** A fetch that faults enters the handler of cause 12 with pc saved and as value. */
  lemma FetchFault(s: State, core: Core)
    requires Lawful(core.mmu) && FetchOf(s, core).t == Fault
    ensures Entered(Begun(s), Step(s, core), s.priv == 3 || !Bit(s.csrs[0x302], 12), 12, s.pc)
  {
    var walk := FetchOf(s, core);
    assert Contained(Begun(s), walk);
    assert walk.s == Begun(s);
    ExceptionByBits(walk.s, EXC_FETCH_PAGE, walk.s.pc);
  }

  /** Any other exception enters its handler from the state that the fetch left. */
  lemma ExceptionEnters(s: State, raw: bv32, core: Core)
    requires Lawful(core.mmu) && Outcome(s, raw, core).Raise?
    ensures var e := Outcome(s, raw, core);
            Entered(s, Apply(e), s.priv == 3 || !Bit(s.csrs[0x302], e.cause), e.cause, e.tval)
  {
    StepProofs.ExecOrderly(s, Decode(raw), raw, core);
    var e := Outcome(s, raw, core);
    ExceptionByBits(s, e.cause, e.tval);
  }

  // ----- counters

  lemma TrapsCountNothing(s: State, cause: bv64, tval: bv64)
    ensures TrapToM(s, cause, tval).csrs[0xB00] == TrapToS(s, cause, tval).csrs[0xB00] == s.csrs[0xB00]
    ensures TrapToM(s, cause, tval).csrs[0xB02] == TrapToS(s, cause, tval).csrs[0xB02] == s.csrs[0xB02]
  {
  }

  lemma CheckCountsNothing(s: State)
    ensures CheckInterrupts(s).csrs[0xB00] == s.csrs[0xB00] && CheckInterrupts(s).csrs[0xB02] == s.csrs[0xB02]
  {
    match FirstTakeable(s.csrs, s.priv, 0)
    case None =>
    case Some(cause) => TrapsCountNothing(s, InterruptCause(cause), 0);
  }

  /** mcycle (0xB00) advances by one in every step, and minstret (0xB02) by one exactly if the instruction
      completes, whether or not an interrupt follows; only a system instruction can set them otherwise. */
  lemma CountersAdvance(s: State, core: Core)
    requires Lawful(core.mmu)
    ensures var walk, s' := FetchOf(s, core), Step(s, core);
            if walk.t == Fault then
              ToWord(s'.csrs[0xB00]) == Onward(s.csrs[0xB00], 1) && s'.csrs[0xB02] == s.csrs[0xB02]
            else
              var raw := InstructionAt(walk.s, walk.t.pa);
              OpcodeOf(raw) != 0x73 ==>
                && ToWord(s'.csrs[0xB00]) == Onward(s.csrs[0xB00], 1)
                && (Outcome(walk.s, raw, core).Done? ==> ToWord(s'.csrs[0xB02]) == Onward(s.csrs[0xB02], 1))
                && (Outcome(walk.s, raw, core).Raise? ==> s'.csrs[0xB02] == s.csrs[0xB02])
  {
    StepCounts(s, core);
    NumberOfOne();
    GoesOn(s.csrs[0xB00], 1);
    GoesOn(s.csrs[0xB02], 1);
  }

  lemma StepCounts(s: State, core: Core)
    requires Lawful(core.mmu)
    ensures var walk, s' := FetchOf(s, core), Step(s, core);
            if walk.t == Fault then
              s'.csrs[0xB00] == Add(s.csrs[0xB00], 1) && s'.csrs[0xB02] == s.csrs[0xB02]
            else
              var raw := InstructionAt(walk.s, walk.t.pa);
              OpcodeOf(raw) != 0x73 ==>
                && s'.csrs[0xB00] == Add(s.csrs[0xB00], 1)
                && (Outcome(walk.s, raw, core).Done? ==> s'.csrs[0xB02] == Add(s.csrs[0xB02], 1))
                && (Outcome(walk.s, raw, core).Raise? ==> s'.csrs[0xB02] == s.csrs[0xB02])
  {
    var walk := FetchOf(s, core);
    assert Contained(Begun(s), walk);
    match walk.t
    case Fault =>
      TrapsCountNothing(walk.s, EXC_FETCH_PAGE, walk.s.pc);
    case At(pa) =>
      var raw := InstructionAt(walk.s, pa);
      if OpcodeOf(raw) != 0x73 {
        InstructionCounts(walk.s, raw, core);
        FinishCounts(Dispatch(walk.s, raw, core));
      }
  }

  lemma FinishCounts(s: State)
    ensures var f := Finished(Retired(s)).csrs;
            f[0xB00] == s.csrs[0xB00] && f[0xB02] == if s.trapTaken then s.csrs[0xB02] else Add(s.csrs[0xB02], 1)
  {
    CheckCountsNothing(Retired(s));
  }

  lemma InstructionCounts(s: State, raw: bv32, core: Core)
    requires Lawful(core.mmu) && OpcodeOf(raw) != 0x73 && !s.trapTaken
    ensures var e, s' := Outcome(s, raw, core), Dispatch(s, raw, core);
            s'.csrs[0xB00] == s.csrs[0xB00] && s'.csrs[0xB02] == s.csrs[0xB02] && (s'.trapTaken <==> e.Raise?)
  {
    KindShowsOpcode(raw);
    InstructionClean(s, Decode(raw), raw, core);
    StepProofs.ExceptionsArePrecise(s, raw, core);
    match Outcome(s, raw, core)
    case Done(_) =>
    case Raise(at, cause, tval) => TrapsCountNothing(s, cause, tval);
  }
}
