/** The reserved privilege level: the one way in is a machine-mode write of mstatus. */
module Modes {
  import opened Words
  import opened PagingSpec
  import opened CsrSpec
  import opened Decoding
  import opened CpuSpec
  import opened Precise
  import opened Traps

  /** Neither the mode nor the mode machine code would return to is the reserved one. */
  predicate LegalModes(s: State) {
    s.priv != RESERVED_MODE && Mpp(s.csrs[MSTATUS]) != RESERVED_MODE
  }

  /** The instruction is a CSR instruction by which machine mode stores 2 in MPP: the hart does not
      legalise the field. */
  predicate StoresReservedMpp(s: State, i: Instruction) {
    && i.SystemOp? && i.csr == MSTATUS && s.priv == M_MODE
    && var kind := CsrKind(i.i.funct3);
       && kind != 0 && (kind != 1 ==> i.i.rs1 != 0)
       && Mpp(CsrNewValue(kind, s.csrs[MSTATUS], CsrOperand(s, i.i))) == RESERVED_MODE
  }

  // ----- the field through every change of mstatus

  lemma MppAfterTraps(m: bv64, priv: bv2)
    ensures Mpp(STrapStatus(m, priv)) == Mpp(m) && Mpp(SretStatus(m)) == Mpp(m)
  {
  }

  lemma MppAfterMachineTrap(m: bv64, priv: bv2)
    ensures Mpp(MTrapStatus(m, priv)) == priv
  {
  }

  lemma MppAfterMret(m: bv64)
    ensures Mpp(MretStatus(m)) == U_MODE
  {
  }

  lemma MppAfterMasked(m: bv64, value: bv64)
    ensures Mpp(Masked(m, value, 0x1E_19AA)) == Mpp(value)
    ensures Mpp(Masked(m, value, SSTATUS_MASK)) == Mpp(m)
  {
  }

  lemma MppAfterWrite(f: CsrFile, a: nat, value: bv64)
    requires a < 4096
    ensures Mpp(Written(f, a, value)[MSTATUS]) == if a == MSTATUS then Mpp(value) else Mpp(f[MSTATUS])
  {
    MppAfterMasked(f[MSTATUS], value);
    if a == MSTATUS {
      assert WriteMask(a) == 0x1E_19AA;
    }
  }

  // ----- every instruction

  lemma MachineTrapLegal(s: State, cause: bv64, tval: bv64)
    requires s.priv != RESERVED_MODE
    ensures LegalModes(TrapToM(s, cause, tval))
  {
    ToMachine(s, cause, tval);
    MppAfterMachineTrap(s.csrs[MSTATUS], s.priv);
  }

  lemma SupervisorTrapLegal(s: State, cause: bv64, tval: bv64)
    requires LegalModes(s)
    ensures LegalModes(TrapToS(s, cause, tval))
  {
    ToSupervisor(s, cause, tval);
    MppAfterTraps(s.csrs[MSTATUS], s.priv);
  }

  lemma TrapsStayLegal(s: State, cause: Cause, tval: bv64)
    requires LegalModes(s)
    ensures LegalModes(RaiseException(s, cause, tval)) && LegalModes(RaiseInterrupt(s, cause))
  {
    MachineTrapLegal(s, cause, tval);
    SupervisorTrapLegal(s, cause, tval);
    MachineTrapLegal(s, InterruptCause(cause), 0);
    SupervisorTrapLegal(s, InterruptCause(cause), 0);
  }

  lemma SretStaysLegal(s: State, raw: bv32)
    requires LegalModes(s) && Sret(s, raw).Done?
    ensures LegalModes(Sret(s, raw).s)
  {
    MppAfterTraps(s.csrs[MSTATUS], s.priv);
  }

  lemma MretStaysLegal(s: State, raw: bv32)
    requires LegalModes(s) && Mret(s, raw).Done?
    ensures LegalModes(Mret(s, raw).s)
  {
    MppAfterMret(s.csrs[MSTATUS]);
  }

  lemma PrivilegedStaysLegal(s: State, d: IType, funct7: bv7, raw: bv32)
    requires LegalModes(s)
    ensures match ExecPrivileged(s, d, funct7, raw)
            case Done(s') => LegalModes(s')
            case Raise(at, _, _) => at == s
  {
    if Sret(s, raw).Done? {
      SretStaysLegal(s, raw);
    }
    if Mret(s, raw).Done? {
      MretStaysLegal(s, raw);
    }
  }

  lemma MstatusAccess(f: CsrFile, priv: bv2, v: bv64, time: bv64)
    ensures CsrWrite(f, priv, MSTATUS, v).Some? <==> priv == M_MODE
    ensures CsrRead(f, priv, MSTATUS, time) == if priv == M_MODE then Some(f[MSTATUS]) else None
  {
  }

  /** What a write stores does not depend on the old value, so reading it or not makes no difference. */
  lemma PlainWriteIgnoresOld(word: bv64, word': bv64, operand: bv64)
    ensures CsrNewValue(1, word, operand) == CsrNewValue(1, word', operand)
  {
  }

  lemma CsrStoreLegalExactly(s: State, d: IType, a: nat, word: bv64, value: bv64, raw: bv32)
    requires LegalModes(s)
    ensures match CsrStore(s, d, a, word, value, raw)
            case Done(s') =>
              && (a == MSTATUS ==> s.priv == M_MODE)
              && (LegalModes(s') <==> !(a == MSTATUS && Mpp(value) == RESERVED_MODE))
            case Raise(at, _, _) => at == s && !(a == MSTATUS && s.priv == M_MODE)
  {
    MstatusAccess(s.csrs, s.priv, value, 0);
    if CsrWrite(s.csrs, s.priv, a, value).Some? {
      MppAfterWrite(s.csrs, a, value);
    }
  }

  lemma CsrLegalExactly(s: State, d: IType, funct7: bv7, a: nat, raw: bv32)
    requires LegalModes(s) && CsrKind(d.funct3) != 0
    ensures match ExecCsr(s, d, a, raw)
            case Done(s') => LegalModes(s') <==> !StoresReservedMpp(s, SystemOp(d, funct7, a))
            case Raise(at, _, _) => at == s && !StoresReservedMpp(s, SystemOp(d, funct7, a))
  {
    var kind := CsrKind(d.funct3);
    MstatusAccess(s.csrs, s.priv, 0, CurrentTime(s));
    match CsrOldValue(s, d, a)
    case None =>
    case Some(word) =>
      if kind == 1 || d.rs1 != 0 {
        if kind == 1 {
          PlainWriteIgnoresOld(word, s.csrs[MSTATUS], CsrOperand(s, d));
        }
        CsrStoreLegalExactly(s, d, a, word, CsrNewValue(kind, word, CsrOperand(s, d)), raw);
      }
  }

  lemma KindsOfFunct3(funct3: bv3)
    ensures CsrKind(funct3) == 0 <==> funct3 == 0 || funct3 == 4
  {
  }

  /** Legal modes stay legal through an instruction exactly if it does not store the reserved mode in MPP. */
  lemma InstructionLegalExactly(s: State, i: Instruction, raw: bv32, core: Core)
    requires LegalModes(s) && Lawful(core.mmu)
    ensures LegalModes(Apply(Exec(s, i, raw, core))) <==> !StoresReservedMpp(s, i)
  {
    if i.SystemOp? {
      KindsOfFunct3(i.i.funct3);
      if i.i.funct3 == 0 {
        PrivilegedStaysLegal(s, i.i, i.funct7, raw);
      } else if i.i.funct3 != 4 {
        CsrLegalExactly(s, i.i, i.funct7, i.csr, raw);
      }
    } else {
      InstructionClean(s, i, raw, core);
    }
    var e := Exec(s, i, raw, core);
    if e.Raise? {
      TrapsStayLegal(s, e.cause, e.tval);
    }
  }

  /** The way in exists: `csrw mstatus, x1` then `mret`, with 0x1000 in x1, leave machine mode for the reserved mode. */
  lemma ReservedModeReachable(s: State, core: Core)
    requires LegalModes(s) && s.priv == M_MODE && ReadReg(s, 1) == 0x1000
    ensures var s1 := Apply(Exec(s, Decode(0x3000_9073), 0x3000_9073, core));
            Apply(Exec(s1, Decode(0x3020_0073), 0x3020_0073, core)).priv == RESERVED_MODE
  {
    assert Decode(0x3000_9073) == SystemOp(IType(0, 1, 1, 0x73, 0x300), 0x18, MSTATUS);
    assert Decode(0x3020_0073) == SystemOp(IType(0, 0, 0, 0x73, 0x302), 0x18, 0x302);
    MppAfterMasked(s.csrs[MSTATUS], 0x1000);
    MstatusAccess(s.csrs, s.priv, 0x1000, 0);
  }

  // ----- whole steps

  /** The step fetches no instruction that stores the reserved mode. */
  ghost predicate Spares(s: State, core: Core) {
    var walk := core.mmu(Begun(s), s.pc, Fetch);
    walk.t.At? ==> !StoresReservedMpp(walk.s, Decode(InstructionAt(walk.s, walk.t.pa)))
  }

  lemma FinishStaysLegal(s: State)
    requires LegalModes(s)
    ensures LegalModes(Finished(Retired(s)))
  {
    match FirstTakeable(Retired(s).csrs, Retired(s).priv, 0)
    case None =>
    case Some(cause) => TrapsStayLegal(Retired(s), cause, 0);
  }

  /** Whole steps, with their traps and interrupts, never enter the reserved mode by themselves. */
  lemma StepStaysLegal(s: State, core: Core)
    requires LegalModes(s) && Lawful(core.mmu) && Spares(s, core)
    ensures LegalModes(Step(s, core))
  {
    var walk := core.mmu(Begun(s), s.pc, Fetch);
    assert Contained(Begun(s), walk);
    match walk.t
    case Fault => TrapsStayLegal(walk.s, EXC_FETCH_PAGE, walk.s.pc);
    case At(pa) =>
      var raw := InstructionAt(walk.s, pa);
      InstructionLegalExactly(walk.s, Decode(raw), raw, core);
      FinishStaysLegal(Dispatch(walk.s, raw, core));
  }
}
