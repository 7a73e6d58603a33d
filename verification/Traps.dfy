/** Traps: what one saves, where it lands, when an interrupt is taken, and how returning undoes it. */
module Traps {
  import opened Words
  import opened CsrSpec
  import opened CpuSpec

  // ----- what a trap does

  /** The trap vector of a mode. */
  function Vector(f: CsrFile, priv: bv2): bv64 {
    Align4(if priv == M_MODE then f[MTVEC] else f[STVEC])
  }

  /** Registers `epc` to `epc + 2` are xEPC, xCAUSE and xTVAL of one mode; only they and mstatus change. */
  ghost predicate Saved(f: CsrFile, f': CsrFile, epc: nat, pc: bv64, cause: bv64, tval: bv64)
    requires epc == SEPC || epc == MEPC
  {
    && f'[epc] == pc && f'[epc + 1] == cause && f'[epc + 2] == tval
    && forall a | 0 <= a < 4096 && a != MSTATUS && !(epc <= a < epc + 3) :: f'[a] == f[a]
  }

  /** `s'` is `s` trapped into mode `priv`: memory, registers and reservation are untouched, the old pc,
      cause and value are saved, and execution is at the vector. */
  ghost predicate TrappedInto(s: State, s': State, priv: bv2, cause: bv64, tval: bv64) {
    && s'.bus == s.bus && s'.regs == s.regs && s'.reservation == s.reservation && s'.pcWritten == s.pcWritten
    && s'.trapTaken && s'.priv == priv
    && s'.pc == Vector(s'.csrs, priv)
    && Saved(s.csrs, s'.csrs, if priv == M_MODE then MEPC else SEPC, s.pc, cause, tval)
  }

  lemma ToMachine(s: State, cause: bv64, tval: bv64)
    ensures TrappedInto(s, TrapToM(s, cause, tval), M_MODE, cause, tval)
    ensures TrapToM(s, cause, tval).csrs[MSTATUS] == MTrapStatus(s.csrs[MSTATUS], s.priv)
  {
  }

  lemma ToSupervisor(s: State, cause: bv64, tval: bv64)
    ensures TrappedInto(s, TrapToS(s, cause, tval), S_MODE, cause, tval)
    ensures TrapToS(s, cause, tval).csrs[MSTATUS] == STrapStatus(s.csrs[MSTATUS], s.priv)
  {
  }

  /** The mode that handles a cause, given the delegation register. */
  function Handler(deleg: bv64, priv: bv2, cause: Cause): bv2 {
    if Delegated(deleg, priv, cause) then S_MODE else M_MODE
  }

  lemma ExceptionTraps(s: State, cause: Cause, tval: bv64)
    ensures TrappedInto(s, RaiseException(s, cause, tval), Handler(s.csrs[MEDELEG], s.priv, cause), cause, tval)
  {
    ToMachine(s, cause, tval);
    ToSupervisor(s, cause, tval);
  }

  lemma InterruptTraps(s: State, cause: Cause)
    ensures TrappedInto(s, RaiseInterrupt(s, cause), Handler(s.csrs[MIDELEG], s.priv, cause), InterruptCause(cause), 0)
  {
    ToMachine(s, InterruptCause(cause), 0);
    ToSupervisor(s, InterruptCause(cause), 0);
  }

  /** A trap lowers the privilege exactly when a delegated cause meets the reserved mode. */
  lemma TrapsLowerPrivilegeExactly(s: State, cause: Cause, tval: bv64)
    ensures RaiseException(s, cause, tval).priv < s.priv
            <==> s.priv == RESERVED_MODE && Delegated(s.csrs[MEDELEG], s.priv, cause)
    ensures RaiseInterrupt(s, cause).priv < s.priv
            <==> s.priv == RESERVED_MODE && Delegated(s.csrs[MIDELEG], s.priv, cause)
  {
    ExceptionTraps(s, cause, tval);
    InterruptTraps(s, cause);
  }

  // ----- which interrupt is taken

  lemma {:induction false} FirstInTable(f: CsrFile, priv: bv2, i: nat)
    requires i <= 6
    ensures match FirstTakeable(f, priv, i)
            case None => forall j | i <= j < 6 :: !Takeable(f, priv, PRIORITY[j])
            case Some(cause) =>
              exists k | i <= k < 6 :: cause == PRIORITY[k] && Takeable(f, priv, cause)
                && forall j | i <= j < k :: !Takeable(f, priv, PRIORITY[j])
    decreases 6 - i
  {
    if i < 6 {
      if !Takeable(f, priv, PRIORITY[i]) {
        FirstInTable(f, priv, i + 1);
      }
    }
  }

  ghost predicate SomeTakeable(s: State) {
    exists k | 0 <= k < 6 :: Takeable(s.csrs, s.priv, PRIORITY[k])
  }

  /** No takeable cause of the table comes before `cause`, which is takeable itself. */
  ghost predicate FirstOfTable(s: State, cause: Cause) {
    exists k | 0 <= k < 6 :: cause == PRIORITY[k] && Takeable(s.csrs, s.priv, cause)
      && forall j | 0 <= j < k :: !Takeable(s.csrs, s.priv, PRIORITY[j])
  }

  /** The bits the supervisor and machine enables are when a trap has just been entered. */
  lemma TrapsMask(m: bv64, priv: bv2)
    ensures !Bit(MTrapStatus(m, priv), 3) && !Bit(STrapStatus(m, priv), 1)
  {
  }

  /** Where the delegation register alone sends an interrupt. */
  function Target(f: CsrFile, cause: Cause): bv2 {
    if f[MIDELEG] & (1 << cause) == 0 then M_MODE else S_MODE
  }

  lemma TakeableTarget(f: CsrFile, priv: bv2, cause: Cause)
    requires Takeable(f, priv, cause)
    ensures Handler(f[MIDELEG], priv, cause) == Target(f, cause)
  {
  }

  lemma TableChoice(s: State)
    ensures match FirstTakeable(s.csrs, s.priv, 0)
            case None => !SomeTakeable(s)
            case Some(cause) => SomeTakeable(s) && FirstOfTable(s, cause)
  {
    FirstInTable(s.csrs, s.priv, 0);
  }

  /** The check takes a trap exactly when a pending and enabled cause is takeable; it takes the first such
      cause of the table, and lands where delegation sends it. */
  lemma InterruptTakenExactly(s: State)
    ensures match FirstTakeable(s.csrs, s.priv, 0)
            case None => !SomeTakeable(s) && CheckInterrupts(s) == s
            case Some(cause) =>
              && SomeTakeable(s) && FirstOfTable(s, cause)
              && TrappedInto(s, CheckInterrupts(s), Target(s.csrs, cause), InterruptCause(cause), 0)
  {
    TableChoice(s);
    match FirstTakeable(s.csrs, s.priv, 0)
    case None =>
    case Some(cause) =>
      TakeableTarget(s.csrs, s.priv, cause);
      InterruptTraps(s, cause);
  }

  lemma AfterMachineTrap(s: State, cause: bv64, tval: bv64)
    ensures CheckInterrupts(TrapToM(s, cause, tval)) == TrapToM(s, cause, tval)
  {
    var s' := TrapToM(s, cause, tval);
    ToMachine(s, cause, tval);
    TrapsMask(s.csrs[MSTATUS], s.priv);
    TableChoice(s');
    forall k | 0 <= k < 6
      ensures !Takeable(s'.csrs, s'.priv, PRIORITY[k])
    {
      MaskedInMachineMode(s'.csrs, PRIORITY[k]);
    }
  }

  lemma MaskedInMachineMode(f: CsrFile, cause: Cause)
    requires !Bit(f[MSTATUS], 3)
    ensures !Takeable(f, M_MODE, cause)
  {
  }

  lemma MaskedInSupervisorMode(f: CsrFile, cause: Cause)
    requires !Bit(f[MSTATUS], 1) && f[MIDELEG] & (1 << cause) != 0
    ensures !Takeable(f, S_MODE, cause)
  {
  }

  /** Checking again and again takes at most two traps. */
  lemma InterruptsSettle(s: State)
    ensures var s2 := CheckInterrupts(CheckInterrupts(s)); CheckInterrupts(s2) == s2
  {
    match FirstTakeable(s.csrs, s.priv, 0)
    case None =>
    case Some(cause) =>
      if Delegated(s.csrs[MIDELEG], s.priv, cause) {
        SupervisorTrapSettles(s, InterruptCause(cause));
      } else {
        AfterMachineTrap(s, InterruptCause(cause), 0);
      }
  }

  /** A supervisor trap can only be followed by a trap to machine mode. */
  lemma SupervisorTrapSettles(s: State, code: bv64)
    ensures var s2 := CheckInterrupts(TrapToS(s, code, 0)); CheckInterrupts(s2) == s2
  {
    var s1 := TrapToS(s, code, 0);
    ToSupervisor(s, code, 0);
    TrapsMask(s.csrs[MSTATUS], s.priv);
    TableChoice(s1);
    match FirstTakeable(s1.csrs, s1.priv, 0)
    case None =>
    case Some(cause) =>
      if s1.csrs[MIDELEG] & (1 << cause) != 0 {
        MaskedInSupervisorMode(s1.csrs, cause);
      }
      AfterMachineTrap(s1, InterruptCause(cause), 0);
  }
}
