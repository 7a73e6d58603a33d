/** Traps and returns are a stack: nested handlers of any length unwind to where they began. */
module TrapStack {
  import opened Words
  import opened PagingSpec
  import opened CsrSpec
  import opened CpuSpec
  import opened Traps

  /** MPP and MPIE, and SPP and SPIE: what a trap stacks in mstatus. */
  const M_STACK: bv64 := 0x1880
  const S_STACK: bv64 := 0x120

  /** What the handler that began in `first` must have in place when it returns from `last`: the saved pc and
      the stacked bits. In between it may do anything, to these too. */
  predicate Kept(first: State, last: State, epc: nat, stack: bv64)
    requires epc == SEPC || epc == MEPC
  {
    && last.csrs[epc] == first.csrs[epc]
    && Common(last.csrs[MSTATUS], stack) == Common(first.csrs[MSTATUS], stack)
  }

  /** `s'` is back where `s` was: same mode and pc. */
  predicate Resumed(s: State, s': State) {
    s'.priv == s.priv && s'.pc == s.pc
  }

  // ----- one machine level

  /** Entering a machine trap, as shifts of whole bit fields. */
  function MTrapForm(m: bv64, priv: bv64): bv64 {
    (m & !0x1888) | ((m & 0x8) << 4) | (priv << 11)
  }

  function MretForm(m: bv64): bv64 {
    (m & !0x1888) | ((m & 0x80) >> 4) | 0x80
  }

  /** mstatus after a return from machine mode: MIE as it was in `m`, MPIE set, MPP user, and every other bit
      as the handler left it in `left`. */
  function MachineRestored(m: bv64, left: bv64): bv64 {
    (left & !0x1888) | (m & 0x8) | 0x80
  }

  lemma StackedLow(m: bv64, low: bv64)
    requires low <= 1
    ensures SetBit(m, 11, low) == (m & !0x800) | (low << 11)
  {
    if low == 0 {
    }
  }

  lemma StackedHigh(m: bv64, high: bv64)
    requires high <= 1
    ensures SetBit(m, 12, high) == (m & !0x1000) | (high << 12)
  {
    if high == 0 {
    }
  }

  lemma PairOfFields(m: bv64, x: bv64, low: bv64, high: bv64)
    requires low <= 1 && x == (m & !0x800) | (low << 11)
    ensures (x & !0x1000) | (high << 12) == (m & !0x1800) | (low << 11) | (high << 12)
  {
  }

  lemma StackedPair(m: bv64, low: bv64, high: bv64)
    requires low <= 1 && high <= 1
    ensures SetBit(SetBit(m, 11, low), 12, high) == (m & !0x1800) | (low << 11) | (high << 12)
  {
    StackedLow(m, low);
    StackedHigh(SetBit(m, 11, low), high);
    PairOfFields(m, SetBit(m, 11, low), low, high);
  }

  lemma PrivilegeDigits(priv: bv2)
    ensures LowBit(priv) <= 1 && HighBit(priv) <= 1
    ensures (LowBit(priv) << 11) | (HighBit(priv) << 12) == (priv as bv64) << 11
  {
  }

  /** The two digits of a privilege are its field. */
  lemma StackedPrivilege(m: bv64, priv: bv2)
    ensures SetBit(SetBit(m, 11, LowBit(priv)), 12, HighBit(priv)) == (m & !0x1800) | ((priv as bv64) << 11)
  {
    StackedPair(m, LowBit(priv), HighBit(priv));
    PrivilegeDigits(priv);
    assert (m & !0x1800) | (LowBit(priv) << 11) | (HighBit(priv) << 12)
        == (m & !0x1800) | ((LowBit(priv) << 11) | (HighBit(priv) << 12));
  }

  lemma StackedEnable(m: bv64)
    ensures SetBit(SetBit(m, 7, BitAt(m, 3)), 3, 0) == (m & !0x88) | ((m & 0x8) << 4)
  {
    if BitAt(m, 3) == 0 {
    }
  }

  lemma FieldsStacked(m: bv64, p: bv64)
    requires p <= 3
    ensures (((m & !0x88) | ((m & 0x8) << 4)) & !0x1800) | (p << 11) == MTrapForm(m, p)
  {
  }

  lemma MTrapIsForm(m: bv64, priv: bv2)
    ensures MTrapStatus(m, priv) == MTrapForm(m, priv as bv64)
  {
    var enabled := SetBit(SetBit(m, 7, BitAt(m, 3)), 3, 0);
    StackedEnable(m);
    StackedPrivilege(enabled, priv);
    FieldsStacked(m, priv as bv64);
  }

  lemma MretIsForm(m: bv64)
    ensures MretStatus(m) == MretForm(m)
  {
  }

  lemma FormsUnwind(m: bv64, left: bv64, p: bv64)
    requires p <= 3 && Common(left, M_STACK) == Common(MTrapForm(m, p), M_STACK)
    ensures MretForm(left) == MachineRestored(m, left) && (left >> 11) & 3 == p
  {
  }

  lemma MachineBits(m: bv64, left: bv64, priv: bv2)
    requires Common(left, M_STACK) == Common(MTrapStatus(m, priv), M_STACK)
    ensures MretStatus(left) == MachineRestored(m, left) && Mpp(left) == priv
  {
    MTrapIsForm(m, priv);
    MretIsForm(left);
    FormsUnwind(m, left, priv as bv64);
  }

  /** What `MachineRestored` says, bit by bit. */
  lemma MachineRestoredBits(m: bv64, left: bv64)
    ensures var r := MachineRestored(m, left);
            && BitAt(r, 3) == BitAt(m, 3) && BitAt(r, 7) == 1 && Mpp(r) == U_MODE
            && Without(r, 0x1888) == Without(left, 0x1888)
  {
  }

  /** A machine-mode handler, however it worked, returns to the interrupted mode and pc with the interrupted
      machine interrupt enable, as long as the saved pc and the stacked bits are back in place at the end. */
  lemma MretUndoesTrap(s: State, cause: bv64, tval: bv64, last: State, raw: bv32)
    requires last.priv == M_MODE && Kept(TrapToM(s, cause, tval), last, MEPC, M_STACK)
    ensures Mret(last, raw).Done?
    ensures var s' := Mret(last, raw).s;
            && Resumed(s, s')
            && s'.csrs == last.csrs[MSTATUS := MachineRestored(s.csrs[MSTATUS], last.csrs[MSTATUS])]
  {
    ToMachine(s, cause, tval);
    MachineBits(s.csrs[MSTATUS], last.csrs[MSTATUS], s.priv);
  }

  // ----- one supervisor level

  /** mstatus after a return from supervisor mode: SIE as it was in `m`, SPIE set, SPP user, and every other
      bit as the handler left it in `left`. */
  function SupervisorRestored(m: bv64, left: bv64): bv64 {
    (left & !0x122) | (m & 0x2) | 0x20
  }

  lemma SretIsForm(m: bv64)
    ensures SretStatus(m) == (m & !0x122) | ((m & 0x20) >> 4) | 0x20
  {
  }

  /** Entering a supervisor trap, as shifts of whole bit fields. */
  function STrapForm(m: bv64, low: bv64): bv64 {
    (m & !0x122) | ((m & 0x2) << 4) | (low << 8)
  }

  lemma STrapIsForm(m: bv64, priv: bv2)
    ensures STrapStatus(m, priv) == STrapForm(m, LowBit(priv))
  {
    if LowBit(priv) == 0 {
    }
  }

  lemma SupervisorForms(m: bv64, left: bv64, low: bv64)
    requires low <= 1 && Common(left, S_STACK) == Common(STrapForm(m, low), S_STACK)
    ensures (left & !0x122) | ((left & 0x20) >> 4) | 0x20 == SupervisorRestored(m, left) && BitAt(left, 8) == low
  {
  }

  lemma LowBitIsBit(priv: bv2)
    ensures LowBit(priv) <= 1
  {
  }

  lemma SupervisorBits(m: bv64, left: bv64, priv: bv2)
    requires Common(left, S_STACK) == Common(STrapStatus(m, priv), S_STACK)
    ensures SretStatus(left) == SupervisorRestored(m, left) && BitAt(left, 8) == LowBit(priv)
  {
    SretIsForm(left);
    STrapIsForm(m, priv);
    LowBitIsBit(priv);
    SupervisorForms(m, left, LowBit(priv));
  }

  lemma SupervisorRestoredBits(m: bv64, left: bv64)
    ensures var r := SupervisorRestored(m, left);
            && BitAt(r, 1) == BitAt(m, 1) && BitAt(r, 5) == 1 && Spp(r) == U_MODE
            && Without(r, 0x122) == Without(left, 0x122)
  {
  }

  /** A supervisor handler returns in the same way to the user or supervisor code it interrupted. */
  lemma SretUndoesTrap(s: State, cause: bv64, tval: bv64, last: State, raw: bv32)
    requires s.priv <= S_MODE
    requires last.priv == S_MODE && Kept(TrapToS(s, cause, tval), last, SEPC, S_STACK)
    ensures Sret(last, raw).Done?
    ensures var s' := Sret(last, raw).s;
            && Resumed(s, s')
            && s'.csrs == last.csrs[MSTATUS := SupervisorRestored(s.csrs[MSTATUS], last.csrs[MSTATUS])]
  {
    ToSupervisor(s, cause, tval);
    SupervisorBits(s.csrs[MSTATUS], last.csrs[MSTATUS], s.priv);
  }

  // ----- two levels

  /** A machine trap and its return leave the supervisor's stacked bits as the machine handler left them. */
  lemma MachineLevelSparesSupervisor(m: bv64, left: bv64)
    requires Common(left, S_STACK) == Common(m, S_STACK)
    ensures Common(MachineRestored(m, left), S_STACK) == Common(m, S_STACK)
  {
  }

  lemma MachineTrapSparesSupervisor(m: bv64, priv: bv2)
    ensures Common(MTrapStatus(m, priv), S_STACK) == Common(m, S_STACK)
  {
    MTrapIsForm(m, priv);
  }

  /** User code traps to the supervisor, whose handler is interrupted at `middle` by a machine trap; MRET from
      `machine` resumes the handler and SRET from `last` the user code. Each handler answers only for its own
      saved pc and stacked bits, and the machine handler also for those of the level below. */
  lemma NestedTrapsUnwind(user: State, cause: bv64, tval: bv64, middle: State,
                          cause2: bv64, tval2: bv64, machine: State, last: State, mret: bv32, sret: bv32)
    requires user.priv == U_MODE
    requires middle.priv == S_MODE && Kept(TrapToS(user, cause, tval), middle, SEPC, S_STACK)
    requires machine.priv == M_MODE && Kept(TrapToM(middle, cause2, tval2), machine, MEPC, M_STACK)
    requires Kept(TrapToM(middle, cause2, tval2), machine, SEPC, S_STACK)
    requires last.priv == S_MODE && Kept(Apply(Mret(machine, mret)), last, SEPC, S_STACK)
    ensures var resumed := Apply(Mret(machine, mret));
            && Resumed(middle, resumed)
            && resumed.csrs[MSTATUS] == MachineRestored(middle.csrs[MSTATUS], machine.csrs[MSTATUS])
    ensures var s' := Apply(Sret(last, sret));
            && Resumed(user, s')
            && s'.csrs[MSTATUS] == SupervisorRestored(user.csrs[MSTATUS], last.csrs[MSTATUS])
  {
    var trapped, resumed := TrapToM(middle, cause2, tval2), Apply(Mret(machine, mret));
    MretUndoesTrap(middle, cause2, tval2, machine, mret);
    ToMachine(middle, cause2, tval2);
    MachineTrapSparesSupervisor(middle.csrs[MSTATUS], middle.priv);
    MachineLevelSparesSupervisor(middle.csrs[MSTATUS], machine.csrs[MSTATUS]);
    KeptOn(TrapToS(user, cause, tval), middle, resumed, last);
    SretUndoesTrap(user, cause, tval, last, sret);
  }

  lemma KeptOn(first: State, middle: State, resumed: State, last: State)
    requires Kept(first, middle, SEPC, S_STACK) && Kept(middle, resumed, SEPC, S_STACK)
    requires Kept(resumed, last, SEPC, S_STACK)
    ensures Kept(first, last, SEPC, S_STACK)
  {
  }

  // ----- handlers that leave mstatus alone

  const SIE_BIT: bv64 := 0x2
  const MIE_BIT: bv64 := 0x8

  /** mstatus after a machine level whose handler changed nothing but MIE: MPIE set, MPP user, the rest as before. */
  function AfterMachineLevel(m: bv64): bv64 {
    (m & !0x1880) | 0x80
  }

  /** mstatus after a supervisor level whose handler changed nothing but SIE: SPIE set, SPP user, the rest as before. */
  function AfterSupervisorLevel(m: bv64): bv64 {
    (m & !0x120) | 0x20
  }

  /** If a machine handler leaves every bit but MIE alone, the level changes nothing but MPIE and MPP. */
  lemma QuietMachineLevel(m: bv64, left: bv64, priv: bv2)
    requires Without(left, MIE_BIT) == Without(MTrapStatus(m, priv), MIE_BIT)
    ensures Common(left, M_STACK) == Common(MTrapStatus(m, priv), M_STACK)
    ensures MachineRestored(m, left) == AfterMachineLevel(m)
  {
    MTrapIsForm(m, priv);
    QuietMachineForm(m, left, priv as bv64);
  }

  lemma QuietMachineForm(m: bv64, left: bv64, p: bv64)
    requires p <= 3 && Without(left, MIE_BIT) == Without(MTrapForm(m, p), MIE_BIT)
    ensures Common(left, M_STACK) == Common(MTrapForm(m, p), M_STACK)
    ensures MachineRestored(m, left) == AfterMachineLevel(m)
  {
  }

  /** If a supervisor handler leaves every bit but SIE alone, the level changes nothing but SPIE and SPP. */
  lemma QuietSupervisorLevel(m: bv64, left: bv64, priv: bv2)
    requires Without(left, SIE_BIT) == Without(STrapStatus(m, priv), SIE_BIT)
    ensures Common(left, S_STACK) == Common(STrapStatus(m, priv), S_STACK)
    ensures SupervisorRestored(m, left) == AfterSupervisorLevel(m)
  {
    STrapIsForm(m, priv);
    LowBitIsBit(priv);
    QuietSupervisorForm(m, left, LowBit(priv));
  }

  lemma QuietSupervisorForm(m: bv64, left: bv64, low: bv64)
    requires low <= 1 && Without(left, SIE_BIT) == Without(STrapForm(m, low), SIE_BIT)
    ensures Common(left, S_STACK) == Common(STrapForm(m, low), S_STACK)
    ensures SupervisorRestored(m, left) == AfterSupervisorLevel(m)
  {
  }

  lemma QuietNestForm(m: bv64, m1: bv64, m2: bv64)
    requires Without(m1, SIE_BIT) == Without(STrapForm(m, 0), SIE_BIT)
    requires Without(m2, SIE_BIT) == Without(AfterMachineLevel(m1), SIE_BIT)
    ensures SupervisorRestored(m, m2) == AfterSupervisorLevel(AfterMachineLevel(m))
  {
  }

  /** If no handler of the nest changes mstatus but for the enable bit its return sets anyway, then of all of
      mstatus only SPIE and MPIE (now set) and SPP and MPP (now user) differ from where the user code was. */
  lemma QuietNestRestoresAll(user: State, cause: bv64, tval: bv64, middle: State,
                             cause2: bv64, tval2: bv64, machine: State, last: State, mret: bv32, sret: bv32)
    requires user.priv == U_MODE && middle.priv == S_MODE && machine.priv == M_MODE && last.priv == S_MODE
    requires var trapped := TrapToS(user, cause, tval);
             && middle.csrs[SEPC] == trapped.csrs[SEPC]
             && Without(middle.csrs[MSTATUS], SIE_BIT) == Without(trapped.csrs[MSTATUS], SIE_BIT)
    requires var trapped := TrapToM(middle, cause2, tval2);
             && machine.csrs[SEPC] == trapped.csrs[SEPC] && machine.csrs[MEPC] == trapped.csrs[MEPC]
             && Without(machine.csrs[MSTATUS], MIE_BIT) == Without(trapped.csrs[MSTATUS], MIE_BIT)
    requires var resumed := Apply(Mret(machine, mret));
             && last.csrs[SEPC] == resumed.csrs[SEPC]
             && Without(last.csrs[MSTATUS], SIE_BIT) == Without(resumed.csrs[MSTATUS], SIE_BIT)
    ensures Resumed(user, Apply(Sret(last, sret)))
    ensures Apply(Sret(last, sret)).csrs[MSTATUS]
         == AfterSupervisorLevel(AfterMachineLevel(user.csrs[MSTATUS]))
  {
    var m, m1, m2 := user.csrs[MSTATUS], middle.csrs[MSTATUS], last.csrs[MSTATUS];
    ToSupervisor(user, cause, tval);
    ToMachine(middle, cause2, tval2);
    QuietSupervisorLevel(m, m1, U_MODE);
    QuietMachineLevel(m1, machine.csrs[MSTATUS], S_MODE);
    QuietMachineSparesSupervisor(m1, machine.csrs[MSTATUS], S_MODE);
    MretUndoesTrap(middle, cause2, tval2, machine, mret);
    QuietBits(m2, Apply(Mret(machine, mret)).csrs[MSTATUS]);
    NestedTrapsUnwind(user, cause, tval, middle, cause2, tval2, machine, last, mret, sret);
    STrapIsForm(m, U_MODE);
    QuietNestForm(m, m1, m2);
  }

  lemma QuietBits(m: bv64, m': bv64)
    requires Without(m, SIE_BIT) == Without(m', SIE_BIT)
    ensures Common(m, S_STACK) == Common(m', S_STACK)
  {
  }

  lemma QuietMachineSparesSupervisor(m: bv64, left: bv64, priv: bv2)
    requires Without(left, MIE_BIT) == Without(MTrapStatus(m, priv), MIE_BIT)
    ensures Common(left, S_STACK) == Common(MTrapStatus(m, priv), S_STACK)
  {
    MTrapIsForm(m, priv);
  }
}
