/** Traps and interrupts in terms of the bits of the registers, by their addresses. */
module Interrupts {
  import opened Words
  import opened CsrSpec
  import opened CpuSpec
  import opened TrapStack
  import opened Digits
  import opened Numbers
  import Comparisons

  // ----- entering a handler

  /** mstatus (0x300) on entry to machine mode: MPIE (bit 7) is MIE (bit 3), MIE is clear, MPP (bits 12 and 11) is
      the mode left, and the other bits are as before. */
  predicate StackedForMachine(m: bv64, m': bv64, priv: bv2) {
    && BitAt(m', 7) == BitAt(m, 3) && BitAt(m', 3) == 0
    && (m' >> 11) & 3 == priv as bv64
    && Without(m', 0x1888) == Without(m, 0x1888)
  }

  /** On entry to supervisor mode: SPIE (bit 5) is SIE (bit 1), SIE is clear, SPP (bit 8) is the low digit of the
      mode left, and the other bits are as before. */
  predicate StackedForSupervisor(m: bv64, m': bv64, priv: bv2) {
    && BitAt(m', 5) == BitAt(m, 1) && BitAt(m', 1) == 0
    && BitAt(m', 8) == (priv as bv64) & 1
    && Without(m', 0x122) == Without(m, 0x122)
  }

  /** The handler in machine mode begins: mepc (0x341), mcause (0x342) and mtval (0x343) are saved, pc is mtvec
      (0x305) with its two low bits clear, and nothing else of the hart changes. */
  ghost predicate EnteredMachine(s: State, s': State, cause: bv64, tval: bv64) {
    && s' == s.(csrs := s'.csrs, priv := 3, pc := s.csrs[0x305] & !3, trapTaken := true)
    && s'.csrs == s.csrs[0x341 := s.pc][0x342 := cause][0x343 := tval][0x300 := s'.csrs[0x300]]
    && StackedForMachine(s.csrs[0x300], s'.csrs[0x300], s.priv)
  }

  /** The handler in supervisor mode: sepc (0x141), scause (0x142), stval (0x143), and stvec (0x105). */
  ghost predicate EnteredSupervisor(s: State, s': State, cause: bv64, tval: bv64) {
    && s' == s.(csrs := s'.csrs, priv := 1, pc := s.csrs[0x105] & !3, trapTaken := true)
    && s'.csrs == s.csrs[0x141 := s.pc][0x142 := cause][0x143 := tval][0x300 := s'.csrs[0x300]]
    && StackedForSupervisor(s.csrs[0x300], s'.csrs[0x300], s.priv)
  }

  ghost predicate Entered(s: State, s': State, machine: bool, cause: bv64, tval: bv64) {
    if machine then EnteredMachine(s, s', cause, tval) else EnteredSupervisor(s, s', cause, tval)
  }

  lemma MachineForm(m: bv64, p: bv64)
    requires p <= 3
    ensures var m' := MTrapForm(m, p);
            && BitAt(m', 7) == BitAt(m, 3) && BitAt(m', 3) == 0 && (m' >> 11) & 3 == p
            && Without(m', 0x1888) == Without(m, 0x1888)
  {
  }

  lemma MachineStacks(m: bv64, priv: bv2)
    ensures StackedForMachine(m, MTrapStatus(m, priv), priv)
  {
    MTrapIsForm(m, priv);
    MachineForm(m, priv as bv64);
  }

  lemma SupervisorForm(m: bv64, low: bv64)
    requires low <= 1
    ensures var m' := STrapForm(m, low);
            && BitAt(m', 5) == BitAt(m, 1) && BitAt(m', 1) == 0 && BitAt(m', 8) == low
            && Without(m', 0x122) == Without(m, 0x122)
  {
  }

  lemma SupervisorStacks(m: bv64, priv: bv2)
    ensures StackedForSupervisor(m, STrapStatus(m, priv), priv)
  {
    STrapIsForm(m, priv);
    LowBitIsBit(priv);
    LowDigitOf(priv);
    SupervisorForm(m, LowBit(priv));
  }

  lemma LowDigitOf(priv: bv2)
    ensures LowBit(priv) == (priv as bv64) & 1
  {
  }

  lemma EntersMachine(s: State, cause: bv64, tval: bv64)
    ensures EnteredMachine(s, TrapToM(s, cause, tval), cause, tval)
  {
    MachineStacks(s.csrs[MSTATUS], s.priv);
  }

  lemma EntersSupervisor(s: State, cause: bv64, tval: bv64)
    ensures EnteredSupervisor(s, TrapToS(s, cause, tval), cause, tval)
  {
    SupervisorStacks(s.csrs[MSTATUS], s.priv);
  }

  lemma Enters(s: State, s': State, machine: bool, cause: bv64, tval: bv64)
    requires s' == if machine then TrapToM(s, cause, tval) else TrapToS(s, cause, tval)
    ensures Entered(s, s', machine, cause, tval)
  {
    if machine {
      EntersMachine(s, cause, tval);
    } else {
      EntersSupervisor(s, cause, tval);
    }
  }

  lemma BitIsSet(w: bv64, c: Cause)
    ensures Bit(w, c) <==> w & (1 << c) != 0
  {
  }

  /** An exception is handled in supervisor mode exactly if it does not come from machine mode and its bit in
      medeleg (0x302) is set; its cause and value are saved there. */
  lemma ExceptionByBits(s: State, cause: Cause, tval: bv64)
    ensures Entered(s, RaiseException(s, cause, tval), s.priv == 3 || !Bit(s.csrs[0x302], cause), cause, tval)
  {
    BitIsSet(s.csrs[0x302], cause);
    EntersMachine(s, cause, tval);
    EntersSupervisor(s, cause, tval);
  }

  // ----- interrupts

  /** Interrupt `c` is pending in mip (0x344), enabled in mie (0x304), and the mode lets it through. One that
      mideleg (0x303) keeps for machine mode interrupts machine mode only if MIE (mstatus bit 3) is set; one that
      it delegates never interrupts machine mode, and supervisor mode only if SIE (bit 1) is set. */
  predicate MayInterrupt(f: CsrFile, priv: bv2, c: Cause) {
    && Bit(f[0x344], c) && Bit(f[0x304], c)
    && (!Bit(f[0x303], c) ==> (priv == 3 ==> Bit(f[0x300], 3)))
    && (Bit(f[0x303], c) ==> priv != 3 && (priv == 1 ==> Bit(f[0x300], 1)))
  }

  /** External, software and timer interrupts of machine mode, then those of supervisor mode. */
  const ORDER: seq<Cause> := [11, 3, 7, 9, 1, 5]

  /** The interrupt at this place interrupts, and none before it in the order does. */
  predicate FirstToInterrupt(f: CsrFile, priv: bv2, k: nat)
    requires k < 6
  {
    MayInterrupt(f, priv, ORDER[k]) && forall j | 0 <= j < k :: !MayInterrupt(f, priv, ORDER[j])
  }

  lemma PendingBits(f: CsrFile, c: Cause)
    ensures Raised(Pending(f), c) <==> Bit(f[0x344], c) && Bit(f[0x304], c)
  {
    BitIsSet(f[0x344], c);
    BitIsSet(f[0x304], c);
    MaskedBoth(f[0x344], f[0x304], c);
  }

  lemma MaskedBoth(x: bv64, y: bv64, c: Cause)
    ensures (x & y) & (1 << c) != 0 <==> x & (1 << c) != 0 && y & (1 << c) != 0
  {
    if x & (1 << c) != 0 {
      SingleBit(x, c);
    }
    if y & (1 << c) != 0 {
      SingleBit(y, c);
    }
  }

  lemma SingleBit(x: bv64, c: Cause)
    ensures x & (1 << c) == 0 || x & (1 << c) == 1 << c
  {
  }

  lemma DelegatedBit(f: CsrFile, c: Cause)
    ensures f[MIDELEG] & (1 << c) == 0 <==> !Bit(f[0x303], c)
  {
    BitIsSet(f[0x303], c);
  }

  lemma TakeableByBits(f: CsrFile, priv: bv2, c: Cause)
    ensures MayInterrupt(f, priv, c) <==> Takeable(f, priv, c)
  {
    PendingBits(f, c);
    DelegatedBit(f, c);
  }

  function Number(c: Cause): Word {
    ToWord(c)
  }

  lemma TopByAdding(c: Cause)
    ensures InterruptCause(c) == Add(INTERRUPT, c)
  {
  }

  lemma NumberOfOne()
    ensures ToWord(1) == 1
  {
    Comparisons.WordNumber(1);
    assert Ones(1) == Doubled(0, 1) == 1;
  }

  lemma SmallCause(c: Cause)
    ensures Number(c) < 64
  {
    Comparisons.WordNumber(6);
    TwoMoreOnes(0);
    TwoMoreOnes(2);
    TwoMoreOnes(4);
    CauseBelow(c);
    Comparisons.UnsignedOrder(0x3F, c);
  }

  lemma CauseBelow(c: Cause)
    ensures !(0x3F < c)
  {
  }

  /** The saved cause of interrupt `c` is 2^63 + c. */
  lemma InterruptNumber(c: Cause)
    ensures ToWord(InterruptCause(c)) == 0x8000_0000_0000_0000 + Number(c)
  {
    TopByAdding(c);
    TopNumber();
    SmallCause(c);
    SumNumber(INTERRUPT, c, InterruptCause(c), 0x8000_0000_0000_0000, Number(c));
  }

  lemma TopNumber()
    ensures ToWord(INTERRUPT) == 0x8000_0000_0000_0000
  {
    TopIsNext();
    NumberOfOne();
    AllButTop();
    SumNumber(TOP_CLEAR, 1, INTERRUPT, 0x7FFF_FFFF_FFFF_FFFF, 1);
  }

  lemma AllButTop()
    ensures ToWord(TOP_CLEAR) == 0x7FFF_FFFF_FFFF_FFFF
  {
    Comparisons.TopClearNumber();
  }

  lemma SumNumber(x: bv64, y: bv64, z: bv64, a: Word, b: Word)
    requires z == Add(x, y) && ToWord(x) == a && ToWord(y) == b && a + b < TWO_TO_64
    ensures ToWord(z) == a + b
  {
    AddNumber(x, y);
    NoOverflow(a + b);
  }

  lemma NoOverflow(w: nat)
    requires w < TWO_TO_64
    ensures w % TWO_TO_64 == w
  {
  }

  lemma TopIsNext()
    ensures INTERRUPT == Add(TOP_CLEAR, 1)
  {
  }

  /** Interrupt `c` is handled in the mode that mideleg gives it, with cause 2^63 + c and value 0. */
  ghost predicate Interrupted(s: State, s': State, c: Cause) {
    var machine := !Bit(s.csrs[0x303], c);
    var cause := s'.csrs[if machine then 0x342 else 0x142];
    Entered(s, s', machine, cause, 0) && ToWord(cause) == 0x8000_0000_0000_0000 + Number(c)
  }

  lemma InterruptEnters(s: State, c: Cause)
    requires Takeable(s.csrs, s.priv, c)
    ensures Interrupted(s, RaiseInterrupt(s, c), c)
  {
    InterruptNumber(c);
    var machine := !Bit(s.csrs[0x303], c);
    TrapsTo(s, c, machine);
    Enters(s, RaiseInterrupt(s, c), machine, InterruptCause(c), 0);
    InterruptedBy(s, RaiseInterrupt(s, c), machine, c, InterruptCause(c));
  }

  lemma InterruptedBy(s: State, s': State, machine: bool, c: Cause, cause: bv64)
    requires Entered(s, s', machine, cause, 0) && machine == !Bit(s.csrs[0x303], c)
    requires ToWord(cause) == 0x8000_0000_0000_0000 + Number(c)
    ensures Interrupted(s, s', c)
  {
  }

  lemma TrapsTo(s: State, c: Cause, machine: bool)
    requires Takeable(s.csrs, s.priv, c) && machine == !Bit(s.csrs[0x303], c)
    ensures RaiseInterrupt(s, c)
         == if machine then TrapToM(s, InterruptCause(c), 0) else TrapToS(s, InterruptCause(c), 0)
  {
    DelegatedBit(s.csrs, c);
  }

  lemma {:induction false} FirstIsTaken(f: CsrFile, priv: bv2, i: nat, k: nat)
    requires i <= k < 6 && FirstToInterrupt(f, priv, k)
    ensures FirstTakeable(f, priv, i) == Some(ORDER[k])
    decreases 6 - i
  {
    TakeableByBits(f, priv, ORDER[i]);
    if i < k {
      FirstIsTaken(f, priv, i + 1, k);
    }
  }

  lemma {:induction false} NoneIsTaken(f: CsrFile, priv: bv2, i: nat)
    requires i <= 6 && forall k | 0 <= k < 6 :: !MayInterrupt(f, priv, ORDER[k])
    ensures FirstTakeable(f, priv, i) == None
    decreases 6 - i
  {
    if i < 6 {
      TakeableByBits(f, priv, ORDER[i]);
      NoneIsTaken(f, priv, i + 1);
    }
  }

  /** The check takes the first of the order that interrupts, handled where mideleg says, with cause 2^63 + c and
      value 0; if none interrupts, it changes nothing. */
  lemma InterruptByBits(s: State)
    ensures forall k | 0 <= k < 6 && FirstToInterrupt(s.csrs, s.priv, k) ::
              Interrupted(s, CheckInterrupts(s), ORDER[k])
    ensures (forall k | 0 <= k < 6 :: !MayInterrupt(s.csrs, s.priv, ORDER[k])) ==> CheckInterrupts(s) == s
  {
    forall k | 0 <= k < 6 && FirstToInterrupt(s.csrs, s.priv, k)
      ensures Interrupted(s, CheckInterrupts(s), ORDER[k])
    {
      FirstIsTaken(s.csrs, s.priv, 0, k);
      TakeableByBits(s.csrs, s.priv, ORDER[k]);
      InterruptEnters(s, ORDER[k]);
    }
    if forall k | 0 <= k < 6 :: !MayInterrupt(s.csrs, s.priv, ORDER[k]) {
      NoneIsTaken(s.csrs, s.priv, 0);
    }
  }
}
