/** The system instructions by instruction word: what each reads, writes, returns to or raises. */
module SystemWords {
  import opened Words
  import opened PagingSpec
  import opened CsrSpec
  import opened Decoding
  import opened CpuSpec
  import opened Instructions
  import opened AtomicEffects
  import opened TrapStack

  // ----- CSR instructions

  /** The operand: the register rs1 for codes 1 to 3, and the number in its field for codes 5 to 7. */
  function Operand(s: State, raw: bv32): bv64 {
    if Funct3(raw) <= 3 then ReadReg(s, Rs1(raw)) else Rs1(raw) as bv64
  }

  /** The value to store: the operand (codes 1 and 5), or the old value with its bits set (2 and 6) or cleared (3 and
      7). */
  function NewValue(funct3: bv3, word: bv64, operand: bv64): bv64 {
    if funct3 == 1 || funct3 == 5 then operand
    else if funct3 == 2 || funct3 == 6 then Both(word, operand)
    else Without(word, operand)
  }

  /** The old value, as this mode may see it now. */
  function OldValue(s: State, a: nat): Option<bv64> {
    CsrRead(s.csrs, s.priv, a, ToBits(s.bus.timer.mtime))
  }

  /** A plain write to x0 does not read the register; setting or clearing with field 0 does not write it. */
  predicate Reads(raw: bv32) {
    (Funct3(raw) == 1 || Funct3(raw) == 5) ==> Rd(raw) != 0
  }

  predicate Writes(raw: bv32) {
    Funct3(raw) == 1 || Funct3(raw) == 5 || Rs1(raw) != 0
  }

  lemma TimeIsTimer(s: State)
    ensures CurrentTime(s) == ToBits(s.bus.timer.mtime)
  {
  }

  lemma KindByCode(funct3: bv3)
    requires funct3 != 0 && funct3 != 4
    ensures CsrKind(funct3) == if funct3 == 1 || funct3 == 5 then 1 else if funct3 == 2 || funct3 == 6 then 2 else 3
    ensures funct3 < 4 <==> funct3 <= 3
  {
  }

  lemma NewValueByCode(funct3: bv3, word: bv64, operand: bv64)
    requires funct3 != 0 && funct3 != 4
    ensures CsrNewValue(CsrKind(funct3), word, operand) == NewValue(funct3, word, operand)
  {
    KindByCode(funct3);
  }

  lemma SystemExecutes(s: State, raw: bv32, core: Core)
    requires OpcodeOf(raw) == 0x73
    ensures Outcome(s, raw, core) == ExecSystem(s, DecodeI(raw), Funct7(raw), CsrField(raw), raw)
  {
    OpcodeSelects(raw);
  }

  lemma OperandByCode(s: State, raw: bv32)
    requires Funct3(raw) != 0 && Funct3(raw) != 4
    ensures CsrOperand(s, DecodeI(raw)) == Operand(s, raw)
  {
    KindByCode(Funct3(raw));
  }

  /** What a CSR instruction does: it is illegal if it reads a register that its mode may not read, or writes one that
      it may not write. Otherwise rd receives the old value, and the register, if it is written, the new one. */
  lemma CsrInstruction(s: State, raw: bv32, core: Core)
    requires OpcodeOf(raw) == 0x73 && Funct3(raw) != 0 && Funct3(raw) != 4
    ensures var a, funct3 := CsrField(raw), Funct3(raw);
            var word := if OldValue(s, a).Some? then OldValue(s, a).value else 0;
            var written := CsrWrite(s.csrs, s.priv, a, NewValue(funct3, word, Operand(s, raw)));
            Outcome(s, raw, core)
            == if (Reads(raw) && OldValue(s, a) == None) || (Writes(raw) && written == None)
               then Raise(s, 2, raw as bv64)
               else Done(WriteReg(if Writes(raw) then s.(csrs := written.value) else s, Rd(raw), word))
  {
    var a, funct3 := CsrField(raw), Funct3(raw);
    SystemExecutes(s, raw, core);
    KindByCode(funct3);
    OperandByCode(s, raw);
    TimeIsTimer(s);
    var word := if OldValue(s, a).Some? then OldValue(s, a).value else 0;
    NewValueByCode(funct3, word, Operand(s, raw));
    NewValueByCode(funct3, 0, Operand(s, raw));
  }

  /** Function code 4 is illegal. */
  lemma NoSystemCode4(s: State, raw: bv32, core: Core)
    requires OpcodeOf(raw) == 0x73 && Funct3(raw) == 4
    ensures Outcome(s, raw, core) == Raise(s, 2, raw as bv64)
  {
    SystemExecutes(s, raw, core);
  }

  // ----- the other system instructions

  /** A system word without a CSR code, and with this number in bits 31 to 20. */
  predicate PrivilegedWord(raw: bv32, number: bv32) {
    OpcodeOf(raw) == 0x73 && Funct3(raw) == 0 && raw >> 20 == number
  }

  lemma NumberShows(raw: bv32, number: bv32)
    requires raw >> 20 == number && number <= 0x7FF
    ensures SignExtend(ImmediateI(raw), 12) == number as bv64
    ensures Funct7(raw) == (number >> 5) as bv7
  {
  }

  lemma PrivilegedExecutes(s: State, raw: bv32, number: bv32, core: Core)
    requires PrivilegedWord(raw, number) && number <= 0x7FF && number >> 5 != 9
    ensures Outcome(s, raw, core)
         == if number == 0x000 then Ecall(s)
            else if number == 0x001 then Raise(s, 3, 0)
            else if number == 0x102 then Sret(s, raw)
            else if number == 0x302 then Mret(s, raw)
            else if number == 0x105 then Done(s)
            else Raise(s, 2, raw as bv64)
  {
    SystemExecutes(s, raw, core);
    NumberShows(raw, number);
    PrivilegedByNumber(s, DecodeI(raw), Funct7(raw), number, raw);
  }

  lemma PrivilegedByNumber(s: State, d: IType, funct7: bv7, number: bv32, raw: bv32)
    requires d.imm == number as bv64 && funct7 != 9
    ensures ExecPrivileged(s, d, funct7, raw)
         == if number == 0x000 then Ecall(s)
            else if number == 0x001 then Raise(s, 3, 0)
            else if number == 0x102 then Sret(s, raw)
            else if number == 0x302 then Mret(s, raw)
            else if number == 0x105 then Done(s)
            else Raise(s, 2, raw as bv64)
  {
  }

  /** ECALL (0x000) raises cause 8, 9 or 11 by mode, EBREAK (0x001) raises cause 3, neither with a value, and WFI
      (0x105) does nothing. */
  lemma CallsAndWaits(s: State, raw: bv32, core: Core)
    ensures PrivilegedWord(raw, 0x000) ==>
              Outcome(s, raw, core) == Raise(s, if s.priv == 3 then 11 else if s.priv == 1 then 9 else 8, 0)
    ensures PrivilegedWord(raw, 0x001) ==> Outcome(s, raw, core) == Raise(s, 3, 0)
    ensures PrivilegedWord(raw, 0x105) ==> Outcome(s, raw, core) == Done(s)
  {
    if PrivilegedWord(raw, 0x000) {
      PrivilegedExecutes(s, raw, 0x000, core);
    } else if PrivilegedWord(raw, 0x001) {
      PrivilegedExecutes(s, raw, 0x001, core);
    } else if PrivilegedWord(raw, 0x105) {
      PrivilegedExecutes(s, raw, 0x105, core);
    }
  }

  /** MRET in mstatus: MIE (bit 3) is what MPIE (bit 7) was, MPIE is set, MPP (bits 12 and 11) is 0, the rest stays. */
  predicate MachineUnstacked(m: bv64, m': bv64) {
    && BitAt(m', 3) == BitAt(m, 7) && BitAt(m', 7) == 1 && (m' >> 11) & 3 == 0
    && Without(m', 0x1888) == Without(m, 0x1888)
  }

  /** SRET: SIE (bit 1) is what SPIE (bit 5) was, SPIE is set, SPP (bit 8) is 0, the rest stays. */
  predicate SupervisorUnstacked(m: bv64, m': bv64) {
    && BitAt(m', 1) == BitAt(m, 5) && BitAt(m', 5) == 1 && BitAt(m', 8) == 0
    && Without(m', 0x122) == Without(m, 0x122)
  }

  lemma MretUnstacks(m: bv64)
    ensures MachineUnstacked(m, MretStatus(m))
  {
    MretIsForm(m);
    MretFormUnstacks(m);
  }

  lemma MretFormUnstacks(m: bv64)
    ensures MachineUnstacked(m, MretForm(m))
  {
  }

  lemma SretUnstacks(m: bv64)
    ensures SupervisorUnstacked(m, SretStatus(m))
  {
    SretIsForm(m);
    SretFormUnstacks(m);
  }

  lemma SretFormUnstacks(m: bv64)
    ensures SupervisorUnstacked(m, (m & !0x122) | ((m & 0x20) >> 4) | 0x20)
  {
  }

  lemma PreviousMode(m: bv64)
    ensures Mpp(m) as bv64 == (m >> 11) & 3
    ensures Spp(m) as bv64 == (m >> 8) & 1
  {
  }

  /** MRET (0x302) is for machine mode: it returns to mepc (0x341) in the mode that MPP held. */
  lemma MretReturns(s: State, raw: bv32, core: Core)
    requires PrivilegedWord(raw, 0x302)
    ensures var e := Outcome(s, raw, core);
            if s.priv != 3 then e == Raise(s, 2, raw as bv64)
            else
              && e.Done? && e.s == s.(priv := e.s.priv, csrs := e.s.csrs, pc := s.csrs[0x341], pcWritten := true)
              && e.s.priv as bv64 == (s.csrs[0x300] >> 11) & 3
              && e.s.csrs == s.csrs[0x300 := e.s.csrs[0x300]]
              && MachineUnstacked(s.csrs[0x300], e.s.csrs[0x300])
  {
    PrivilegedExecutes(s, raw, 0x302, core);
    MretUnstacks(s.csrs[0x300]);
    PreviousMode(s.csrs[0x300]);
  }

  /** SRET (0x102) is illegal in user mode: it returns to sepc (0x141), to supervisor mode if SPP (bit 8) was set and to
      user mode otherwise. */
  lemma SretReturns(s: State, raw: bv32, core: Core)
    requires PrivilegedWord(raw, 0x102)
    ensures var e := Outcome(s, raw, core);
            if s.priv == 0 then e == Raise(s, 2, raw as bv64)
            else
              && e.Done? && e.s == s.(priv := e.s.priv, csrs := e.s.csrs, pc := s.csrs[0x141], pcWritten := true)
              && e.s.priv as bv64 == (s.csrs[0x300] >> 8) & 1
              && e.s.csrs == s.csrs[0x300 := e.s.csrs[0x300]]
              && SupervisorUnstacked(s.csrs[0x300], e.s.csrs[0x300])
  {
    PrivilegedExecutes(s, raw, 0x102, core);
    SretUnstacks(s.csrs[0x300]);
    PreviousMode(s.csrs[0x300]);
  }

  /** SFENCE.VMA (9 in bits 31 to 25, rd zero) does nothing, but is illegal in user mode, and in supervisor mode while
      TVM (mstatus bit 20) is set. */
  lemma FenceExactly(s: State, raw: bv32, core: Core)
    requires OpcodeOf(raw) == 0x73 && Funct3(raw) == 0 && Rd(raw) == 0 && Funct7(raw) == 9
    ensures Outcome(s, raw, core)
         == if s.priv == 0 || (s.priv == 1 && Bit(s.csrs[0x300], 20)) then Raise(s, 2, raw as bv64) else Done(s)
  {
    SystemExecutes(s, raw, core);
  }
}
