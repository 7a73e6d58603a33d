/** The hart as the program runs it: registers and fields updated in place over the bus. */
module CpuDevice {
  import opened Words
  import opened Memory
  import opened BusSpec
  import opened PagingSpec
  import opened Paging
  import PagingProofs
  import opened CsrSpec
  import opened Decoding
  import opened CpuSpec
  import SystemBus

  /** Only byte reads have side effects. */
  lemma WideReadsAreQuiet(s: State, pa: int, n: Size)
    requires n != 1
    ensures AfterGet(s, pa, n) == s
  {
  }

  lemma {:induction false} NothingPending(f: CsrFile, priv: bv2, i: nat)
    requires i <= 6 && Pending(f) == 0
    ensures FirstTakeable(f, priv, i) == None
    decreases 6 - i
  {
    if i < 6 {
      NothingPending(f, priv, i + 1);
    }
  }

  /** Shifting a bit down and masking it in place ask the same question. */
  lemma BitIsMask(w: bv64, i: Cause)
    ensures BitAt(w, i) == 0 <==> w & (1 << i) == 0
  {
  }

  lemma MemoryByKind(s: State, i: Instruction, raw: bv32, core: Core)
    ensures i.LoadOp? ==> Exec(s, i, raw, core) == ExecLoad(s, i.i, raw, core)
    ensures i.StoreOp? ==> Exec(s, i, raw, core) == ExecStore(s, i.s, raw, core)
    ensures i.AtomicOp? ==> Exec(s, i, raw, core) == ExecAtomic(s, i.a, raw, core)
  {
  }

  lemma OtherByKind(s: State, i: Instruction, raw: bv32, core: Core)
    ensures i.AluOp? ==> Exec(s, i, raw, core) == ExecAlu(s, i.r, raw, core)
    ensures i.SystemOp? ==> Exec(s, i, raw, core) == ExecSystem(s, i.i, i.funct7, i.csr, raw)
    ensures i.MiscMem? ==> Exec(s, i, raw, core) == ExecMiscMem(s, i.i, raw)
    ensures i.Unknown? ==> Exec(s, i, raw, core) == IllegalInstruction(s, raw)
  {
  }

  /** A store on the machine's own translation unit. */
  lemma StoreByWalk(s: State, d: SType, raw: bv32, alu: Alu)
    ensures var va, n := Add(ReadReg(s, d.rs1), d.imm), LoadWidth(d.funct3);
            ExecStore(s, d, raw, Machine(alu))
            == if d.funct3 >= 4 then IllegalInstruction(s, raw)
               else StoreTo(WalkFor(s, va, Access.Store), va, n, StoreValue(ReadReg(s, d.rs2), n))
  {
  }

  /** An AMO on the machine's own translation unit. */
  lemma AmoByWalk(s: State, d: AType, raw: bv32, n: Size, alu: Alu)
    ensures var va := ReadReg(s, d.rs1);
            ExecAmo(s, d, raw, n, Machine(alu))
            == if Misaligned(va, n) then Raise(s, EXC_STORE_MISALIGNED, va)
               else AmoAt(WalkFor(s, va, Access.Store), d, va, AmoOperand(ReadReg(s, d.rs2), n), n, raw)
  {
  }

  class Cpu {
    const regs: array<bv64>
    const csrs: array<bv64>
    const bus: SystemBus.VmBus
    /** The plain integer unit. */
    const alu: Alu
    var pc: bv64
    var priv: bv2
    var reservation: Reservation
    var trapTaken: bool
    var pcWritten: bool

    /** Every object a step may change. */
    ghost function Repr(): set<object> {
      {this, regs, csrs} + bus.Repr()
    }

    ghost predicate Valid()
      reads Repr()
    {
      && regs.Length == 32 && csrs.Length == 4096 && regs != csrs
      && this !in bus.Repr() && regs !in bus.Repr() && csrs !in bus.Repr()
      && bus.Valid()
    }

    ghost function View(): State
      reads Repr()
      requires Valid()
    {
      State(regs[..], csrs[..], pc, priv, reservation, trapTaken, pcWritten, bus.View())
    }

    constructor (alu: Alu, resetAddress: bv64)
      ensures Valid() && fresh(Repr()) && this.alu == alu
      ensures View().pc == resetAddress && View().priv == M_MODE && !View().reservation.valid
      ensures !View().trapTaken && !View().pcWritten
      ensures forall r :: 0 <= r < 32 ==> View().regs[r] == 0
      ensures forall a :: 0 <= a < 4096 ==> View().csrs[a] == ResetValue(a)
    {
      this.alu := alu;
      bus := new SystemBus.VmBus();
      regs := new bv64[32](_ => 0);
      csrs := new bv64[4096](ResetValue);
      pc, priv := resetAddress, M_MODE;
      reservation := Reservation(false, 0, 0);
      trapTaken, pcWritten := false, false;
    }

    // ----- registers

    method Reg(r: bv5) returns (v: bv64)
      requires Valid()
      ensures v == ReadReg(View(), r)
    {
      v := if r == 0 then 0 else regs[r as int];
    }

    method SetReg(r: bv5, v: bv64)
      requires Valid()
      modifies regs
      ensures Valid() && View() == WriteReg(old(View()), r, v)
    {
      if r == 0 {
        return;
      }
      regs[r as int] := v;
      assert regs[..] == old(regs[..])[r as int := v];
    }

    method GetCsr(a: nat) returns (v: bv64)
      requires Valid() && a < 4096
      ensures v == View().csrs[a]
    {
      v := csrs[a];
    }

    method SetCsr(a: nat, v: bv64)
      requires Valid() && a < 4096
      modifies csrs
      ensures Valid() && View() == old(View()).(csrs := old(View()).csrs[a := v])
    {
      csrs[a] := v;
      assert csrs[..] == old(csrs[..])[a := v];
    }

    // ----- traps

    static method MachineTrapStatus(m: bv64, priv: bv2) returns (mstatus: bv64)
      ensures mstatus == MTrapStatus(m, priv)
    {
      var mie := BitAt(m, 3);
      mstatus := SetBit(m, 7, mie);
      mstatus := SetBit(mstatus, 3, 0);
      var high := HighBit(priv);
      var low := LowBit(priv);
      mstatus := SetBit(mstatus, 11, low);
      mstatus := SetBit(mstatus, 12, high);
    }

    static method SupervisorTrapStatus(m: bv64, priv: bv2) returns (mstatus: bv64)
      ensures mstatus == STrapStatus(m, priv)
    {
      var sie := BitAt(m, 1);
      var spp := LowBit(priv);
      mstatus := SetBit(m, 8, spp);
      mstatus := SetBit(mstatus, 5, sie);
      mstatus := SetBit(mstatus, 1, 0);
    }

    /** A trap changes the mode and continues at its vector. */
    method Land(mode: bv2, vector: bv64)
      requires Valid()
      modifies this`priv, this`pc, this`trapTaken
      ensures Valid() && View() == old(View()).(priv := mode, pc := vector, trapTaken := true)
    {
      priv := mode;
      pc := vector;
      trapTaken := true;
    }

    method EnterM()
      requires Valid()
      modifies this, csrs
      ensures Valid() && View() == CpuSpec.EnterM(old(View()))
    {
      var m := GetCsr(MSTATUS);
      var mstatus := MachineTrapStatus(m, priv);
      SetCsr(MSTATUS, mstatus);
      var tvec := GetCsr(MTVEC);
      Land(M_MODE, Align4(tvec));
    }

    method EnterS()
      requires Valid()
      modifies this, csrs
      ensures Valid() && View() == CpuSpec.EnterS(old(View()))
    {
      var m := GetCsr(MSTATUS);
      var mstatus := SupervisorTrapStatus(m, priv);
      SetCsr(MSTATUS, mstatus);
      var tvec := GetCsr(STVEC);
      Land(S_MODE, Align4(tvec));
    }

    /** Saves pc, cause and value in the three registers from `epc` on. */
    method Save(epc: nat, cause: bv64, tval: bv64)
      requires Valid() && epc + 2 < 4096
      modifies csrs
      ensures Valid()
      ensures View() == old(View()).(csrs := old(View()).csrs[epc := pc][epc + 1 := cause][epc + 2 := tval])
    {
      SetCsr(epc, pc);
      SetCsr(epc + 1, cause);
      SetCsr(epc + 2, tval);
    }

    method RaiseException(cause: Cause, tval: bv64)
      requires Valid()
      modifies this, csrs
      ensures Valid() && View() == CpuSpec.RaiseException(old(View()), cause, tval)
    {
      var medeleg := GetCsr(MEDELEG);
      if Delegated(medeleg, priv, cause) {
        Save(SEPC, cause, tval);
        EnterS();
      } else {
        Save(MEPC, cause, tval);
        EnterM();
      }
    }

    method RaiseInterrupt(cause: Cause)
      requires Valid()
      modifies this, csrs
      ensures Valid() && View() == CpuSpec.RaiseInterrupt(old(View()), cause)
    {
      var mideleg := GetCsr(MIDELEG);
      if Delegated(mideleg, priv, cause) {
        Save(SEPC, InterruptCause(cause), 0);
        EnterS();
      } else {
        Save(MEPC, InterruptCause(cause), 0);
        EnterM();
      }
    }

    // ----- memory accesses

    /** Picks the mode; the answer and the marked leaf are those of the mapping. */
    method TranslateAddress(va: bv64, access: Access) returns (result: Translation)
      requires Valid()
      modifies bus.Repr()
      ensures Valid() && Walk(View(), result) == WalkFor(old(View()), va, access)
    {
      var satp := GetCsr(SATP);
      var mstatus := GetCsr(MSTATUS);
      var c := Context(satp, mstatus, priv);
      result := TranslateOn(bus, c, ToWord(va), access);
    }

    method ReadPhysical(pa: int, n: Size) returns (value: Word)
      requires Valid()
      modifies bus.Repr()
      ensures Valid() && value == GetValue(old(View()), pa, n) && View() == AfterGet(old(View()), pa, n)
    {
      if n == 1 {
        value := bus.Read8(pa);
      } else if n == 2 {
        value := bus.Read16(pa);
      } else if n == 4 {
        value := bus.Read32(pa);
      } else {
        value := bus.Read64(pa);
      }
    }

    method WritePhysical(pa: int, n: Size, value: Word)
      requires Valid()
      modifies bus.Repr()
      ensures Valid() && View() == old(View()).(bus := BusWrite(old(View()).bus, pa, n, value))
    {
      if n == 1 {
        bus.Write8(pa, value);
      } else if n == 2 {
        bus.Write16(pa, value);
      } else if n == 4 {
        bus.Write32(pa, value);
      } else {
        bus.Write64(pa, value);
      }
    }

    method InvalidateReservation(pa: int, size: nat)
      requires Valid()
      modifies this`reservation
      ensures Valid()
      ensures View() == old(View()).(reservation := Invalidated(old(View()).reservation, pa, size))
    {
      if !reservation.valid {
        return;
      }
      var storeEnd := (pa + size) % 0x1_0000_0000_0000_0000;
      var reservationEnd := (reservation.addr + reservation.size) % 0x1_0000_0000_0000_0000;
      if pa < reservationEnd && storeEnd > reservation.addr {
        reservation := reservation.(valid := false);
      }
    }

    /** A plain store to a physical address: drop an overlapped reservation, then write. */
    method PutPhysical(pa: int, n: Size, value: Word)
      requires Valid()
      modifies this`reservation, bus.Repr()
      ensures Valid() && View() == Put(old(View()), pa, n, value)
    {
      InvalidateReservation(pa, n);
      WritePhysical(pa, n, value);
    }

    method Load(va: bv64, n: Size) returns (ok: bool, value: Word)
      requires Valid()
      modifies Repr()
      ensures Valid()
      ensures var walk := WalkFor(old(View()), va, Access.Load);
              match walk.t
              case Fault => !ok && View() == CpuSpec.RaiseException(walk.s, EXC_LOAD_PAGE, va)
              case At(pa) => ok && value == GetValue(walk.s, pa, n) && View() == AfterGet(walk.s, pa, n)
    {
      ghost var walk := WalkFor(View(), va, Access.Load);
      var result := TranslateAddress(va, Access.Load);
      assert View() == walk.s && result == walk.t;
      match result
      case Fault =>
        RaiseException(EXC_LOAD_PAGE, va);
        return false, 0;
      case At(pa) =>
        value := ReadPhysical(pa, n);
        ok := true;
    }

    method Store(va: bv64, n: Size, value: Word)
      requires Valid()
      modifies Repr()
      ensures Valid() && View() == Apply(StoreTo(WalkFor(old(View()), va, Access.Store), va, n, value))
    {
      ghost var walk := WalkFor(View(), va, Access.Store);
      var result := TranslateAddress(va, Access.Store);
      assert View() == walk.s && result == walk.t;
      match result
      case Fault => RaiseException(EXC_STORE_PAGE, va);
      case At(pa) => PutPhysical(pa, n, value);
    }

    // ----- instructions

    method Illegal(raw: bv32)
      requires Valid()
      modifies Repr()
      ensures Valid() && View() == Apply(IllegalInstruction(old(View()), raw))
    {
      RaiseException(EXC_ILLEGAL, Widened(raw));
    }

    method DispatchLoad(d: IType, raw: bv32)
      requires Valid()
      modifies Repr()
      ensures Valid() && View() == Apply(ExecLoad(old(View()), d, raw, Machine(alu)))
    {
      var base := Reg(d.rs1);
      var va := Add(d.imm, base);
      if d.funct3 == 7 {
        Illegal(raw);
        return;
      }
      var ok, value := Load(va, LoadWidth(d.funct3));
      if !ok {
        return;
      }
      SetReg(d.rd, Extended(value, d.funct3));
    }

    method DispatchStore(d: SType, raw: bv32)
      requires Valid()
      modifies Repr()
      ensures Valid() && View() == Apply(ExecStore(old(View()), d, raw, Machine(alu)))
    {
      StoreByWalk(View(), d, raw, alu);
      if d.funct3 >= 4 {
        Illegal(raw);
        return;
      }
      var base := Reg(d.rs1);
      var value := Reg(d.rs2);
      var n := LoadWidth(d.funct3);
      Store(Add(base, d.imm), n, StoreValue(value, n));
    }

    method Amo(d: AType, raw: bv32, n: Size)
      requires Valid() && (n == 4 || n == 8)
      modifies Repr()
      ensures Valid() && View() == Apply(ExecAmo(old(View()), d, raw, n, Machine(alu)))
    {
      AmoByWalk(View(), d, raw, n, alu);
      var va := Reg(d.rs1);
      var rs2 := Reg(d.rs2);
      if Misaligned(va, n) {
        RaiseException(EXC_STORE_MISALIGNED, va);
        return;
      }
      AmoVirtual(d, raw, n, va, AmoOperand(rs2, n));
    }

    /** The translation of an AMO, and what follows it. */
    method AmoVirtual(d: AType, raw: bv32, n: Size, va: bv64, rhs: bv64)
      requires Valid() && (n == 4 || n == 8)
      modifies Repr()
      ensures Valid()
      ensures View() == Apply(AmoAt(WalkFor(old(View()), va, Access.Store), d, va, rhs, n, raw))
    {
      ghost var walk := WalkFor(View(), va, Access.Store);
      var result := TranslateAddress(va, Access.Store);
      assert View() == walk.s && result == walk.t;
      match result
      case Fault => RaiseException(EXC_STORE_PAGE, va);
      case At(pa) => AmoPhysical(d, raw, n, pa, rhs);
    }

    /** The operation's switch over the function code. */
    static method Operate(f: bv5, word: bv64, rhs: bv64, n: Size) returns (result: Option<bv64>)
      ensures result == AmoResult(f, word, rhs, n)
    {
      match f
      case 0x01 => result := Some(rhs);
      case 0x00 => result := Some(AmoSum(word, rhs, n));
      case 0x04 => result := Some(Differing(word, rhs));
      case 0x0C => result := Some(Common(word, rhs));
      case 0x08 => result := Some(Both(word, rhs));
      case 0x10 => result := Some(if OperandLess(word, rhs, n) then word else rhs);
      case 0x14 => result := Some(if OperandLess(rhs, word, n) then word else rhs);
      case 0x18 => result := Some(if word < rhs then word else rhs);
      case 0x1C => result := Some(if word > rhs then word else rhs);
      case _ => result := None;
    }

    /** The read, the operation and the write of an AMO at a physical address. */
    method AmoPhysical(d: AType, raw: bv32, n: Size, pa: int, rhs: bv64)
      requires Valid() && (n == 4 || n == 8)
      modifies Repr()
      ensures Valid() && View() == Apply(AmoOn(old(View()), d, pa, rhs, n, raw))
    {
      WideReadsAreQuiet(View(), pa, n);
      var word := ReadPhysical(pa, n);
      var result := Operate(d.funct5, ToBits(word), rhs, n);
      match result
      case None => Illegal(raw);
      case Some(updated) => FinishAmo(d, pa, updated, word, n);
    }

    method FinishAmo(d: AType, pa: int, result: bv64, word: Word, n: Size)
      requires Valid() && word == GetValue(View(), pa, n)
      modifies Repr()
      ensures Valid() && View() == AmoDone(old(View()), d, pa, result, n)
    {
      PutPhysical(pa, n, ToWord(result));
      SetReg(d.rd, AtomicValue(word, n));
    }

    method LoadReserved(d: AType, raw: bv32, n: Size)
      requires Valid() && (n == 4 || n == 8)
      modifies Repr()
      ensures Valid() && View() == Apply(ExecLr(old(View()), d, raw, n, Machine(alu)))
    {
      if d.rs2 != 0 {
        Illegal(raw);
        return;
      }
      var va := Reg(d.rs1);
      if Misaligned(va, n) {
        RaiseException(EXC_LOAD_MISALIGNED, va);
        return;
      }
      ghost var walk := WalkFor(View(), va, Access.Load);
      var result := TranslateAddress(va, Access.Load);
      assert View() == walk.s && result == walk.t;
      match result
      case Fault => RaiseException(EXC_LOAD_PAGE, va);
      case At(pa) => Reserve(d, pa, n);
    }

    method Reserve(d: AType, pa: int, n: Size)
      requires Valid() && (n == 4 || n == 8)
      modifies Repr()
      ensures Valid() && View() == LrOn(old(View()), d, pa, n)
    {
      WideReadsAreQuiet(View(), pa, n);
      var value := ReadPhysical(pa, n);
      SetReg(d.rd, AtomicValue(value, n));
      reservation := Reservation(true, pa, n);
    }

    method StoreConditional(d: AType, n: Size)
      requires Valid()
      modifies Repr()
      ensures Valid() && View() == Apply(ExecSc(old(View()), d, n, Machine(alu)))
    {
      var va := Reg(d.rs1);
      if Misaligned(va, n) {
        RaiseException(EXC_STORE_MISALIGNED, va);
        return;
      }
      var value := Reg(d.rs2);
      ghost var walk := WalkFor(View(), va, Access.Store);
      var result := TranslateAddress(va, Access.Store);
      assert View() == walk.s && result == walk.t;
      match result
      case Fault => RaiseException(EXC_STORE_PAGE, va);
      case At(pa) => StoreIfReserved(d, pa, StoreValue(value, n), n);
    }

    method DropReservation()
      requires Valid()
      modifies this`reservation
      ensures Valid() && View() == Unreserved(old(View()))
    {
      reservation := reservation.(valid := false);
    }

    /** The store happens only on a valid reservation of the same place; the reservation goes either way. */
    method StoreIfReserved(d: AType, pa: int, w: Word, n: Size)
      requires Valid()
      modifies Repr()
      ensures Valid() && View() == ScOn(old(View()), d, pa, w, n)
    {
      if reservation.addr == pa && reservation.valid && reservation.size == n {
        WritePhysical(pa, n, w);
        SetReg(d.rd, 0);
      } else {
        SetReg(d.rd, 1);
      }
      DropReservation();
    }

    method DispatchAtomic(d: AType, raw: bv32)
      requires Valid()
      modifies Repr()
      ensures Valid() && View() == Apply(ExecAtomic(old(View()), d, raw, Machine(alu)))
    {
      if d.funct3 != 2 && d.funct3 != 3 {
        Illegal(raw);
        return;
      }
      var n := AtomicWidth(d);
      if IsAmo(d.funct5) {
        Amo(d, raw, n);
      } else if d.funct5 == LR {
        LoadReserved(d, raw, n);
      } else if d.funct5 == SC {
        StoreConditional(d, n);
      } else {
        Illegal(raw);
      }
    }

    // ----- system instructions

    /** A return changes mode, mstatus and pc together. */
    method Return(mode: bv2, mstatus: bv64, target: bv64)
      requires Valid()
      modifies this, csrs
      ensures Valid()
      ensures View() == old(View()).(priv := mode, csrs := old(View()).csrs[MSTATUS := mstatus],
                                     pc := target, pcWritten := true)
    {
      SetCsr(MSTATUS, mstatus);
      priv := mode;
      pc := target;
      pcWritten := true;
    }

    static method SupervisorReturnStatus(m: bv64) returns (mstatus: bv64)
      ensures mstatus == SretStatus(m)
    {
      var spie := BitAt(m, 5);
      mstatus := SetBit(m, 1, spie);
      mstatus := SetBit(mstatus, 5, 1);
      mstatus := SetBit(mstatus, 8, 0);
    }

    static method MachineReturnStatus(m: bv64) returns (mstatus: bv64)
      ensures mstatus == MretStatus(m)
    {
      var mpie := BitAt(m, 7);
      mstatus := SetBit(m, 3, mpie);
      mstatus := SetBit(mstatus, 7, 1);
      mstatus := SetBit(mstatus, 11, 0);
      mstatus := SetBit(mstatus, 12, 0);
    }

    method SretInstruction(raw: bv32)
      requires Valid()
      modifies Repr()
      ensures Valid() && View() == Apply(Sret(old(View()), raw))
    {
      if priv == U_MODE {
        Illegal(raw);
        return;
      }
      var m := GetCsr(MSTATUS);
      var target := GetCsr(SEPC);
      var mstatus := SupervisorReturnStatus(m);
      Return(Spp(m), mstatus, target);
    }

    method MretInstruction(raw: bv32)
      requires Valid()
      modifies Repr()
      ensures Valid() && View() == Apply(Mret(old(View()), raw))
    {
      if priv != M_MODE {
        Illegal(raw);
        return;
      }
      var m := GetCsr(MSTATUS);
      var target := GetCsr(MEPC);
      var mstatus := MachineReturnStatus(m);
      Return(Mpp(m), mstatus, target);
    }

    method SfenceVmaInstruction(raw: bv32)
      requires Valid()
      modifies Repr()
      ensures Valid() && View() == Apply(SfenceVma(old(View()), raw))
    {
      var m := GetCsr(MSTATUS);
      if priv == U_MODE {
        Illegal(raw);
      } else if priv == S_MODE && Bit(m, 20) {
        Illegal(raw);
      }
    }

    method ReadCsr(a: nat) returns (value: Option<bv64>)
      requires Valid()
      ensures value == CsrRead(View().csrs, View().priv, a, CurrentTime(View()))
    {
      if a >= 4096 || !Implemented(a) || !CanRead(csrs[..], a, priv) {
        return None;
      }
      var time := bus.Read64(TIME_ADDRESS);
      value := Some(ReadValue(csrs[..], a, ToBits(time)));
    }

    /** The write function of a register, or the masked write of those that have none. */
    method StoreWritten(a: nat, value: bv64)
      requires Valid() && a < 4096
      modifies csrs
      ensures Valid() && View() == old(View()).(csrs := Written(old(View()).csrs, a, value))
    {
      if a == MISA {
      } else if a == SSTATUS {
        var mstatus := GetCsr(MSTATUS);
        SetCsr(MSTATUS, Masked(mstatus, value, SSTATUS_MASK));
      } else if a == SIE {
        var mie := GetCsr(MIE);
        var mideleg := GetCsr(MIDELEG);
        SetCsr(MIE, Masked(mie, value, Common(SUPERVISOR_INTERRUPTS, mideleg)));
      } else if a == SIP {
        var mip := GetCsr(MIP);
        var mideleg := GetCsr(MIDELEG);
        SetCsr(MIP, Masked(mip, value, Common(SUPERVISOR_INTERRUPTS, mideleg)));
      } else if a == MTVEC || a == STVEC {
        SetCsr(a, Align4(value));
      } else {
        var before := GetCsr(a);
        SetCsr(a, Masked(before, value, WriteMask(a)));
      }
    }

    method WriteCsr(a: nat, value: bv64) returns (ok: bool)
      requires Valid()
      modifies csrs
      ensures Valid()
      ensures match CsrWrite(old(View()).csrs, old(View()).priv, a, value)
              case None => !ok && View() == old(View())
              case Some(f) => ok && View() == old(View()).(csrs := f)
    {
      if a >= 4096 || !Implemented(a) || !CanWrite(a, priv) {
        return false;
      }
      StoreWritten(a, value);
      ok := true;
    }

    method StoreCsr(d: IType, a: nat, word: bv64, value: bv64, raw: bv32)
      requires Valid()
      modifies Repr()
      ensures Valid() && View() == Apply(CsrStore(old(View()), d, a, word, value, raw))
    {
      var ok := WriteCsr(a, value);
      if !ok {
        Illegal(raw);
        return;
      }
      SetReg(d.rd, word);
    }

    /** The operand of either form: a register or the field itself. */
    method ReadOperand(d: IType) returns (v: bv64)
      requires Valid()
      ensures v == CsrOperand(View(), d)
    {
      if d.funct3 < 4 {
        v := Reg(d.rs1);
      } else {
        v := Immediate(d.rs1);
      }
    }

    /** CSRRW and CSRRWI. */
    method Csrrw(d: IType, a: nat, raw: bv32)
      requires Valid() && CsrKind(d.funct3) == 1
      modifies Repr()
      ensures Valid() && View() == Apply(ExecCsr(old(View()), d, a, raw))
    {
      var value := ReadOperand(d);
      var word := Some(0);
      if d.rd != 0 {
        word := ReadCsr(a);
      }
      assert word == CsrOldValue(View(), d, a);
      if word == None {
        Illegal(raw);
        return;
      }
      StoreCsr(d, a, word.value, value, raw);
    }

    /** CSRRS and CSRRSI, CSRRC and CSRRCI: x0 or a zero field writes nothing. */
    method CsrModify(d: IType, a: nat, raw: bv32)
      requires Valid() && (CsrKind(d.funct3) == 2 || CsrKind(d.funct3) == 3)
      modifies Repr()
      ensures Valid() && View() == Apply(ExecCsr(old(View()), d, a, raw))
    {
      var word := ReadCsr(a);
      assert word == CsrOldValue(View(), d, a);
      if word == None {
        Illegal(raw);
        return;
      }
      if d.rs1 != 0 {
        var operand := ReadOperand(d);
        StoreCsr(d, a, word.value, CsrNewValue(CsrKind(d.funct3), word.value, operand), raw);
      } else {
        SetReg(d.rd, word.value);
      }
    }

    method EcallInstruction()
      requires Valid()
      modifies Repr()
      ensures Valid() && View() == Apply(Ecall(old(View())))
    {
      var cause := EXC_ECALL_U;
      if priv == M_MODE {
        cause := EXC_ECALL_M;
      } else if priv == S_MODE {
        cause := EXC_ECALL_S;
      }
      RaiseException(cause, 0);
    }

    method DispatchPrivileged(d: IType, funct7: bv7, raw: bv32)
      requires Valid()
      modifies Repr()
      ensures Valid() && View() == Apply(ExecPrivileged(old(View()), d, funct7, raw))
    {
      if funct7 == 9 && d.rd == 0 {
        SfenceVmaInstruction(raw);
      } else if d.imm == 0x000 {
        EcallInstruction();
      } else if d.imm == 0x001 {
        RaiseException(EXC_BREAKPOINT, 0);
      } else if d.imm == 0x102 {
        SretInstruction(raw);
      } else if d.imm == 0x302 {
        MretInstruction(raw);
      } else if d.imm == 0x105 {
      } else {
        Illegal(raw);
      }
    }

    method DispatchSystem(d: IType, funct7: bv7, a: nat, raw: bv32)
      requires Valid()
      modifies Repr()
      ensures Valid() && View() == Apply(ExecSystem(old(View()), d, funct7, a, raw))
    {
      if d.funct3 == 0 {
        DispatchPrivileged(d, funct7, raw);
      } else if d.funct3 == 4 {
        Illegal(raw);
      } else if CsrKind(d.funct3) == 1 {
        Csrrw(d, a, raw);
      } else {
        CsrModify(d, a, raw);
      }
    }

    // ----- everything else

    /** The instruction sets the pc itself. */
    method Jump(target: bv64)
      requires Valid()
      modifies this`pc, this`pcWritten
      ensures Valid() && View() == old(View()).(pc := target, pcWritten := true)
    {
      pc := target;
      pcWritten := true;
    }

    method DispatchBranch(d: BType, raw: bv32)
      requires Valid()
      modifies Repr()
      ensures Valid() && View() == Apply(ExecBranch(old(View()), d, raw))
    {
      var x := Reg(d.rs1);
      var y := Reg(d.rs2);
      if d.funct3 == 2 || d.funct3 == 3 {
        Illegal(raw);
      } else if BranchTaken(d.funct3, x, y) {
        Jump(Add(pc, d.imm));
      }
    }

    method DispatchJal(d: JType)
      requires Valid()
      modifies Repr()
      ensures Valid() && View() == Apply(ExecJal(old(View()), d))
    {
      SetReg(d.rd, Add(pc, 4));
      Jump(Add(pc, d.imm));
    }

    method DispatchJalr(d: IType)
      requires Valid()
      modifies Repr()
      ensures Valid() && View() == Apply(ExecJalr(old(View()), d))
    {
      var base := Reg(d.rs1);
      var target := Align2(Add(d.imm, base));
      SetReg(d.rd, Add(pc, 4));
      Jump(target);
    }

    method DispatchMiscMem(d: IType, raw: bv32)
      requires Valid()
      modifies Repr()
      ensures Valid() && View() == Apply(ExecMiscMem(old(View()), d, raw))
    {
      if d.funct3 == 0 {
      } else if d.funct3 == 1 && d.rd == 0 && d.rs1 == 0 && d.imm == 0 {
      } else {
        Illegal(raw);
      }
    }

    method DispatchAlu(d: RType, raw: bv32)
      requires Valid()
      modifies Repr()
      ensures Valid() && View() == Apply(ExecAlu(old(View()), d, raw, Machine(alu)))
    {
      var x := Reg(d.rs1);
      var y := Reg(d.rs2);
      match alu(raw, x, y, pc)
      case Illegal => Illegal(raw);
      case NoResult =>
      case Value(v) => SetReg(d.rd, v);
    }

    method DispatchInstruction(raw: bv32)
      requires Valid()
      modifies Repr()
      ensures Valid() && View() == Dispatch(old(View()), raw, Machine(alu))
    {
      var i := Decode(raw);
      match i
      case LoadOp(_) => ExecuteMemory(i, raw);
      case StoreOp(_) => ExecuteMemory(i, raw);
      case AtomicOp(_) => ExecuteMemory(i, raw);
      case Jal(_) => ExecuteJump(i, raw);
      case Jalr(_) => ExecuteJump(i, raw);
      case BranchOp(_) => ExecuteJump(i, raw);
      case _ => ExecuteOther(i, raw);
    }

    method ExecuteMemory(i: Instruction, raw: bv32)
      requires Valid() && (i.LoadOp? || i.StoreOp? || i.AtomicOp?)
      modifies Repr()
      ensures Valid() && View() == Apply(Exec(old(View()), i, raw, Machine(alu)))
    {
      MemoryByKind(View(), i, raw, Machine(alu));
      match i
      case LoadOp(d) => DispatchLoad(d, raw);
      case StoreOp(d) => DispatchStore(d, raw);
      case AtomicOp(d) => DispatchAtomic(d, raw);
    }

    method ExecuteJump(i: Instruction, raw: bv32)
      requires Valid() && (i.Jal? || i.Jalr? || i.BranchOp?)
      modifies Repr()
      ensures Valid() && View() == Apply(Exec(old(View()), i, raw, Machine(alu)))
    {
      match i
      case Jal(d) => DispatchJal(d);
      case Jalr(d) => DispatchJalr(d);
      case BranchOp(d) => DispatchBranch(d, raw);
    }

    method ExecuteOther(i: Instruction, raw: bv32)
      requires Valid() && (i.AluOp? || i.SystemOp? || i.MiscMem? || i.Unknown?)
      modifies Repr()
      ensures Valid() && View() == Apply(Exec(old(View()), i, raw, Machine(alu)))
    {
      OtherByKind(View(), i, raw, Machine(alu));
      match i
      case AluOp(d) => DispatchAlu(d, raw);
      case SystemOp(d, funct7, a) => DispatchSystem(d, funct7, a, raw);
      case MiscMem(d) => DispatchMiscMem(d, raw);
      case Unknown => Illegal(raw);
    }

    // ----- the step

    /** Whether a pending, enabled cause gets through the current mode. */
    method LetsThrough(cause: Cause) returns (taken: bool)
      requires Valid() && Raised(Pending(View().csrs), cause)
      ensures taken == Takeable(View().csrs, View().priv, cause)
    {
      var mstatus := GetCsr(MSTATUS);
      var mideleg := GetCsr(MIDELEG);
      BitIsMask(mideleg, cause);
      if BitAt(mideleg, cause) == 0 {
        return !(priv == M_MODE && !Bit(mstatus, 3));
      }
      if priv == M_MODE {
        return false;
      }
      return !(priv == S_MODE && !Bit(mstatus, 1));
    }

    method ReadPending() returns (pending: bv64)
      requires Valid()
      ensures pending == Pending(View().csrs)
    {
      var mip := GetCsr(MIP);
      var mie := GetCsr(MIE);
      pending := mip & mie;
    }

    /** The first cause of the table that must be taken. */
    method SelectInterrupt() returns (selected: Option<Cause>)
      requires Valid()
      ensures selected == FirstTakeable(View().csrs, View().priv, 0)
    {
      ghost var f := View().csrs;
      var pending := ReadPending();
      if pending == 0 {
        NothingPending(f, priv, 0);
        return None;
      }
      for i := 0 to 6
        invariant FirstTakeable(f, priv, 0) == FirstTakeable(f, priv, i)
      {
        var cause := PRIORITY[i];
        if Raised(pending, cause) {
          var taken := LetsThrough(cause);
          if taken {
            return Some(cause);
          }
        }
      }
      return None;
    }

    method CheckInterrupts()
      requires Valid()
      modifies this, csrs
      ensures Valid() && View() == CpuSpec.CheckInterrupts(old(View()))
    {
      var selected := SelectInterrupt();
      match selected
      case None =>
      case Some(cause) => RaiseInterrupt(cause);
    }

    method CountRetired()
      requires Valid()
      modifies this`pc, csrs
      ensures Valid() && View() == Retired(old(View()))
    {
      if !trapTaken && !pcWritten {
        pc := Add(pc, 4);
      }
      if !trapTaken {
        var minstret := GetCsr(MINSTRET);
        SetCsr(MINSTRET, Add(minstret, 1));
      }
    }

    method Begin()
      requires Valid()
      modifies this`trapTaken, csrs
      ensures Valid() && View() == Begun(old(View()))
    {
      trapTaken := false;
      var mcycle := GetCsr(MCYCLE);
      SetCsr(MCYCLE, Add(mcycle, 1));
    }

    method Finish()
      requires Valid()
      modifies this, csrs
      ensures Valid() && View() == Finished(old(View()))
    {
      CheckInterrupts();
      pcWritten := false;
    }

    /** One step of the machine. */
    method Step()
      requires Valid()
      modifies Repr()
      ensures Valid() && View() == CpuSpec.Step(old(View()), Machine(alu))
    {
      Begin();
      ghost var walk := WalkFor(View(), pc, Fetch);
      var result := TranslateAddress(pc, Fetch);
      assert View() == walk.s && result == walk.t;
      match result
      case Fault => RaiseException(EXC_FETCH_PAGE, pc);
      case At(pa) => Run(pa);
    }

    /** Reads and runs the instruction at a physical address. */
    method Run(pa: int)
      requires Valid()
      modifies Repr()
      ensures Valid()
      ensures View() == Finished(Retired(Dispatch(old(View()), InstructionAt(old(View()), pa), Machine(alu))))
    {
      WideReadsAreQuiet(View(), pa, 4);
      var word := ReadPhysical(pa, 4);
      DispatchInstruction(ToInstruction(word));
      CountRetired();
      Finish();
    }

    // ----- between steps

    method SetInterruptPending(cause: Cause, on: bool)
      requires Valid()
      modifies csrs
      ensures Valid() && View() == PendingSet(old(View()), cause, on)
    {
      var mip := GetCsr(MIP);
      SetCsr(MIP, SetBit(mip, cause, if on then 1 else 0));
    }

    /** Time passes for the timer, which drives the software and timer interrupt lines. */
    method Tick()
      requires Valid()
      modifies Repr()
      ensures Valid() && View() == Ticked(old(View()))
    {
      bus.TimerTick();
      SetInterruptPending(3, bus.msip % 2 == 1);
      SetInterruptPending(7, bus.mtime >= bus.mtimecmp);
    }

    method HandleHostInput(input: Option<bv8>)
      requires Valid()
      modifies bus.Repr()
      ensures Valid() && View() == HostInput(old(View()), input)
    {
      bus.uart.HandleHostInput(input);
    }
  }
}
