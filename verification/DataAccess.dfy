/** Loads and stores by instruction word: the number that reaches rd, and the bytes that reach memory. */
module DataAccess {
  import opened Words
  import opened Memory
  import opened BusSpec
  import opened PagingSpec
  import opened Decoding
  import opened CpuSpec
  import opened Digits
  import opened Precise
  import opened CompareAndSwap
  import opened Numbers
  import opened AtomicEffects
  import opened StoreLoad

  /** Bytes that the load or store with this code (bits 14 to 12) moves; the top bit of a load's code only says
      that the value is unsigned. */
  function Bytes(funct3: bv3): Size {
    if funct3 == 0 || funct3 == 4 then 1
    else if funct3 == 1 || funct3 == 5 then 2
    else if funct3 == 2 || funct3 == 6 then 4
    else 8
  }

  /** The address of an access: rs1 and the immediate, around 2^64. */
  predicate IsTarget(va: bv64, base: bv64, offset: bv64) {
    ToWord(va) == (ToWord(base) + ToWord(offset)) % TWO_TO_64
  }

  // ----- loads

  /** rd, unless it is x0, holds the number of the bytes: signed for codes 0 to 3, unsigned for 4 to 6. */
  predicate HoldsLoaded(s: State, rd: bv5, w: nat, funct3: bv3) {
    rd != 0 ==>
      && (funct3 < 4 ==> SignedBytes(ToWord(ReadReg(s, rd)), 8) == SignedBytes(w, Bytes(funct3)))
      && (4 <= funct3 ==> ToWord(ReadReg(s, rd)) == w)
  }

  /** A completed load leaves the number in rd and all else as the walk left it, save that reading a byte of the
      UART may have an effect there. */
  ghost predicate Loaded(walk: Walk, s': State, rd: bv5, funct3: bv3) {
    && walk.t.At?
    && var pa, n := walk.t.pa, Bytes(funct3);
    && s' == walk.s.(regs := s'.regs, bus := AfterBusRead(walk.s.bus, pa, n)) && OthersKept(walk.s, s', rd)
    && HoldsLoaded(s', rd, BusRead(walk.s.bus, pa, n), funct3)
    && (ValidAccess(pa, n) ==> s'.bus == walk.s.bus && HoldsLoaded(s', rd, LoadBytes(walk.s.bus.ram, pa, n), funct3))
  }

  lemma ExtendedNumber(w: Word, funct3: bv3)
    requires funct3 != 7 && w < Range(Bytes(funct3))
    ensures funct3 < 4 ==> SignedBytes(ToWord(Extended(w, funct3)), 8) == SignedBytes(w, Bytes(funct3))
    ensures 4 <= funct3 ==> ToWord(Extended(w, funct3)) == w
  {
    WordOfBits(w);
    if funct3 < 3 {
      ExtensionKeepsNumber(w, Bytes(funct3));
    }
  }

  lemma LoadedNumber(s: State, rd: bv5, w: Word, funct3: bv3)
    requires funct3 != 7 && w < Range(Bytes(funct3))
    ensures var s' := WriteReg(s, rd, Extended(w, funct3)); HoldsLoaded(s', rd, w, funct3) && OthersKept(s, s', rd)
  {
    ExtendedNumber(w, funct3);
  }

  lemma LoadLeaves(walk: Walk, d: IType, va: bv64)
    requires walk.t.At? && d.funct3 != 7
    ensures LoadFrom(walk, d, va).Done? && Loaded(walk, LoadFrom(walk, d, va).s, d.rd, d.funct3)
  {
    LoadWidths(d.funct3);
    LeavesLoaded(walk, d.rd, d.funct3);
  }

  lemma RamIsQuiet(b: Bus, pa: int, n: Size)
    requires ValidAccess(pa, n)
    ensures AfterBusRead(b, pa, n) == b && BusRead(b, pa, n) == LoadBytes(b.ram, pa, n)
  {
  }

  lemma KeptBesides(s: State, s1: State, rd: bv5, v: bv64)
    requires s1 == s.(bus := s1.bus)
    ensures var s' := WriteReg(s1, rd, v); s' == s.(regs := s'.regs, bus := s1.bus)
  {
  }

  lemma LeavesLoaded(walk: Walk, rd: bv5, funct3: bv3)
    requires walk.t.At? && funct3 != 7
    ensures var n, pa := Bytes(funct3), walk.t.pa;
            var v := Extended(BusRead(walk.s.bus, pa, n), funct3);
            Loaded(walk, WriteReg(AfterGet(walk.s, pa, n), rd, v), rd, funct3)
  {
    var n, pa := Bytes(funct3), walk.t.pa;
    var s1, w := AfterGet(walk.s, pa, n), BusRead(walk.s.bus, pa, n);
    BusReadFits(walk.s.bus, pa, n);
    LoadedNumber(s1, rd, w, funct3);
    KeptBesides(walk.s, s1, rd, Extended(w, funct3));
    if ValidAccess(pa, n) {
      RamIsQuiet(walk.s.bus, pa, n);
    }
    StillOthersKept(walk.s, s1, WriteReg(s1, rd, Extended(w, funct3)), rd);
  }

  lemma StillOthersKept(s: State, s1: State, s': State, rd: bv5)
    requires s1.regs == s.regs && OthersKept(s1, s', rd)
    ensures OthersKept(s, s', rd)
  {
    forall r: bv5 | r != rd ensures ReadReg(s', r) == ReadReg(s, r) {
      assert ReadReg(s1, r) == ReadReg(s, r);
    }
  }

  /** What a load does: code 7 is illegal, a page fault traps with the address, and otherwise the bytes at the
      translated address are loaded. */
  lemma LoadExactly(s: State, raw: bv32, d: IType, va: bv64, core: Core)
    requires Lawful(core.mmu) && Decode(raw) == LoadOp(d) && IsTarget(va, ReadReg(s, d.rs1), d.imm)
    ensures var e, walk := Outcome(s, raw, core), core.mmu(s, va, Load);
            if d.funct3 == 7 then e == Raise(s, 2, raw as bv64)
            else if walk.t == Fault then e == Raise(s, 13, va)
            else e.Done? && Loaded(walk, e.s, d.rd, d.funct3)
  {
    TargetIsSum(va, d.imm, ReadReg(s, d.rs1));
    LoadCases(s, d, raw, va, core);
  }

  lemma LoadCases(s: State, d: IType, raw: bv32, va: bv64, core: Core)
    requires Lawful(core.mmu) && va == Add(d.imm, ReadReg(s, d.rs1))
    ensures var e, walk := ExecLoad(s, d, raw, core), core.mmu(s, va, Load);
            if d.funct3 == 7 then e == Raise(s, 2, raw as bv64)
            else if walk.t == Fault then e == Raise(s, 13, va)
            else e.Done? && Loaded(walk, e.s, d.rd, d.funct3)
  {
    var walk := core.mmu(s, va, Load);
    assert Contained(s, walk);
    if d.funct3 != 7 && walk.t.At? {
      LoadLeaves(walk, d, va);
    }
  }

  lemma TargetIsSum(va: bv64, x: bv64, y: bv64)
    requires ToWord(va) == (ToWord(x) + ToWord(y)) % TWO_TO_64
    ensures va == Add(x, y)
  {
    AddNumber(x, y);
    BitsOfWord(va);
    BitsOfWord(Add(x, y));
  }

  // ----- stores

  /** A completed store puts the low bytes of `v` in RAM and changes nothing else of what the walk left, except
      that it may drop a reservation. */
  ghost predicate Stored(walk: Walk, s': State, v: bv64, n: Size) {
    && walk.t.At?
    && s' == walk.s.(bus := s'.bus, reservation := s'.reservation)
    && (s'.reservation == walk.s.reservation || s'.reservation == walk.s.reservation.(valid := false))
    && (ValidAccess(walk.t.pa, n) ==>
          var pa, m, m' := walk.t.pa, walk.s.bus.ram, s'.bus.ram;
          && s'.bus == walk.s.bus.(ram := m')
          && LoadBytes(m', pa, n) == ToWord(v) % Range(n)
          && forall a: int | !(pa <= a < pa + n) :: ByteAt(m', a) == ByteAt(m, a))
  }

  lemma PutStores(walk: Walk, v: bv64, n: Size)
    requires walk.t.At?
    ensures Stored(walk, Put(walk.s, walk.t.pa, n, StoreValue(v, n)), v, n)
  {
    StoredValueLoads(walk.s.bus.ram, walk.t.pa, n, v);
  }

  lemma StoreLeavesBytes(walk: Walk, va: bv64, v: bv64, n: Size)
    requires walk.t.At?
    ensures var e := StoreTo(walk, va, n, StoreValue(v, n)); e.Done? && Stored(walk, e.s, v, n)
  {
    PutStores(walk, v, n);
  }

  lemma StoreCases(s: State, d: SType, raw: bv32, va: bv64, core: Core)
    requires Lawful(core.mmu) && va == Add(ReadReg(s, d.rs1), d.imm)
    ensures var e, walk := ExecStore(s, d, raw, core), core.mmu(s, va, Store);
            if d.funct3 >= 4 then e == Raise(s, 2, raw as bv64)
            else if walk.t == Fault then e == Raise(s, 15, va)
            else e.Done? && Stored(walk, e.s, ReadReg(s, d.rs2), Bytes(d.funct3))
  {
    StoreFaults(s, d, raw, va, core);
    var walk := core.mmu(s, va, Store);
    if walk.t.At? {
      StoreLeavesBytes(walk, va, ReadReg(s, d.rs2), Bytes(d.funct3));
    }
  }

  lemma StoreFaults(s: State, d: SType, raw: bv32, va: bv64, core: Core)
    requires Lawful(core.mmu) && va == Add(ReadReg(s, d.rs1), d.imm)
    ensures var walk, n := core.mmu(s, va, Store), Bytes(d.funct3);
            ExecStore(s, d, raw, core)
            == if d.funct3 >= 4 then Raise(s, 2, raw as bv64)
               else if walk.t == Fault then Raise(s, 15, va)
               else StoreTo(walk, va, n, StoreValue(ReadReg(s, d.rs2), n))
  {
    assert Contained(s, core.mmu(s, va, Store));
    if d.funct3 < 4 {
      LoadWidths(d.funct3);
    }
  }

  /** What a store does: codes from 4 on are illegal, a page fault traps with the address, and otherwise the low
      bytes of rs2 are stored at the translated address. */
  lemma StoreExactly(s: State, raw: bv32, d: SType, va: bv64, core: Core)
    requires Lawful(core.mmu) && Decode(raw) == StoreOp(d) && IsTarget(va, ReadReg(s, d.rs1), d.imm)
    ensures var e, walk := Outcome(s, raw, core), core.mmu(s, va, Store);
            if d.funct3 >= 4 then e == Raise(s, 2, raw as bv64)
            else if walk.t == Fault then e == Raise(s, 15, va)
            else e.Done? && Stored(walk, e.s, ReadReg(s, d.rs2), Bytes(d.funct3))
  {
    TargetIsSum(va, ReadReg(s, d.rs1), d.imm);
    StoreCases(s, d, raw, va, core);
  }
}
