/** A store through virtual memory can be loaded back through it. */
module StoreLoad {
  import opened Words
  import opened Digits
  import opened Memory
  import opened BusSpec
  import opened PagingSpec
  import opened PagingProofs
  import opened Decoding
  import opened CpuSpec

  /** None of the entries the walk reads overlaps the `n` bytes at `pa`. */
  predicate PathClear(t: Tables, table: int, va: Word, level: nat, pa: int, n: Size)
    decreases level
  {
    var addr := EntryAddress(table, va, level);
    var e := t(addr);
    && Disjoint(pa, n, addr, 8)
    && (level > 0 && !Malformed(e) && !IsLeaf(e) ==> PathClear(t, NextTable(e), va, level - 1, pa, n))
  }

  lemma {:induction false} PathSurvives(t: Tables, t': Tables, table: int, va: Word, level: nat, pa: int, n: Size)
    requires TablesGrown(t, t') && table % 8 == 0 && PathClear(t, table, va, level, pa, n)
    ensures PathClear(t', table, va, level, pa, n)
    decreases level
  {
    var e := t(EntryAddress(table, va, level));
    assert GrownEntry(e, t'(EntryAddress(table, va, level)));
    if !Malformed(e) && !IsLeaf(e) && level > 0 {
      PathSurvives(t, t', NextTable(e), va, level - 1, pa, n);
    }
  }

  /** The tables agree on every entry that does not overlap the `n` bytes at `pa`. */
  ghost predicate AgreeElsewhere(t: Tables, t': Tables, pa: int, n: Size) {
    forall p | Disjoint(pa, n, p, 8) :: t'(p) == t(p)
  }

  lemma RamAgrees(m: Ram, pa: int, n: Size, w: Word, p: int)
    requires ValidAccess(pa, n) && Disjoint(pa, n, p, 8)
    ensures MemRead(MemWrite(m, pa, n, w), p, 8) == MemRead(m, p, 8)
  {
    LoadElsewhere(m, pa, n, w, p, 8);
  }

  lemma StoreAgrees(b: Bus, pa: int, n: Size, w: Word, p: int)
    requires ValidAccess(pa, n) && Disjoint(pa, n, p, 8)
    ensures PteAt(BusWrite(b, pa, n, w), p) == PteAt(b, p)
  {
    RamAgrees(b.ram, pa, n, w, p);
  }

  lemma StoreAgreesElsewhere(b: Bus, pa: int, n: Size, w: Word)
    requires ValidAccess(pa, n)
    ensures AgreeElsewhere(Entries(b), Entries(BusWrite(b, pa, n, w)), pa, n)
  {
    forall p | Disjoint(pa, n, p, 8)
      ensures PteAt(BusWrite(b, pa, n, w), p) == PteAt(b, p)
    {
      StoreAgrees(b, pa, n, w, p);
    }
  }

  lemma {:induction false} SameLeafElsewhere(t: Tables, t': Tables, table: int, va: Word, level: nat, pa: int, n: Size)
    requires AgreeElsewhere(t, t', pa, n) && PathClear(t, table, va, level, pa, n)
    ensures FindLeaf(t', table, va, level) == FindLeaf(t, table, va, level)
    ensures FindLeaf(t, table, va, level).Some? ==>
              Disjoint(pa, n, FindLeaf(t, table, va, level).value.addr, 8)
    decreases level
  {
    var e := t(EntryAddress(table, va, level));
    if !Malformed(e) && !IsLeaf(e) && level > 0 {
      SameLeafElsewhere(t, t', NextTable(e), va, level - 1, pa, n);
    }
  }

  /** A page that may be stored to may be loaded from: W without R is malformed. */
  lemma StoreGrantsLoad(t: Tables, c: Context, va: Word)
    requires Map(t, c, va, Store).At?
    ensures Map(t, c, va, Load) == Map(t, c, va, Store)
    ensures Marked(t, c, va, Load) == Marked(t, c, va, Store)
  {
    FoundLeaf(t, RootTable(c.satp), va, 2);
  }

  /** The walk of an access misses the stored bytes; without translation there is no walk. */
  predicate WalkClear(t: Tables, c: Context, va: Word, pa: int, n: Size) {
    Sv39(c, Store) ==> PathClear(t, RootTable(c.satp), va, 2, pa, n)
  }

  lemma StoreKeepsMapping(b: Bus, c: Context, va: Word, pa: int, n: Size, w: Word)
    requires ValidAccess(pa, n) && WalkClear(Entries(b), c, va, pa, n)
    ensures var t, b' := Entries(b), BusWrite(b, pa, n, w);
            && Map(Entries(b'), c, va, Load) == Map(t, c, va, Load)
            && Marked(Entries(b'), c, va, Load) == Marked(t, c, va, Load)
            && (Marked(t, c, va, Load).Some? ==> Disjoint(pa, n, Marked(t, c, va, Load).value.addr, 8))
  {
    StoreAgreesElsewhere(b, pa, n, w);
    if Sv39(c, Load) {
      SameLeafElsewhere(Entries(b), Entries(BusWrite(b, pa, n, w)), RootTable(c.satp), va, 2, pa, n);
    }
  }

  /** Memory after a store of `w` to `va` has been translated and performed. */
  ghost function AfterStore(b: Bus, c: Context, va: Word, n: Size, w: Word): Bus
    requires Map(Entries(b), c, va, Store).At?
  {
    BusWrite(AfterMap(b, c, va, Store), Map(Entries(b), c, va, Store).pa, n, w)
  }

  lemma MarkedByStore(b: Bus, c: Context, va: Word)
    requires Map(Entries(b), c, va, Store).At?
    ensures var b' := AfterMap(b, c, va, Store);
            && Map(Entries(b'), c, va, Load) == Map(Entries(b), c, va, Store)
            && match Marked(Entries(b'), c, va, Load)
               case None => true
               case Some(leaf) => StatusSet(PteAt(b', leaf.addr), Load)
  {
    var b' := AfterMap(b, c, va, Store);
    StoreGrantsLoad(Entries(b), c, va);
    WalkExtends(b, c, va, Store);
    ExtendsTables(b, b');
    GrantSurvives(Entries(b), Entries(b'), c, va, Load);
    MapSurvives(Entries(b), Entries(b'), c, va, Load);
    WalkSetsStatus(b, c, va, Store);
  }

  /** If a store succeeds, a load from the same address in the same mode cannot fault, finds the same
      physical address, marks nothing, and reads the value stored, as long as the stored bytes are in RAM and
      are not themselves entries of the walk. */
  lemma StoreThenLoad(b: Bus, c: Context, va: Word, n: Size, w: Word)
    requires Map(Entries(b), c, va, Store).At?
    requires var pa := Map(Entries(b), c, va, Store).pa; ValidAccess(pa, n) && WalkClear(Entries(b), c, va, pa, n)
    ensures var pa, b' := Map(Entries(b), c, va, Store).pa, AfterStore(b, c, va, n, w);
            && Map(Entries(b'), c, va, Load) == At(pa)
            && AfterMap(b', c, va, Load) == b'
            && BusRead(b', pa, n) == w % Range(n)
  {
    var pa, b1 := Map(Entries(b), c, va, Store).pa, AfterMap(b, c, va, Store);
    MarkedByStore(b, c, va);
    ClearAfterWalk(b, c, va, pa, n);
    StoreKeepsMapping(b1, c, va, pa, n, w);
    LoadAfterStore(b1.ram, pa, n, w);
    match Marked(Entries(b1), c, va, Load)
    case None =>
    case Some(leaf) => StoreAgrees(b1, pa, n, w, leaf.addr);
    NothingToSet(AfterStore(b, c, va, n, w), c, va, Load);
  }

  lemma ClearAfterWalk(b: Bus, c: Context, va: Word, pa: int, n: Size)
    requires WalkClear(Entries(b), c, va, pa, n)
    ensures WalkClear(Entries(AfterMap(b, c, va, Store)), c, va, pa, n)
  {
    WalkExtends(b, c, va, Store);
    ExtendsTables(b, AfterMap(b, c, va, Store));
    if Sv39(c, Store) {
      PathSurvives(Entries(b), Entries(AfterMap(b, c, va, Store)), RootTable(c.satp), va, 2, pa, n);
    }
  }

  // ----- the same for registers: a store instruction, then a load instruction

  lemma {:induction false} LowBitsOf(x: bv64, bits: nat, k: nat)
    requires k <= bits
    ensures Unsigned(x, bits) % Pow2(k) == Unsigned(x, k)
  {
    if k > 0 {
      LowBitsOf(Half(x), bits - 1, k - 1);
      var low := if Odd(x) then 1 else 0;
      ModDoubled(low, Unsigned(Half(x), bits - 1), Pow2(k - 1));
    }
  }

  lemma ModDoubled(low: nat, rest: nat, p: nat)
    requires low <= 1 && p > 0
    ensures (low + 2 * rest) % (2 * p) == low + 2 * (rest % p)
  {
    var q, r := rest / p, rest % p;
    assert low + 2 * rest == q * (2 * p) + (low + 2 * r) by {
      assert rest == q * p + r;
      assert q * (2 * p) == 2 * (q * p);
    }
    ModUnique(low + 2 * rest, 2 * p, q, low + 2 * r);
  }

  lemma BytesAreBits(n: Size)
    ensures Range(n) == Pow2(8 * n)
  {
    assert Range(2) == 0x1_0000;
    assert Range(4) == 0x1_0000_0000;
    Pow2Of64();
    RangeOfSize(n);
    assert Pow2(8) == 0x100;
    Squares(8, 0x100);
    Squares(16, 0x1_0000);
  }

  /** What memory holds of a register is its low bytes. */
  lemma StoredBits(v: bv64, n: Size)
    ensures ToBits(StoreValue(v, n)) == Common(v, Ones(8 * n))
  {
    BytesAreBits(n);
    LowBitsOf(v, 64, 8 * n);
    ShortDigits(Unsigned(v, 8 * n), 64, 8 * n);
    DigitsOfUnsigned(v, 8 * n);
  }

  lemma OnesOfSizes()
    ensures Ones(8) == 0xFF && Ones(16) == 0xFFFF && Ones(32) == 0xFFFF_FFFF
  {
    EightMoreOnes(0);
    EightMoreOnes(8);
    EightMoreOnes(16);
    EightMoreOnes(24);
  }

  /** What a load instruction makes of the low bytes of `v`. */
  function LoadedBack(v: bv64, funct3: bv3): bv64 {
    if funct3 == 0 then SignExtend(Common(v, 0xFF), 8)
    else if funct3 == 1 then SignExtend(Common(v, 0xFFFF), 16)
    else if funct3 == 2 then SignExtend(Common(v, 0xFFFF_FFFF), 32)
    else if funct3 == 4 then Common(v, 0xFF)
    else if funct3 == 5 then Common(v, 0xFFFF)
    else if funct3 == 6 then Common(v, 0xFFFF_FFFF)
    else v
  }

  lemma StoredParts(v: bv64)
    ensures ToBits(StoreValue(v, 1)) == Common(v, 0xFF) && ToBits(StoreValue(v, 2)) == Common(v, 0xFFFF)
    ensures ToBits(StoreValue(v, 4)) == Common(v, 0xFFFF_FFFF) && ToBits(StoreValue(v, 8)) == v
  {
    StoredBits(v, 1);
    StoredBits(v, 2);
    StoredBits(v, 4);
    StoredBits(v, 8);
    OnesOfSizes();
    OnesOf64();
    AllOfIt(v);
  }

  lemma ExtendedStored(v: bv64, funct3: bv3)
    requires funct3 != 7
    ensures Extended(StoreValue(v, LoadWidth(funct3)), funct3) == LoadedBack(v, funct3)
  {
    StoredParts(v);
    LoadWidths(funct3);
  }

  lemma AllOfIt(v: bv64)
    ensures Common(v, 0xFFFF_FFFF_FFFF_FFFF) == v
  {
  }

  lemma LoadWidths(funct3: bv3)
    requires funct3 != 7
    ensures LoadWidth(funct3) == if funct3 == 0 || funct3 == 4 then 1 else if funct3 == 1 || funct3 == 5 then 2
                                 else if funct3 == 2 || funct3 == 6 then 4 else 8
  {
  }

  /** A load from `va` in a state whose mapping and memory are as a store there left them. */
  lemma LoadReads(s: State, d: IType, va: bv64, pa: int, w: Word)
    requires Map(Entries(s.bus), Ctx(s), ToWord(va), Load) == At(pa) && InRam(pa)
    requires AfterMap(s.bus, Ctx(s), ToWord(va), Load) == s.bus
    requires GetValue(s, pa, LoadWidth(d.funct3)) == w
    ensures LoadFrom(WalkFor(s, va, Load), d, va) == Done(WriteReg(s, d.rd, Extended(w, d.funct3)))
  {
  }

  lemma StoredValueReads(b: Bus, c: Context, va: Word, n: Size, v: bv64)
    requires Map(Entries(b), c, va, Store).At?
    requires var pa := Map(Entries(b), c, va, Store).pa; ValidAccess(pa, n) && WalkClear(Entries(b), c, va, pa, n)
    ensures BusRead(AfterStore(b, c, va, n, StoreValue(v, n)), Map(Entries(b), c, va, Store).pa, n) == StoreValue(v, n)
  {
    StoreThenLoad(b, c, va, n, StoreValue(v, n));
    ModUnique(StoreValue(v, n), Range(n), 0, StoreValue(v, n));
  }

  /** What a completed store instruction leaves. */
  lemma StoreLeaves(s: State, d: SType, raw: bv32, alu: Alu)
    requires ExecStore(s, d, raw, Machine(alu)).Done?
    ensures var va, n := ToWord(Add(ReadReg(s, d.rs1), d.imm)), LoadWidth(d.funct3);
            var s' := ExecStore(s, d, raw, Machine(alu)).s;
            && Map(Entries(s.bus), Ctx(s), va, Store).At?
            && s'.bus == AfterStore(s.bus, Ctx(s), va, n, StoreValue(ReadReg(s, d.rs2), n))
            && s'.regs == s.regs && Ctx(s') == Ctx(s)
  {
    var va := Add(ReadReg(s, d.rs1), d.imm);
    assert Machine(alu).mmu(s, va, Store) == WalkFor(s, va, Store);
  }

  lemma LoadByWalk(s: State, d: IType, raw: bv32, alu: Alu)
    requires d.funct3 != 7
    ensures var va := Add(d.imm, ReadReg(s, d.rs1));
            ExecLoad(s, d, raw, Machine(alu)) == LoadFrom(WalkFor(s, va, Load), d, va)
  {
  }

  lemma SameRegisters(s: State, s': State, r: bv5)
    requires s'.regs == s.regs
    ensures ReadReg(s', r) == ReadReg(s, r)
  {
  }

  /** After SB, SH, SW or SD of rs2 completes, the load of the same width from the same address in the same
      mode completes too, changes nothing but rd, and leaves there the low bytes of rs2, extended as the
      load extends them. */
  lemma StoreThenLoadInstruction(s: State, sd: SType, ld: IType, raw: bv32, raw': bv32, alu: Alu)
    requires sd.funct3 < 4 && ld.funct3 != 7 && LoadWidth(ld.funct3) == LoadWidth(sd.funct3)
    requires Add(ld.imm, ReadReg(s, ld.rs1)) == Add(ReadReg(s, sd.rs1), sd.imm)
    requires ExecStore(s, sd, raw, Machine(alu)).Done?
    requires var va, n := ToWord(Add(ReadReg(s, sd.rs1), sd.imm)), LoadWidth(sd.funct3);
             var pa := Map(Entries(s.bus), Ctx(s), va, Store).pa;
             ValidAccess(pa, n) && WalkClear(Entries(s.bus), Ctx(s), va, pa, n)
    ensures var s' := ExecStore(s, sd, raw, Machine(alu)).s;
            ExecLoad(s', ld, raw', Machine(alu))
            == Done(WriteReg(s', ld.rd, LoadedBack(ReadReg(s, sd.rs2), ld.funct3)))
  {
    var va, n, v := Add(ReadReg(s, sd.rs1), sd.imm), LoadWidth(sd.funct3), ReadReg(s, sd.rs2);
    StoreLeaves(s, sd, raw, alu);
    var pa := Map(Entries(s.bus), Ctx(s), ToWord(va), Store).pa;
    var s' := ExecStore(s, sd, raw, Machine(alu)).s;
    StoreThenLoad(s.bus, Ctx(s), ToWord(va), n, StoreValue(v, n));
    StoredValueReads(s.bus, Ctx(s), ToWord(va), n, v);
    SameRegisters(s, s', ld.rs1);
    LoadByWalk(s', ld, raw', alu);
    LoadReads(s', ld, va, pa, StoreValue(v, n));
    ExtendedStored(v, ld.funct3);
  }
}
