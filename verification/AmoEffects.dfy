/** What an AMO does to the word in memory, in terms of the numbers in memory and in rs2. */
module AmoEffects {
  import opened Words
  import opened Memory
  import opened BusSpec
  import opened PagingSpec
  import opened Decoding
  import opened CpuSpec
  import opened Digits
  import opened Precise
  import opened CompareAndSwap
  import opened Numbers
  import opened AtomicEffects
  import opened StoreLoad
  import opened Comparisons

  // ----- the nine operations on numbers

  /** The function codes of the AMOs: ADD, SWAP, XOR, OR, AND, MIN, MAX, MINU and MAXU. */
  predicate AmoCode(f: bv5) {
    f == 0x00 || f == 0x01 || f == 0x04 || f == 0x08 || f == 0x0C || f == 0x10 || f == 0x14 || f == 0x18 || f == 0x1C
  }

  /** The first `bits` digits of `w` are `combine` of those of `a` and `b`. */
  predicate DigitByDigit(w: nat, a: nat, b: nat, bits: nat, combine: (bool, bool) -> bool) {
    forall k: nat | k < bits :: Digit(w, k) <==> combine(Digit(a, k), Digit(b, k))
  }

  /** `w` is what the operation makes of `n` bytes that hold `a` and of the operand `b`. */
  predicate Combined(f: bv5, a: nat, b: nat, w: nat, n: Size) {
    && (f == 0x00 ==> w == (a + b) % Range(n))
    && (f == 0x01 ==> w == b)
    && (f == 0x04 ==> DigitByDigit(w, a, b, 8 * n, (p, q) => p != q))
    && (f == 0x08 ==> DigitByDigit(w, a, b, 8 * n, (p, q) => p || q))
    && (f == 0x0C ==> DigitByDigit(w, a, b, 8 * n, (p, q) => p && q))
    && (f == 0x10 ==> w == if SignedBytes(a, n) < SignedBytes(b, n) then a else b)
    && (f == 0x14 ==> w == if SignedBytes(a, n) > SignedBytes(b, n) then a else b)
    && (f == 0x18 ==> w == if a < b then a else b)
    && (f == 0x1C ==> w == if a > b then a else b)
  }

  // ----- the operations of the model are these

  /** A word operand denotes a number of `n` bytes. */
  predicate Fits(x: bv64, n: Size) {
    ToWord(x) < Range(n) && (n == 8 || (n == 4 && x <= 0xFFFF_FFFF))
  }

  lemma SumCombines(x: bv64, y: bv64, n: Size)
    requires Fits(x, n) && Fits(y, n)
    ensures ToWord(AmoSum(x, y, n)) % Range(n) == (ToWord(x) + ToWord(y)) % Range(n)
  {
    RangeOfSize(n);
    if n == 4 {
      WordSum(x, y);
    } else {
      DoubleSum(x, y);
    }
  }

  lemma WordSum(x: bv64, y: bv64)
    requires ToWord(x) < 0x1_0000_0000 && ToWord(y) < 0x1_0000_0000
    ensures ToWord(AmoSum(x, y, 4)) % 0x1_0000_0000 == (ToWord(x) + ToWord(y)) % 0x1_0000_0000
  {
    AddNumber(x, y);
    LowHalfNumber(Add(x, y));
    SumIsCut(x, y);
    CutOnce(ToWord(x) + ToWord(y));
  }

  lemma CutOnce(sum: nat)
    ensures sum % TWO_TO_64 % 0x1_0000_0000 == sum % 0x1_0000_0000
    ensures sum % 0x1_0000_0000 % 0x1_0000_0000 == sum % 0x1_0000_0000
  {
  }

  lemma DoubleSum(x: bv64, y: bv64)
    ensures ToWord(AmoSum(x, y, 8)) % TWO_TO_64 == (ToWord(x) + ToWord(y)) % TWO_TO_64
  {
    AddNumber(x, y);
    SumIsAdd(x, y);
  }

  lemma SumIsAdd(x: bv64, y: bv64)
    ensures AmoSum(x, y, 8) == Add(x, y)
  {
  }

  lemma SumIsCut(x: bv64, y: bv64)
    ensures AmoSum(x, y, 4) == Common(Add(x, y), 0xFFFF_FFFF)
  {
  }

  lemma LowHalfNumber(x: bv64)
    ensures ToWord(Common(x, 0xFFFF_FFFF)) == ToWord(x) % 0x1_0000_0000
  {
    StoredParts(x);
    RangeOfSize(4);
    WordOfBits(StoreValue(x, 4));
  }

  lemma ResidueDigits(w: nat, a: nat, b: nat, n: Size, combine: (bool, bool) -> bool)
    requires DigitByDigit(w, a, b, 64, combine)
    ensures DigitByDigit(w % Range(n), a, b, 8 * n, combine)
  {
    BytesAreBits(n);
    forall k: nat | k < 8 * n
      ensures Digit(w % Range(n), k) <==> combine(Digit(a, k), Digit(b, k))
    {
      LowDigitsKept(w, 8 * n, k);
    }
  }

  lemma XorCombines(x: bv64, y: bv64)
    ensures DigitByDigit(ToWord(Differing(x, y)), ToWord(x), ToWord(y), 64, (p, q) => p != q)
  {
    forall k: nat | k < 64
      ensures Digit(ToWord(Differing(x, y)), k) <==> (Digit(ToWord(x), k) != Digit(ToWord(y), k))
    {
      DifferingDigits(x, y, k);
    }
  }

  lemma OrCombines(x: bv64, y: bv64)
    ensures DigitByDigit(ToWord(Both(x, y)), ToWord(x), ToWord(y), 64, (p, q) => p || q)
  {
    forall k: nat | k < 64
      ensures Digit(ToWord(Both(x, y)), k) <==> (Digit(ToWord(x), k) || Digit(ToWord(y), k))
    {
      BothDigits(x, y, k);
    }
  }

  lemma AndCombines(x: bv64, y: bv64)
    ensures DigitByDigit(ToWord(Common(x, y)), ToWord(x), ToWord(y), 64, (p, q) => p && q)
  {
    forall k: nat | k < 64
      ensures Digit(ToWord(Common(x, y)), k) <==> (Digit(ToWord(x), k) && Digit(ToWord(y), k))
    {
      CommonDigits(x, y, k);
    }
  }

  lemma OperandAsBytes(x: bv64, n: Size)
    requires Fits(x, n)
    ensures OperandNumber(x, n) == SignedBytes(ToWord(x), n)
  {
    RangeOfSize(n);
  }

  lemma OwnResidue(w: nat, m: nat)
    requires w < m
    ensures w % m == w
  {
    ModUnique(w, m, 0, w);
  }

  lemma ChoiceCombines(f: bv5, x: bv64, y: bv64, n: Size)
    requires Fits(x, n) && Fits(y, n) && (f == 0x10 || f == 0x14 || f == 0x18 || f == 0x1C)
    ensures AmoResult(f, x, y, n).Some?
    ensures Combined(f, ToWord(x), ToWord(y), ToWord(AmoResult(f, x, y, n).value) % Range(n), n)
  {
    if f == 0x10 || f == 0x14 {
      SignedChoice(x, y, n);
    } else {
      UnsignedChoice(x, y, n);
    }
  }

  lemma Chosen(r: Option<bv64>, first: bool, x: bv64, y: bv64, n: Size)
    requires Fits(x, n) && Fits(y, n) && r == Some(if first then x else y)
    ensures ToWord(r.value) % Range(n) == if first then ToWord(x) else ToWord(y)
  {
    OwnResidue(ToWord(if first then x else y), Range(n));
  }

  lemma SignedChoice(x: bv64, y: bv64, n: Size)
    requires Fits(x, n) && Fits(y, n)
    ensures var least, most := AmoResult(0x10, x, y, n), AmoResult(0x14, x, y, n);
            && least.Some? && Combined(0x10, ToWord(x), ToWord(y), ToWord(least.value) % Range(n), n)
            && most.Some? && Combined(0x14, ToWord(x), ToWord(y), ToWord(most.value) % Range(n), n)
  {
    SignedChosen(x, y, n);
    OperandAsBytes(x, n);
    OperandAsBytes(y, n);
  }

  lemma SignedChosen(x: bv64, y: bv64, n: Size)
    requires Fits(x, n) && Fits(y, n)
    ensures var least, most := AmoResult(0x10, x, y, n), AmoResult(0x14, x, y, n);
            && least.Some?
            && ToWord(least.value) % Range(n)
            == (if OperandNumber(x, n) < OperandNumber(y, n) then ToWord(x) else ToWord(y))
            && most.Some?
            && ToWord(most.value) % Range(n)
            == (if OperandNumber(x, n) > OperandNumber(y, n) then ToWord(x) else ToWord(y))
  {
    AtomicsChooseByNumber(x, y, n);
    Chosen(AmoResult(0x10, x, y, n), OperandNumber(x, n) < OperandNumber(y, n), x, y, n);
    Chosen(AmoResult(0x14, x, y, n), OperandNumber(x, n) > OperandNumber(y, n), x, y, n);
  }

  lemma UnsignedChoice(x: bv64, y: bv64, n: Size)
    requires Fits(x, n) && Fits(y, n)
    ensures var least, most := AmoResult(0x18, x, y, n), AmoResult(0x1C, x, y, n);
            && least.Some? && Combined(0x18, ToWord(x), ToWord(y), ToWord(least.value) % Range(n), n)
            && most.Some? && Combined(0x1C, ToWord(x), ToWord(y), ToWord(most.value) % Range(n), n)
  {
    UnsignedChosen(x, y, n);
  }

  lemma UnsignedChosen(x: bv64, y: bv64, n: Size)
    requires Fits(x, n) && Fits(y, n)
    ensures var least, most := AmoResult(0x18, x, y, n), AmoResult(0x1C, x, y, n);
            && least.Some?
            && ToWord(least.value) % Range(n) == (if ToWord(x) < ToWord(y) then ToWord(x) else ToWord(y))
            && most.Some?
            && ToWord(most.value) % Range(n) == (if ToWord(x) > ToWord(y) then ToWord(x) else ToWord(y))
  {
    AtomicsChooseByNumber(x, y, n);
    Chosen(AmoResult(0x18, x, y, n), ToWord(x) < ToWord(y), x, y, n);
    Chosen(AmoResult(0x1C, x, y, n), ToWord(x) > ToWord(y), x, y, n);
  }

  lemma BitwiseCombines(f: bv5, x: bv64, y: bv64, n: Size)
    requires Fits(x, n) && Fits(y, n) && (f == 0x04 || f == 0x08 || f == 0x0C)
    ensures AmoResult(f, x, y, n).Some?
    ensures Combined(f, ToWord(x), ToWord(y), ToWord(AmoResult(f, x, y, n).value) % Range(n), n)
  {
    var a, b := ToWord(x), ToWord(y);
    if f == 0x04 {
      XorCombines(x, y);
      ResidueDigits(ToWord(Differing(x, y)), a, b, n, (p, q) => p != q);
    } else if f == 0x08 {
      OrCombines(x, y);
      ResidueDigits(ToWord(Both(x, y)), a, b, n, (p, q) => p || q);
    } else {
      AndCombines(x, y);
      ResidueDigits(ToWord(Common(x, y)), a, b, n, (p, q) => p && q);
    }
  }

  lemma ResultCombines(f: bv5, x: bv64, y: bv64, n: Size)
    requires Fits(x, n) && Fits(y, n) && AmoCode(f)
    ensures AmoResult(f, x, y, n).Some?
    ensures Combined(f, ToWord(x), ToWord(y), ToWord(AmoResult(f, x, y, n).value) % Range(n), n)
  {
    if f == 0x00 {
      SumCombines(x, y, n);
    } else if f == 0x01 {
      OwnResidue(ToWord(y), Range(n));
    } else if f == 0x04 || f == 0x08 || f == 0x0C {
      BitwiseCombines(f, x, y, n);
    } else {
      ChoiceCombines(f, x, y, n);
    }
  }

  // ----- in the machine

  lemma BytesFit(w: Word, n: Size)
    requires (n == 4 || n == 8) && w < Range(n)
    ensures Fits(ToBits(w), n) && ToWord(ToBits(w)) == w
  {
    WordOfBits(w);
    RangeOfSize(n);
    if n == 4 {
      NumbersOf31And32();
      BelowByNumber(0xFFFF_FFFF, ToBits(w));
    }
  }

  /** The operand of an AMO is the low bytes of rs2. */
  lemma OperandIsLowBytes(v: bv64, n: Size)
    requires n == 4 || n == 8
    ensures AmoOperand(v, n) == ToBits(StoreValue(v, n)) && StoreValue(v, n) < Range(n)
  {
    StoredParts(v);
    OperandIsPart(v, n);
  }

  lemma OperandIsPart(v: bv64, n: Size)
    requires n == 4 || n == 8
    ensures AmoOperand(v, n) == if n == 4 then Common(v, 0xFFFF_FFFF) else v
  {
  }

  /** What an AMO leaves of the walk's state: its word in RAM combined, the old one's number in rd, no other byte,
      register or field changed, and the reservation kept or dropped. */
  ghost predicate Operated(walk: Walk, s': State, raw: bv32, funct5: bv5, n: Size, b: nat) {
    && walk.t.At?
    && s' == walk.s.(regs := s'.regs, bus := walk.s.bus.(ram := s'.bus.ram), reservation := s'.reservation)
    && (s'.reservation == walk.s.reservation || s'.reservation == walk.s.reservation.(valid := false))
    && var pa, m, m' := walk.t.pa, walk.s.bus.ram, s'.bus.ram;
    && Combined(funct5, LoadBytes(m, pa, n), b, LoadBytes(m', pa, n), n)
    && HoldsNumber(s', Rd(raw), LoadBytes(m, pa, n), n) && OthersKept(walk.s, s', Rd(raw))
    && forall a: int | !(pa <= a < pa + n) :: ByteAt(m', a) == ByteAt(m, a)
  }

  /** The bytes that the operation stores, read back as a number. */
  lemma StoredCombines(m: Ram, pa: int, n: Size, funct5: bv5, v: bv64)
    requires (n == 4 || n == 8) && AmoCode(funct5)
    ensures LoadBytes(m, pa, n) < Range(n) <= TWO_TO_64
    ensures var result := AmoResult(funct5, ToBits(LoadBytes(m, pa, n)), AmoOperand(v, n), n);
            && result.Some?
            && Combined(funct5, LoadBytes(m, pa, n), ToWord(v) % Range(n),
                        LoadBytes(Overlay(m, pa, n, ToWord(result.value)), pa, n), n)
  {
    RangeOfSize(n);
    var w, b := LoadBytes(m, pa, n), StoreValue(v, n);
    BytesFit(w, n);
    OperandIsLowBytes(v, n);
    BytesFit(b, n);
    ResultCombines(funct5, ToBits(w), ToBits(b), n);
    LoadAfterStore(m, pa, n, ToWord(AmoResult(funct5, ToBits(w), ToBits(b), n).value));
  }

  lemma DoneKeepsRest(s: State, d: AType, pa: int, result: bv64, n: Size)
    requires ValidAccess(pa, n)
    ensures var s' := AmoDone(s, d, pa, result, n);
            && s' == s.(regs := s'.regs, bus := s.bus.(ram := Overlay(s.bus.ram, pa, n, ToWord(result))),
                        reservation := s'.reservation)
            && (s'.reservation == s.reservation || s'.reservation == s.reservation.(valid := false))
  {
  }

  lemma DoneWritesNumber(s: State, d: AType, pa: int, result: bv64, n: Size)
    requires ValidAccess(pa, n) && (n == 4 || n == 8)
    ensures var s' := AmoDone(s, d, pa, result, n);
            HoldsNumber(s', d.rd, LoadBytes(s.bus.ram, pa, n), n) && OthersKept(s, s', d.rd)
  {
    RangeOfSize(n);
    var w := LoadBytes(s.bus.ram, pa, n);
    WritesNumber(s, d.rd, w, n);
    DoneRegisters(s, d, pa, result, n);
    SameRegsHold(WriteReg(s, d.rd, AtomicValue(w, n)), AmoDone(s, d, pa, result, n), s, d.rd, w, n);
  }

  lemma DoneRegisters(s: State, d: AType, pa: int, result: bv64, n: Size)
    ensures AmoDone(s, d, pa, result, n).regs == WriteReg(s, d.rd, AtomicValue(GetValue(s, pa, n), n)).regs
  {
  }

  lemma AmoDoneOperates(walk: Walk, d: AType, raw: bv32, n: Size, v: bv64)
    requires walk.t.At? && ValidAccess(walk.t.pa, n) && (n == 4 || n == 8) && AmoCode(d.funct5) && d.rd == Rd(raw)
    ensures var e := AmoOn(walk.s, d, walk.t.pa, AmoOperand(v, n), n, raw);
            e.Done? && Operated(walk, e.s, raw, d.funct5, n, ToWord(v) % Range(n))
  {
    var pa, m := walk.t.pa, walk.s.bus.ram;
    StoredCombines(m, pa, n, d.funct5, v);
    var result := AmoResult(d.funct5, ToBits(LoadBytes(m, pa, n)), AmoOperand(v, n), n).value;
    DoneOperates(walk, d, raw, n, result, ToWord(v) % Range(n));
    AmoOnDone(walk.s, d, pa, AmoOperand(v, n), n, raw, result);
  }

  lemma DoneOperates(walk: Walk, d: AType, raw: bv32, n: Size, result: bv64, b: nat)
    requires walk.t.At? && ValidAccess(walk.t.pa, n) && (n == 4 || n == 8) && d.rd == Rd(raw)
    requires var pa, m := walk.t.pa, walk.s.bus.ram;
             Combined(d.funct5, LoadBytes(m, pa, n), b, LoadBytes(Overlay(m, pa, n, ToWord(result)), pa, n), n)
    ensures Operated(walk, AmoDone(walk.s, d, walk.t.pa, result, n), raw, d.funct5, n, b)
  {
    DoneKeepsRest(walk.s, d, walk.t.pa, result, n);
    DoneWritesNumber(walk.s, d, walk.t.pa, result, n);
  }

  lemma AmoOnDone(s: State, d: AType, pa: int, rhs: bv64, n: Size, raw: bv32, result: bv64)
    requires ValidAccess(pa, n)
    requires AmoResult(d.funct5, ToBits(BusRead(s.bus, pa, n)), rhs, n) == Some(result)
    ensures AmoOn(s, d, pa, rhs, n, raw) == Done(AmoDone(s, d, pa, result, n))
  {
  }

  lemma AmoIsExecAmo(s: State, raw: bv32, funct5: bv5, n: Size, core: Core)
    requires AtomicWord(raw, funct5, n) && AmoCode(funct5)
    ensures Outcome(s, raw, core) == ExecAmo(s, DecodeA(raw), raw, n, core)
  {
    AtomicFields(raw, funct5, n);
    AtomicExecutes(s, raw, funct5, n, core);
  }

  lemma AmoCases(s: State, d: AType, raw: bv32, n: Size, core: Core)
    requires Lawful(core.mmu) && (n == 4 || n == 8) && AmoCode(d.funct5) && d.rd == Rd(raw)
    ensures var va, e := ReadReg(s, d.rs1), ExecAmo(s, d, raw, n, core);
            var walk := core.mmu(s, va, Store);
            if ToWord(va) % n != 0 then e == Raise(s, 6, va)
            else if walk.t == Fault then e == Raise(s, 15, va)
            else ValidAccess(walk.t.pa, n) ==>
                   e.Done? && Operated(walk, e.s, raw, d.funct5, n, ToWord(ReadReg(s, d.rs2)) % Range(n))
  {
    var va := ReadReg(s, d.rs1);
    var walk := core.mmu(s, va, Store);
    AmoFaults(s, d, raw, n, core);
    if ToWord(va) % n == 0 && walk.t.At? && ValidAccess(walk.t.pa, n) {
      AmoDoneOperates(walk, d, raw, n, ReadReg(s, d.rs2));
    }
  }

  lemma AmoFaults(s: State, d: AType, raw: bv32, n: Size, core: Core)
    requires Lawful(core.mmu) && (n == 4 || n == 8)
    ensures var va := ReadReg(s, d.rs1);
            var walk := core.mmu(s, va, Store);
            ExecAmo(s, d, raw, n, core)
            == if ToWord(va) % n != 0 then Raise(s, 6, va)
               else if walk.t == Fault then Raise(s, 15, va)
               else AmoOn(walk.s, d, walk.t.pa, AmoOperand(ReadReg(s, d.rs2), n), n, raw)
  {
    var va := ReadReg(s, d.rs1);
    MisalignedByNumber(va, n);
    assert Contained(s, core.mmu(s, va, Store));
  }

  /** What an AMO of either width does: a misaligned address and a page fault trap with the address before anything
      is changed, and otherwise the word at the translated address, in RAM, is operated on. */
  lemma AmoExactly(s: State, raw: bv32, funct5: bv5, n: Size, core: Core)
    requires Lawful(core.mmu) && AtomicWord(raw, funct5, n) && AmoCode(funct5)
    ensures var va, e := ReadReg(s, Rs1(raw)), Outcome(s, raw, core);
            var walk := core.mmu(s, va, Store);
            if ToWord(va) % n != 0 then e == Raise(s, 6, va)
            else if walk.t == Fault then e == Raise(s, 15, va)
            else ValidAccess(walk.t.pa, n) ==>
                   e.Done? && Operated(walk, e.s, raw, funct5, n, ToWord(ReadReg(s, Rs2(raw))) % Range(n))
  {
    AtomicFields(raw, funct5, n);
    AmoIsExecAmo(s, raw, funct5, n, core);
    AmoCases(s, DecodeA(raw), raw, n, core);
  }

  /** So for a whole step: memory is as its translations leave it but for the word, which is combined with rs2;
      rd holds the number that was there. */
  lemma AmoStep(s: State, core: Core, raw: bv32, funct5: bv5, n: Size)
    requires Lawful(core.mmu) && StepsWord(s, core, raw) && AtomicWord(raw, funct5, n) && AmoCode(funct5)
    requires var walk := core.mmu(AtFetch(s, core), ReadReg(s, Rs1(raw)), Store);
             ToWord(ReadReg(s, Rs1(raw))) % n == 0 && walk.t.At? && ValidAccess(walk.t.pa, n)
    ensures var walk, s' := core.mmu(AtFetch(s, core), ReadReg(s, Rs1(raw)), Store), Step(s, core);
            var pa, m, m' := walk.t.pa, walk.s.bus.ram, s'.bus.ram;
            && s'.bus == walk.s.bus.(ram := m')
            && Combined(funct5, LoadBytes(m, pa, n), ToWord(ReadReg(s, Rs2(raw))) % Range(n), LoadBytes(m', pa, n), n)
            && HoldsNumber(s', Rd(raw), LoadBytes(m, pa, n), n) && OthersKept(s, s', Rd(raw))
            && forall a: int | !(pa <= a < pa + n) :: ByteAt(m', a) == ByteAt(m, a)
  {
    var s1, e := AtFetch(s, core), Outcome(AtFetch(s, core), raw, core);
    FetchKeepsRegisters(s, core);
    SameRegisters(s, s1, Rs1(raw));
    SameRegisters(s, s1, Rs2(raw));
    AmoExactly(s1, raw, funct5, n, core);
    StepKeepsData(s, core, e);
    var walk := core.mmu(s1, ReadReg(s, Rs1(raw)), Store);
    assert Contained(s1, walk);
    SameRegsHold(e.s, Step(s, core), walk.s, Rd(raw), LoadBytes(walk.s.bus.ram, walk.t.pa, n), n);
    forall r: bv5 ensures ReadReg(walk.s, r) == ReadReg(s, r) {
    }
  }
}
