/** Multiplication and division: the two product halves fit together, and quotient and remainder
    make up the dividend. */
module MExtension {
  import opened Words
  import opened Digits
  import opened Memory
  import opened Decoding
  import opened CpuSpec

  /** How many values an operand has: 2^32 in the word forms and 2^64 otherwise. */
  type Modulus = m: int | m == 0x1_0000_0000 || m == 0x1_0000_0000_0000_0000 witness 0x1_0000_0000

  const WORD: Modulus := 0x1_0000_0000
  const DOUBLE: Modulus := 0x1_0000_0000_0000_0000

  /** The number an operand stands for in two's complement. */
  function Signed(x: nat, m: Modulus): int {
    if x < m / 2 then x else x - m
  }

  /** The operand that stands for a number. */
  function Wrapped(i: int, m: Modulus): (w: int)
    requires 0 <= i + m && i < m
    ensures 0 <= w < m
  {
    if i < 0 then i + m else i
  }

  // ----- the instructions

  function Mul(x: nat, y: nat, m: Modulus): (w: int)
    ensures 0 <= w < m
  {
    x * y % m
  }

  /** Bits 64 and up of a product in 128 bits; the shift rounds down. */
  function HighHalf(product: int): int {
    product / DOUBLE
  }

  function Magnitude(i: int): nat {
    if i < 0 then -i else i
  }

  /** Division as in C: the quotient rounds toward zero. */
  function Quotient(a: int, b: int): int
    requires b != 0
  {
    if (a < 0) == (b < 0) then Magnitude(a) / Magnitude(b) else -(Magnitude(a) / Magnitude(b))
  }

  /** The remainder as in C: it takes the sign of the dividend. */
  function Remainder(a: int, b: int): int
    requires b != 0
  {
    if a < 0 then -(Magnitude(a) % Magnitude(b)) else Magnitude(a) % Magnitude(b)
  }

  predicate Overflows(a: int, b: int, m: Modulus) {
    a == -(m / 2) && b == -1
  }

  lemma QuotientFits(a: int, b: int, m: Modulus)
    requires b != 0 && -(m / 2) <= a < m / 2 && -(m / 2) <= b < m / 2
    ensures -(m / 2) <= Quotient(a, b) <= m / 2 && -(m / 2) < Remainder(a, b) < m / 2
  {
    DivisionBounds(Magnitude(a), Magnitude(b));
  }

  function Div(x: nat, y: nat, m: Modulus): (w: int)
    requires x < m && y < m
    ensures 0 <= w < m
  {
    var a, b := Signed(x, m), Signed(y, m);
    if Overflows(a, b, m) then m / 2
    else if b == 0 then m - 1
    else QuotientFits(a, b, m); Wrapped(Quotient(a, b), m)
  }

  function Divu(x: nat, y: nat, m: Modulus): (w: int)
    requires x < m && y < m
    ensures 0 <= w < m
  {
    if y == 0 then m - 1 else DivisionBounds(x, y); x / y
  }

  function Rem(x: nat, y: nat, m: Modulus): (w: int)
    requires x < m && y < m
    ensures 0 <= w < m
  {
    var a, b := Signed(x, m), Signed(y, m);
    if Overflows(a, b, m) then 0
    else if b == 0 then x
    else QuotientFits(a, b, m); Wrapped(Remainder(a, b), m)
  }

  function Remu(x: nat, y: nat, m: Modulus): (w: int)
    requires x < m && y < m
    ensures 0 <= w < m
  {
    if y == 0 then x else DivisionBounds(x, y); x % y
  }

  // ----- small facts about products and remainders

  lemma DivisionBounds(x: nat, y: nat)
    requires y > 0
    ensures 0 <= x / y <= x && 0 <= x % y <= x
  {
    var q := x / y;
    assert x == q * y + x % y;
    Grows(q, y);
  }

  lemma Grows(q: nat, y: nat)
    requires y > 0
    ensures q * y >= q
  {
  }

  lemma Apart(k: int, m: nat)
    requires k != 0
    ensures k * m >= m || k * m + m <= 0
  {
    if k > 0 {
      Multiples(1, k, m);
    } else {
      Multiples(1, -k, m);
      assert -k * m == -(k * m);
    }
  }

  /** A number that differs from a residue by a multiple of `m` has that residue. */
  lemma ResidueOf(i: int, x: nat, k: int, m: int)
    requires 0 <= x < m && i == x + k * m
    ensures i % m == x && i / m == k
  {
    var q, r := i / m, i % m;
    assert i == q * m + r;
    assert (k - q) * m == r - x by {
      assert (k - q) * m == k * m - q * m;
    }
    if k != q {
      Apart(k - q, m);
    }
  }

  // ----- products

  /** `x` differs from the number it stands for by 0 or one modulus. */
  function Borrow(x: nat, m: Modulus): int {
    if x < m / 2 then 0 else 1
  }

  /** Multiplying what the operands stand for, or the operands themselves, gives the same low part. */
  lemma ProductCongruent(a: int, b: int, ka: int, kb: int, m: Modulus)
    ensures (a + ka * m) * (b + kb * m) == a * b + (a * kb + ka * b + ka * kb * m) * m
  {
    var u, v := ka * m, kb * m;
    assert (a + u) * (b + v) == a * b + a * v + u * b + u * v;
    assert a * v == a * kb * m;
    assert u * b == ka * b * m;
    assert u * v == ka * kb * m * m;
  }

  lemma LowHalf(product: int, low: nat, k: int, m: Modulus)
    requires low == product + k * m
    ensures low % m == product % m
  {
    var q, r := product / m, product % m;
    assert product == q * m + r;
    assert low == r + (q + k) * m;
    ResidueOf(low, r, q + k, m);
  }

  /** The high half and MUL's low half are exactly the product of the operands, read as signed or
      unsigned as the instruction reads them. */
  lemma ProductRebuilt(x: nat, y: nat, a: int, b: int, ka: int, kb: int)
    requires x == a + ka * DOUBLE && y == b + kb * DOUBLE
    ensures HighHalf(a * b) * DOUBLE + Mul(x, y, DOUBLE) == a * b
  {
    ProductCongruent(a, b, ka, kb, DOUBLE);
    LowHalf(a * b, x * y, a * kb + ka * b + ka * kb * DOUBLE, DOUBLE);
  }

  lemma ProductBound(a: int, b: int, p: nat, q: nat)
    requires 0 <= a + p <= 2 * p && 0 <= b + q <= 2 * q
    ensures -(p * q) <= a * b <= p * q
  {
    var u, v := Magnitude(a), Magnitude(b);
    assert u * v <= p * v by { Multiples(u, p, v); }
    assert p * v <= p * q by { Multiples(v, q, p); }
    assert a * b == u * v || a * b == -(u * v);
  }

  lemma HighHalfFits(a: int, b: int)
    requires -0x8000_0000_0000_0000 <= a < 0x8000_0000_0000_0000 && 0 < b + DOUBLE < 2 * DOUBLE
    ensures -0x8000_0000_0000_0000 <= HighHalf(a * b) < 0x8000_0000_0000_0000
  {
    ProductBound(a, b, 0x8000_0000_0000_0000, 0xFFFF_FFFF_FFFF_FFFF);
  }

  lemma UnsignedHighHalfFits(x: Word, y: Word)
    ensures 0 <= HighHalf(x * y) < DOUBLE
  {
    ProductBound(x, y, 0xFFFF_FFFF_FFFF_FFFF, 0xFFFF_FFFF_FFFF_FFFF);
    Multiples(0, x, y);
  }

  function Mulh(x: Word, y: Word): Word {
    HighHalfFits(Signed(x, DOUBLE), Signed(y, DOUBLE));
    Wrapped(HighHalf(Signed(x, DOUBLE) * Signed(y, DOUBLE)), DOUBLE)
  }

  function Mulhsu(x: Word, y: Word): Word {
    HighHalfFits(Signed(x, DOUBLE), y);
    Wrapped(HighHalf(Signed(x, DOUBLE) * y), DOUBLE)
  }

  function Mulhu(x: Word, y: Word): Word {
    UnsignedHighHalfFits(x, y);
    HighHalf(x * y)
  }

  /** Signed by signed: MULH and MUL hold the 128-bit product. */
  lemma SignedProduct(x: Word, y: Word)
    ensures Signed(Mulh(x, y), DOUBLE) * DOUBLE + Mul(x, y, DOUBLE) == Signed(x, DOUBLE) * Signed(y, DOUBLE)
  {
    HighHalfFits(Signed(x, DOUBLE), Signed(y, DOUBLE));
    ProductRebuilt(x, y, Signed(x, DOUBLE), Signed(y, DOUBLE), Borrow(x, DOUBLE), Borrow(y, DOUBLE));
  }

  /** Signed by unsigned: MULHSU and MUL hold the 128-bit product. */
  lemma MixedProduct(x: Word, y: Word)
    ensures Signed(Mulhsu(x, y), DOUBLE) * DOUBLE + Mul(x, y, DOUBLE) == Signed(x, DOUBLE) * y
  {
    HighHalfFits(Signed(x, DOUBLE), y);
    ProductRebuilt(x, y, Signed(x, DOUBLE), y, Borrow(x, DOUBLE), 0);
  }

  /** Unsigned by unsigned: MULHU and MUL hold the 128-bit product. */
  lemma UnsignedProduct(x: Word, y: Word)
    ensures Mulhu(x, y) * DOUBLE + Mul(x, y, DOUBLE) == x * y
  {
    ProductRebuilt(x, y, x, y, 0, 0);
  }

  // ----- quotient and remainder

  lemma DivisionIdentity(a: int, b: int)
    requires b != 0
    ensures Quotient(a, b) * b + Remainder(a, b) == a
    ensures Magnitude(Remainder(a, b)) < Magnitude(b)
    ensures Remainder(a, b) != 0 ==> (Remainder(a, b) < 0 <==> a < 0)
  {
    var u, v := Magnitude(a), Magnitude(b);
    var q, r := u / v, u % v;
    assert u == q * v + r;
    if (a < 0) == (b < 0) {
      assert q * b == if b < 0 then -(q * v) else q * v;
    } else {
      assert -q * b == if b < 0 then q * v else -(q * v);
    }
  }

  /** What the operands stand for, whenever C defines the division: rounding toward zero, a remainder smaller
      than the divisor with the sign of the dividend, and nothing lost. */
  lemma SignedDivision(x: nat, y: nat, m: Modulus)
    requires x < m && 0 < y < m && !Overflows(Signed(x, m), Signed(y, m), m)
    ensures var a, b, q, r := Signed(x, m), Signed(y, m), Signed(Div(x, y, m), m), Signed(Rem(x, y, m), m);
            && q * b + r == a
            && Magnitude(r) < Magnitude(b)
            && (r != 0 ==> (r < 0 <==> a < 0))
  {
    var a, b := Signed(x, m), Signed(y, m);
    QuotientFits(a, b, m);
    DivisionIdentity(a, b);
    OnlyOverflowReachesTop(a, b, m);
  }

  lemma OnlyOverflowReachesTop(a: int, b: int, m: Modulus)
    requires b != 0 && -(m / 2) <= a < m / 2 && -(m / 2) <= b < m / 2 && !Overflows(a, b, m)
    ensures Quotient(a, b) < m / 2
  {
    var u, v := Magnitude(a), Magnitude(b);
    DivisionBounds(u, v);
    if u / v >= m / 2 {
      assert u == m / 2;
      if v > 1 {
        Multiples(2, v, u / v);
      }
    }
  }

  /** Quotient times divisor plus remainder is the dividend modulo 2^64 (2^32 in the word forms) for every
      pair of operands, division by zero and overflow included. */
  lemma DivisionRebuilds(x: nat, y: nat, m: Modulus)
    requires x < m && y < m
    ensures (Div(x, y, m) * y + Rem(x, y, m)) % m == x
    ensures (Divu(x, y, m) * y + Remu(x, y, m)) % m == x
  {
    SignedRebuilds(x, y, m);
    UnsignedRebuilds(x, y, m);
  }

  /** An identity of the numbers the operands stand for holds of the operands modulo `m`. */
  lemma RebuildsModulo(d: nat, y: nat, r: nat, x: nat, m: Modulus)
    requires x < m && Signed(d, m) * Signed(y, m) + Signed(r, m) == Signed(x, m)
    ensures (d * y + r) % m == x
  {
    var q, b := Signed(d, m), Signed(y, m);
    var kd, ky, kr, kx := Borrow(d, m), Borrow(y, m), Borrow(r, m), Borrow(x, m);
    ProductCongruent(q, b, kd, ky, m);
    var k := q * ky + kd * b + kd * ky * m;
    assert d * y == q * b + k * m;
    Collected(k, kr, kx, m);
    ResidueOf(d * y + r, x, k + kr - kx, m);
  }

  lemma Collected(k: int, kr: int, kx: int, m: int)
    ensures (k + kr - kx) * m == k * m + kr * m - kx * m
  {
  }

  lemma SignedRebuilds(x: nat, y: nat, m: Modulus)
    requires x < m && y < m
    ensures (Div(x, y, m) * y + Rem(x, y, m)) % m == x
  {
    if y == 0 {
      ResidueOf(x, x, 0, m);
    } else if Overflows(Signed(x, m), Signed(y, m), m) {
      OverflowRebuilds(m);
    } else {
      SignedDivision(x, y, m);
      RebuildsModulo(Div(x, y, m), y, Rem(x, y, m), x, m);
    }
  }

  lemma OverflowRebuilds(m: Modulus)
    ensures m / 2 * (m - 1) % m == m / 2
  {
    ResidueOf(m / 2 * (m - 1), m / 2, m / 2 - 1, m);
  }

  lemma UnsignedRebuilds(x: nat, y: nat, m: Modulus)
    requires x < m && y < m
    ensures (Divu(x, y, m) * y + Remu(x, y, m)) % m == x
  {
    if y == 0 {
      assert Divu(x, y, m) * y == 0;
    } else {
      UnsignedDivision(x, y, m);
    }
    ResidueOf(x, x, 0, m);
  }

  /** Unsigned division is exact. */
  lemma UnsignedDivision(x: nat, y: nat, m: Modulus)
    requires x < m && 0 < y < m
    ensures Divu(x, y, m) * y + Remu(x, y, m) == x && Remu(x, y, m) < y
  {
  }

  // ----- the unit in the machine

  /** The register that a word result is widened into. */
  function Widen(w: nat): Word
    requires w < WORD
  {
    if w < WORD / 2 then w else w + (DOUBLE - WORD)
  }

  /** A widened result stands for the same number. */
  lemma WidenKeepsNumber(w: nat)
    requires w < WORD
    ensures Signed(Widen(w), DOUBLE) == Signed(w, WORD) && Widen(w) % WORD == w
  {
    if w >= WORD / 2 {
      ResidueOf(Widen(w), w, 0xFFFF_FFFF, WORD);
    }
  }

  function MulDiv(funct3: bv3, x: Word, y: Word): Word {
    if funct3 == 0 then Mul(x, y, DOUBLE)
    else if funct3 == 1 then Mulh(x, y)
    else if funct3 == 2 then Mulhsu(x, y)
    else if funct3 == 3 then Mulhu(x, y)
    else if funct3 == 4 then Div(x, y, DOUBLE)
    else if funct3 == 5 then Divu(x, y, DOUBLE)
    else if funct3 == 6 then Rem(x, y, DOUBLE)
    else Remu(x, y, DOUBLE)
  }

  /** The word forms work on the low halves of the registers; there are no word forms of the high products. */
  function MulDiv32(funct3: bv3, x: Word, y: Word): Option<Word> {
    var a, b := x % WORD, y % WORD;
    if funct3 == 0 then Some(Widen(Mul(a, b, WORD)))
    else if funct3 == 4 then Some(Widen(Div(a, b, WORD)))
    else if funct3 == 5 then Some(Widen(Divu(a, b, WORD)))
    else if funct3 == 6 then Some(Widen(Rem(a, b, WORD)))
    else if funct3 == 7 then Some(Widen(Remu(a, b, WORD)))
    else None
  }

  /** The word forms make up the low half of the dividend modulo 2^32, signed and unsigned. */
  lemma WordDivisionRebuilds(x: Word, y: Word)
    ensures RebuildsWord(MulDiv32(4, x, y).value, y, MulDiv32(6, x, y).value, x)
    ensures RebuildsWord(MulDiv32(5, x, y).value, y, MulDiv32(7, x, y).value, x)
  {
    var a, b := x % WORD, y % WORD;
    WidenKeepsNumber(Div(a, b, WORD));
    WidenKeepsNumber(Rem(a, b, WORD));
    WidenKeepsNumber(Divu(a, b, WORD));
    WidenKeepsNumber(Remu(a, b, WORD));
    DivisionRebuilds(a, b, WORD);
  }

  predicate RebuildsWord(q: Word, y: Word, r: Word, x: Word) {
    (q % WORD * (y % WORD) + r % WORD) % WORD == x % WORD
  }

  /** Function code 1 selects this unit; everything else is left to the plain operations. */
  function Compute(plain: Alu, raw: bv32, x: bv64, y: bv64, pc: bv64): AluResult {
    var opcode := raw & 0x7F;
    if opcode == OP && Funct7(raw) == 1 then Value(ToBits(MulDiv(Funct3(raw), ToWord(x), ToWord(y))))
    else if opcode == OP_32 && Funct7(raw) == 1 then
      match MulDiv32(Funct3(raw), ToWord(x), ToWord(y))
      case None => Illegal
      case Some(w) => Value(ToBits(w))
    else plain(raw, x, y, pc)
  }

  /** The integer unit with multiplication and division. */
  function WithM(plain: Alu): Alu {
    (raw, x, y, pc) => Compute(plain, raw, x, y, pc)
  }

  /** The hart after one instruction word. */
  ghost function Executed(s: State, raw: bv32, plain: Alu, mmu: Mmu): State {
    Dispatch(s, raw, Core(WithM(plain), mmu))
  }

  function Number(s: State, r: bv5): Word {
    ToWord(ReadReg(s, r))
  }

  /** The instruction word is a 64-bit one of this unit. */
  predicate Selects(raw: bv32) {
    raw & 0x7F == OP && Funct7(raw) == 1
  }

  /** The instruction word is a word form of this unit. */
  predicate Selects32(raw: bv32) {
    raw & 0x7F == OP_32 && Funct7(raw) == 1
  }

  /** What the unit makes of the numbers in the operand registers; None for a word form that does not exist. */
  function Answer(s: State, raw: bv32): Option<Word>
    requires Selects(raw) || Selects32(raw)
  {
    var x, y := Number(s, Rs1(raw)), Number(s, Rs2(raw));
    if raw & 0x7F == OP then Some(MulDiv(Funct3(raw), x, y)) else MulDiv32(Funct3(raw), x, y)
  }

  lemma ComputesValue(plain: Alu, raw: bv32, x: bv64, y: bv64, pc: bv64)
    requires Selects(raw)
    ensures WithM(plain)(raw, x, y, pc) == Value(ToBits(MulDiv(Funct3(raw), ToWord(x), ToWord(y))))
  {
  }

  lemma ComputesValue32(plain: Alu, raw: bv32, x: bv64, y: bv64, pc: bv64)
    requires Selects32(raw)
    ensures WithM(plain)(raw, x, y, pc)
         == match MulDiv32(Funct3(raw), ToWord(x), ToWord(y))
            case None => Illegal
            case Some(w) => Value(ToBits(w))
  {
  }

  lemma ExecutesAnswer(s: State, raw: bv32, plain: Alu, mmu: Mmu)
    requires UsesAlu(raw & 0x7F)
    ensures Exec(s, Decode(raw), raw, Core(WithM(plain), mmu))
         == match WithM(plain)(raw, ReadReg(s, Rs1(raw)), ReadReg(s, Rs2(raw)), s.pc)
            case Illegal => IllegalInstruction(s, raw)
            case NoResult => Done(s)
            case Value(v) => Done(WriteReg(s, Rd(raw), v))
  {
    assert Decode(raw) == AluOp(DecodeR(raw));
  }

  lemma ReadsBack(s: State, rd: bv5, w: Word)
    requires rd != 0
    ensures var s' := WriteReg(s, rd, ToBits(w)); Number(s', rd) == w && s' == WriteReg(s, rd, ReadReg(s', rd))
  {
    WordOfBits(w);
  }

  /** `s'` is `s` with the number in rd and nothing else changed. */
  predicate Computed(s: State, s': State, rd: bv5, w: Word) {
    s' == WriteReg(s, rd, ReadReg(s', rd)) && Number(s', rd) == w
  }

  lemma AnsweredByWord(s: State, raw: bv32, plain: Alu)
    requires Selects(raw) || Selects32(raw)
    ensures WithM(plain)(raw, ReadReg(s, Rs1(raw)), ReadReg(s, Rs2(raw)), s.pc)
         == match Answer(s, raw)
            case None => Illegal
            case Some(w) => Value(ToBits(w))
  {
    if Selects(raw) {
      ComputesValue(plain, raw, ReadReg(s, Rs1(raw)), ReadReg(s, Rs2(raw)), s.pc);
    } else {
      ComputesValue32(plain, raw, ReadReg(s, Rs1(raw)), ReadReg(s, Rs2(raw)), s.pc);
    }
  }

  /** An instruction word of this unit, of either width, leaves in rd exactly the number the unit computes from
      the numbers in its operand registers, and changes nothing else; a word form that does not exist traps. */
  lemma MulDivInstruction(s: State, raw: bv32, plain: Alu, mmu: Mmu)
    requires (Selects(raw) || Selects32(raw)) && Rd(raw) != 0
    ensures match Answer(s, raw)
            case None => Exec(s, Decode(raw), raw, Core(WithM(plain), mmu)) == IllegalInstruction(s, raw)
            case Some(w) => Computed(s, Executed(s, raw, plain, mmu), Rd(raw), w)
  {
    AnsweredByWord(s, raw, plain);
    ExecutesAnswer(s, raw, plain, mmu);
    match Answer(s, raw)
    case None =>
    case Some(w) => ReadsBack(s, Rd(raw), w);
  }

  lemma OtherRegister(s: State, rd: bv5, r: bv5, v: bv64)
    requires r != rd
    ensures ReadReg(WriteReg(s, rd, v), r) == ReadReg(s, r)
  {
  }

  lemma OtherOperandKept(s: State, s': State, rd: bv5, w: Word, r: bv5)
    requires Computed(s, s', rd, w) && r != rd
    ensures Number(s', r) == Number(s, r)
  {
    OtherRegister(s, rd, r, ReadReg(s', rd));
  }

  /** Quotient, divisor and remainder make up the dividend: modulo 2^64, or in the low halves modulo 2^32. */
  predicate MakeUp(q: Word, y: Word, r: Word, x: Word, wide: bool) {
    if wide then (q * y + r) % DOUBLE == x else RebuildsWord(q, y, r, x)
  }

  /** A quotient code of this unit and the remainder code that goes with it: signed or unsigned. */
  predicate Paired(div: bv32, rem: bv32) {
    && ((Selects(div) && Selects(rem)) || (Selects32(div) && Selects32(rem)))
    && ((Funct3(div) == 4 && Funct3(rem) == 6) || (Funct3(div) == 5 && Funct3(rem) == 7))
    && Rs1(rem) == Rs1(div) && Rs2(rem) == Rs2(div)
  }

  lemma DivAndRem(x: Word, y: Word)
    ensures MakeUp(MulDiv(4, x, y), y, MulDiv(6, x, y), x, true)
    ensures MakeUp(MulDiv(5, x, y), y, MulDiv(7, x, y), x, true)
    ensures MakeUp(MulDiv32(4, x, y).value, y, MulDiv32(6, x, y).value, x, false)
    ensures MakeUp(MulDiv32(5, x, y).value, y, MulDiv32(7, x, y).value, x, false)
  {
    DivisionRebuilds(x, y, DOUBLE);
    WordDivisionRebuilds(x, y);
  }

  lemma PairedAnswers(s: State, s1: State, div: bv32, rem: bv32)
    requires Paired(div, rem)
    requires Number(s1, Rs1(div)) == Number(s, Rs1(div)) && Number(s1, Rs2(div)) == Number(s, Rs2(div))
    ensures Answer(s, div).Some? && Answer(s1, rem).Some?
    ensures MakeUp(Answer(s, div).value, Number(s, Rs2(div)), Answer(s1, rem).value, Number(s, Rs1(div)), Selects(div))
  {
    DivAndRem(Number(s, Rs1(div)), Number(s, Rs2(div)));
  }

  /** DIV then REM of the same registers, or an unsigned or word form of the two, executed one after the other:
      quotient times divisor plus remainder is the dividend modulo the width, whatever the operands. */
  lemma DivThenRem(s: State, div: bv32, rem: bv32, plain: Alu, mmu: Mmu)
    requires Paired(div, rem) && Rd(div) != 0 && Rd(rem) != 0
    requires Rd(div) != Rs1(div) && Rd(div) != Rs2(div) && Rd(div) != Rd(rem)
    ensures var s2 := Executed(Executed(s, div, plain, mmu), rem, plain, mmu);
            MakeUp(Number(s2, Rd(div)), Number(s, Rs2(div)), Number(s2, Rd(rem)), Number(s, Rs1(div)), Selects(div))
  {
    var s1 := Executed(s, div, plain, mmu);
    MulDivInstruction(s, div, plain, mmu);
    var q := Answer(s, div).value;
    OtherOperandKept(s, s1, Rd(div), q, Rs1(div));
    OtherOperandKept(s, s1, Rd(div), q, Rs2(div));
    PairedAnswers(s, s1, div, rem);
    MulDivInstruction(s1, rem, plain, mmu);
    OtherOperandKept(s1, Executed(s1, rem, plain, mmu), Rd(rem), Answer(s1, rem).value, Rd(div));
  }
}
