/** The M extension by instruction word: what each opcode and function code leaves in rd. */
module MInstructions {
  import opened Words
  import opened Memory
  import opened Decoding
  import opened CpuSpec
  import opened Numbers
  import opened Instructions
  import opened AtomicEffects
  import opened MExtension

  /** The word is an M-extension one: function code 1 in bits 31 to 25, and this code in bits 14 to 12. */
  predicate MWord(raw: bv32, opcode: bv32, funct3: bv3) {
    OpcodeOf(raw) == opcode && raw >> 25 == 1 && (raw >> 12) & 0x7 == funct3 as bv32
  }

  /** `q` is `a` over `b`, rounded toward zero: what is left is smaller than the divisor and signed as `a`. */
  predicate IsQuotient(a: int, b: int, q: int) {
    LeftOver(a, b, a - q * b)
  }

  /** `r` is what is left of `a` after taking away some multiple of `b`. */
  ghost predicate IsRemainder(a: int, b: int, r: int) {
    LeftOver(a, b, r) && exists q :: Multiple(q, b) + r == a
  }

  function Multiple(q: int, b: int): int {
    q * b
  }

  predicate LeftOver(a: int, b: int, r: int) {
    -r < Absolute(b) && r < Absolute(b) && (r < 0 ==> a < 0) && (r > 0 ==> a > 0)
  }

  function Absolute(i: int): nat {
    if i < 0 then -i else i
  }

  /** The low product (code 0), signed quotient and remainder (4 and 6) and unsigned ones (5 and 7) of operands of
      `n` bytes, with the values for division by zero and for the one overflow, -2^(8n-1) over -1. */
  ghost predicate LowResult(funct3: bv3, x: nat, y: nat, z: nat, n: nat) {
    var m: int := Range(n);
    var a, b := SignedBytes(x, n), SignedBytes(y, n);
    && (funct3 == 0 ==> z == x * y % m)
    && (funct3 == 4 ==> if y == 0 then z == m - 1
                        else if x == m / 2 && y == m - 1 then z == m / 2
                        else IsQuotient(a, b, SignedBytes(z, n)))
    && (funct3 == 6 ==> if y == 0 then z == x
                        else if x == m / 2 && y == m - 1 then z == 0
                        else IsRemainder(a, b, SignedBytes(z, n)))
    && (funct3 == 5 ==> z == if y == 0 then m - 1 else x / y)
    && (funct3 == 7 ==> z == if y == 0 then x else x % y)
  }

  /** With the low product, the high ones (codes 1, 2 and 3) make up the signed, the mixed and the unsigned
      product of the operands. */
  predicate HighResult(funct3: bv3, x: nat, y: nat, z: nat) {
    var a, b, low := SignedBytes(x, 8), SignedBytes(y, 8), x * y % TWO_TO_64;
    && (funct3 == 1 ==> SignedBytes(z, 8) * TWO_TO_64 + low == a * b)
    && (funct3 == 2 ==> SignedBytes(z, 8) * TWO_TO_64 + low == a * y)
    && (funct3 == 3 ==> z * TWO_TO_64 + low == x * y)
  }

  // ----- the unit's functions are these

  lemma SameNumber(x: nat)
    ensures SignedBytes(x, 8) == Signed(x, DOUBLE) && SignedBytes(x, 4) == Signed(x, WORD)
  {
    RangeOfSize(8);
    RangeOfSize(4);
  }

  lemma HighProducts(x: Word, y: Word)
    ensures HighResult(1, x, y, Mulh(x, y)) && HighResult(2, x, y, Mulhsu(x, y)) && HighResult(3, x, y, Mulhu(x, y))
  {
    SignedProduct(x, y);
    MixedProduct(x, y);
    UnsignedProduct(x, y);
    SameNumber(x);
    SameNumber(y);
    SameNumber(Mulh(x, y));
    SameNumber(Mulhsu(x, y));
  }

  /** Which modulus goes with a width. */
  function ModulusOf(n: nat): Modulus
    requires n == 4 || n == 8
  {
    if n == 4 then WORD else DOUBLE
  }

  lemma ModulusIsRange(n: nat)
    requires n == 4 || n == 8
    ensures ModulusOf(n) == Range(n)
  {
    RangeOfSize(n);
  }

  lemma OverflowOperands(x: nat, y: nat, m: Modulus)
    requires x < m && y < m
    ensures Overflows(Signed(x, m), Signed(y, m), m) <==> x == m / 2 && y == m - 1
    ensures Signed(y, m) == 0 <==> y == 0
  {
  }

  lemma Divided(x: nat, y: nat, m: Modulus)
    requires x < m && 0 < y < m && !Overflows(Signed(x, m), Signed(y, m), m)
    ensures IsQuotient(Signed(x, m), Signed(y, m), Signed(Div(x, y, m), m))
    ensures IsRemainder(Signed(x, m), Signed(y, m), Signed(Rem(x, y, m), m))
  {
    SignedDivision(x, y, m);
    var a, b, q, r := Signed(x, m), Signed(y, m), Signed(Div(x, y, m), m), Signed(Rem(x, y, m), m);
    assert Multiple(q, b) + r == a;
  }

  lemma SignedQuotient(x: nat, y: nat, n: nat)
    requires n == 4 || n == 8
    requires x < ModulusOf(n) && y < ModulusOf(n)
    ensures LowResult(4, x, y, Div(x, y, ModulusOf(n)), n)
  {
    var m := ModulusOf(n);
    ModulusIsRange(n);
    OverflowOperands(x, y, m);
    if y > 0 && !Overflows(Signed(x, m), Signed(y, m), m) {
      Divided(x, y, m);
    }
  }

  lemma SignedRemainder(x: nat, y: nat, n: nat)
    requires n == 4 || n == 8
    requires x < ModulusOf(n) && y < ModulusOf(n)
    ensures LowResult(6, x, y, Rem(x, y, ModulusOf(n)), n)
  {
    var m := ModulusOf(n);
    ModulusIsRange(n);
    OverflowOperands(x, y, m);
    if y > 0 && !Overflows(Signed(x, m), Signed(y, m), m) {
      Divided(x, y, m);
    }
  }

  lemma LowResults(funct3: bv3, x: nat, y: nat, n: nat)
    requires n == 4 || n == 8
    requires x < ModulusOf(n) && y < ModulusOf(n)
    requires funct3 == 0 || funct3 >= 4
    ensures LowResult(funct3, x, y, Low(funct3, x, y, ModulusOf(n)), n)
  {
    ModulusIsRange(n);
    if funct3 == 4 {
      SignedQuotient(x, y, n);
    } else if funct3 == 6 {
      SignedRemainder(x, y, n);
    }
  }

  /** The function of the unit behind a code that both widths have. */
  function Low(funct3: bv3, x: nat, y: nat, m: Modulus): (w: int)
    requires x < m && y < m
    ensures 0 <= w < m
  {
    if funct3 == 4 then Div(x, y, m)
    else if funct3 == 5 then Divu(x, y, m)
    else if funct3 == 6 then Rem(x, y, m)
    else if funct3 == 7 then Remu(x, y, m)
    else Mul(x, y, m)
  }

  // ----- in the machine

  lemma MFields(raw: bv32, opcode: bv32, funct3: bv3)
    requires MWord(raw, opcode, funct3)
    ensures Funct7(raw) == 1 && Funct3(raw) == funct3 && raw & 0x7F == opcode
  {
    ShowsFunct7(raw);
    ShowsFunct3(raw, funct3);
  }

  lemma ShowsFunct7(raw: bv32)
    requires raw >> 25 == 1
    ensures Funct7(raw) == 1
  {
  }

  lemma ShowsFunct3(raw: bv32, funct3: bv3)
    requires (raw >> 12) & 0x7 == funct3 as bv32
    ensures Funct3(raw) == funct3
  {
  }

  /** Only rd changed, and nothing at all if that is x0. */
  ghost predicate OnlyRd(s: State, s': State, rd: bv5) {
    s' == s.(regs := s'.regs) && OthersKept(s, s', rd) && (rd == 0 ==> s' == s)
  }

  lemma WritesOnlyRd(s: State, rd: bv5, v: bv64)
    ensures OnlyRd(s, WriteReg(s, rd, v), rd)
  {
  }

  lemma AnswerLeaves(s: State, raw: bv32, plain: Alu, mmu: Mmu)
    requires (Selects(raw) || Selects32(raw)) && Answer(s, raw).Some?
    ensures var s' := Executed(s, raw, plain, mmu);
            OnlyRd(s, s', Rd(raw)) && (Rd(raw) != 0 ==> Number(s', Rd(raw)) == Answer(s, raw).value)
  {
    AnsweredByWord(s, raw, plain);
    ExecutesAnswer(s, raw, plain, mmu);
    var v := ToBits(Answer(s, raw).value);
    WritesOnlyRd(s, Rd(raw), v);
    if Rd(raw) != 0 {
      ReadsBack(s, Rd(raw), Answer(s, raw).value);
    }
  }

  lemma Products(funct3: bv3, x: Word, y: Word)
    ensures LowResult(funct3, x, y, MulDiv(funct3, x, y), 8) && HighResult(funct3, x, y, MulDiv(funct3, x, y))
  {
    if funct3 == 0 || funct3 >= 4 {
      LowResults(funct3, x, y, 8);
    } else {
      HighProducts(x, y);
    }
  }

  lemma WordProducts(funct3: bv3, x: Word, y: Word)
    requires funct3 == 0 || funct3 >= 4
    ensures MulDiv32(funct3, x, y).Some?
    ensures var z := MulDiv32(funct3, x, y).value;
            LowResult(funct3, x % WORD, y % WORD, z % WORD, 4) && SignedBytes(z, 8) == SignedBytes(z % WORD, 4)
  {
    LowResults(funct3, x % WORD, y % WORD, 4);
    var w := Low(funct3, x % WORD, y % WORD, WORD);
    WidenKeepsNumber(w);
    SameNumber(Widen(w));
    SameNumber(w);
  }

  lemma Selected(s: State, raw: bv32, funct3: bv3)
    requires MWord(raw, 0x33, funct3)
    ensures Selects(raw) && Answer(s, raw) == Some(MulDiv(funct3, Number(s, Rs1(raw)), Number(s, Rs2(raw))))
  {
    MFields(raw, 0x33, funct3);
  }

  lemma Selected32(s: State, raw: bv32, funct3: bv3)
    requires MWord(raw, 0x3B, funct3)
    ensures Selects32(raw) && Answer(s, raw) == MulDiv32(funct3, Number(s, Rs1(raw)), Number(s, Rs2(raw)))
  {
    MFields(raw, 0x3B, funct3);
  }

  /** A 64-bit multiplication or division, by its code: rd holds the low or high product, quotient or remainder of
      the numbers in rs1 and rs2, and nothing else changes. */
  lemma MulDivByCode(s: State, raw: bv32, funct3: bv3, plain: Alu, mmu: Mmu)
    requires MWord(raw, 0x33, funct3)
    ensures var s', x, y := Executed(s, raw, plain, mmu), Number(s, Rs1(raw)), Number(s, Rs2(raw));
            && OnlyRd(s, s', Rd(raw))
            && (Rd(raw) != 0 ==>
                  var z := Number(s', Rd(raw));
                  LowResult(funct3, x, y, z, 8) && HighResult(funct3, x, y, z))
  {
    Selected(s, raw, funct3);
    AnswerLeaves(s, raw, plain, mmu);
    Products(funct3, Number(s, Rs1(raw)), Number(s, Rs2(raw)));
  }

  /** A word form, by its code: the same of the low halves of rs1 and rs2, with the signed number of the low half
      of rd in the whole of it. */
  lemma MulDivWordByCode(s: State, raw: bv32, funct3: bv3, plain: Alu, mmu: Mmu)
    requires MWord(raw, 0x3B, funct3) && (funct3 == 0 || funct3 >= 4)
    ensures var s', x, y := Executed(s, raw, plain, mmu), Number(s, Rs1(raw)) % WORD, Number(s, Rs2(raw)) % WORD;
            && OnlyRd(s, s', Rd(raw))
            && (Rd(raw) != 0 ==>
                  var z := Number(s', Rd(raw));
                  LowResult(funct3, x, y, z % WORD, 4) && SignedBytes(z, 8) == SignedBytes(z % WORD, 4))
  {
    Selected32(s, raw, funct3);
    WordProducts(funct3, Number(s, Rs1(raw)), Number(s, Rs2(raw)));
    AnswerLeaves(s, raw, plain, mmu);
  }

  /** There are no word forms of the high products. */
  lemma NoHighWordForms(s: State, raw: bv32, funct3: bv3, plain: Alu, mmu: Mmu)
    requires MWord(raw, 0x3B, funct3) && (funct3 == 1 || funct3 == 2 || funct3 == 3)
    ensures Exec(s, Decode(raw), raw, Core(WithM(plain), mmu)) == Raise(s, 2, raw as bv64)
  {
    Selected32(s, raw, funct3);
    AnsweredByWord(s, raw, plain);
    ExecutesAnswer(s, raw, plain, mmu);
  }
}
