/** Comparing words is comparing the numbers they stand for. */
module Comparisons {
  import opened Words
  import opened Memory
  import opened Digits
  import opened CpuSpec
  import opened MExtension

  // ----- unsigned

  predicate Below(x: bv64, y: bv64) {
    x < y
  }

  lemma HalvesApart(x: bv64, y: bv64)
    requires Below(Half(x), Half(y))
    ensures Below(x, y) && !Below(y, x) && x != y
  {
  }

  lemma LowestDecides(x: bv64, y: bv64)
    requires Half(x) == Half(y) && !Odd(x) && Odd(y)
    ensures Below(x, y) && !Below(y, x) && x != y
  {
  }

  lemma SameDigits(x: bv64, y: bv64)
    requires Half(x) == Half(y) && Odd(x) == Odd(y)
    ensures x == y && !Below(x, y)
  {
  }

  lemma HalfFits(x: bv64, ones: bv64)
    requires Common(x, Doubled(ones, 1)) == x
    ensures Common(Half(x), ones) == Half(x)
  {
  }

  /** Words `x` and `y` are ordered as the numbers `m` and `n` are. */
  predicate SameOrder(x: bv64, y: bv64, m: nat, n: nat) {
    (Below(x, y) <==> m < n) && (Below(y, x) <==> n < m) && (x == y <==> m == n)
  }

  lemma DigitKeepsOrder(x: bv64, y: bv64, m: nat, n: nat)
    requires SameOrder(Half(x), Half(y), m, n)
    ensures SameOrder(x, y, (if Odd(x) then 1 else 0) + 2 * m, (if Odd(y) then 1 else 0) + 2 * n)
  {
    if m < n {
      HalvesApart(x, y);
    } else if n < m {
      HalvesApart(y, x);
    } else if Odd(x) == Odd(y) {
      SameDigits(x, y);
      SameDigits(y, x);
    } else if Odd(y) {
      LowestDecides(x, y);
    } else {
      LowestDecides(y, x);
    }
  }

  lemma {:induction false} OrderOfDigits(x: bv64, y: bv64, bits: nat)
    requires Common(x, Ones(bits)) == x && Common(y, Ones(bits)) == y
    ensures SameOrder(x, y, Unsigned(x, bits), Unsigned(y, bits))
    decreases bits
  {
    if bits == 0 {
      AllZero(x);
      AllZero(y);
    } else {
      HalfFits(x, Ones(bits - 1));
      HalfFits(y, Ones(bits - 1));
      OrderOfDigits(Half(x), Half(y), bits - 1);
      DigitKeepsOrder(x, y, Unsigned(Half(x), bits - 1), Unsigned(Half(y), bits - 1));
    }
  }

  lemma AllZero(x: bv64)
    requires Common(x, 0) == x
    ensures x == 0 && !Below(x, x)
  {
  }

  lemma WholeWord(x: bv64)
    ensures Common(x, 0xFFFF_FFFF_FFFF_FFFF) == x
  {
  }

  lemma UnsignedOrder(x: bv64, y: bv64)
    ensures x < y <==> ToWord(x) < ToWord(y)
    ensures x == y <==> ToWord(x) == ToWord(y)
  {
    OnesOf64();
    WholeWord(x);
    WholeWord(y);
    OrderOfDigits(x, y, 64);
  }

  // ----- signed

  lemma {:induction false} NumberOfOnes(k: nat, bits: nat)
    requires k <= bits && k < 64
    ensures Unsigned(Ones(k), bits) == Pow2(k) - 1
    decreases bits
  {
    if k == 0 {
      NumberOfZero(bits);
    } else {
      NumberOfOnes(k - 1, bits - 1);
      OnesNest(k - 1, 63);
      OnesOf63();
      HalvedAgain(Ones(k - 1), 1);
    }
  }

  lemma TopClearNumber()
    ensures ToWord(TOP_CLEAR) == DOUBLE / 2 - 1
  {
    NumberOfOnes(63, 64);
    OnesOf63();
    Pow2Of64();
    assert Pow2(64) == 2 * Pow2(63);
  }

  lemma SignedByTop(x: bv64, y: bv64)
    ensures SignedLess(x, y) <==> if (TOP_CLEAR < x) == (TOP_CLEAR < y) then x < y else TOP_CLEAR < x
  {
  }

  /** The number a register stands for when read as signed. */
  function SignedNumber(x: bv64): int {
    Signed(ToWord(x), DOUBLE)
  }

  lemma SignedOrder(x: bv64, y: bv64)
    ensures SignedLess(x, y) <==> SignedNumber(x) < SignedNumber(y)
  {
    SignedByTop(x, y);
    TopClearNumber();
    UnsignedOrder(TOP_CLEAR, x);
    UnsignedOrder(TOP_CLEAR, y);
    UnsignedOrder(x, y);
  }

  /** The six branches compare the numbers in the two registers, as signed or as unsigned. */
  lemma BranchesCompareNumbers(funct3: bv3, x: bv64, y: bv64)
    requires funct3 != 2 && funct3 != 3
    ensures BranchTaken(funct3, x, y)
            <==> if funct3 == 0 then ToWord(x) == ToWord(y)
                 else if funct3 == 1 then ToWord(x) != ToWord(y)
                 else if funct3 == 4 then SignedNumber(x) < SignedNumber(y)
                 else if funct3 == 5 then SignedNumber(x) >= SignedNumber(y)
                 else if funct3 == 6 then ToWord(x) < ToWord(y)
                 else ToWord(x) >= ToWord(y)
  {
    SignedOrder(x, y);
    UnsignedOrder(x, y);
  }

  // ----- atomics

  lemma {:induction false} WordNumber(k: nat)
    requires k < 64
    ensures ToWord(Ones(k)) == Pow2(k) - 1
  {
    NumberOfOnes(k, 64);
  }

  lemma SignedByTop32(x: bv64, y: bv64)
    requires x <= 0xFFFF_FFFF && y <= 0xFFFF_FFFF
    ensures SignedLess32(x, y) <==> if (0x7FFF_FFFF < x) == (0x7FFF_FFFF < y) then x < y else 0x7FFF_FFFF < x
  {
  }

  lemma OnesOf24()
    ensures Ones(24) == 0xFF_FFFF
  {
    EightMoreOnes(0);
    EightMoreOnes(8);
    EightMoreOnes(16);
  }

  lemma OnesOf31And32()
    ensures Ones(31) == 0x7FFF_FFFF && Ones(32) == 0xFFFF_FFFF
  {
    OnesOf24();
    EightMoreOnes(24);
    TwoMoreOnes(24);
    TwoMoreOnes(26);
    TwoMoreOnes(28);
    assert Ones(31) == Doubled(Ones(30), 1);
  }

  lemma NumbersOf31And32()
    ensures ToWord(0x7FFF_FFFF) == 0x7FFF_FFFF && ToWord(0xFFFF_FFFF) == 0xFFFF_FFFF
  {
    OnesOf31And32();
    WordNumber(31);
    WordNumber(32);
    HalvesOfPow2();
  }

  lemma HalvesOfPow2()
    ensures Pow2(32) == 0x1_0000_0000 && Pow2(31) == 0x8000_0000
  {
    assert Pow2(8) == 0x100;
    Squares(8, 0x100);
    Squares(16, 0x1_0000);
    assert Pow2(32) == 2 * Pow2(31);
  }

  lemma SignedOrder32(x: bv64, y: bv64)
    requires x <= 0xFFFF_FFFF && y <= 0xFFFF_FFFF
    ensures SignedLess32(x, y) <==> Signed(ToWord(x), WORD) < Signed(ToWord(y), WORD)
  {
    NumbersOf31And32();
    SignedByTop32(x, y);
    UnsignedOrder(0x7FFF_FFFF, x);
    UnsignedOrder(0x7FFF_FFFF, y);
    UnsignedOrder(0xFFFF_FFFF, x);
    UnsignedOrder(0xFFFF_FFFF, y);
    UnsignedOrder(x, y);
  }

  /** The number an atomic's operand of `n` bytes stands for when read as signed. */
  function OperandNumber(x: bv64, n: Size): int {
    Signed(ToWord(x), if n == 4 then WORD else DOUBLE)
  }

  lemma OperandOrder(x: bv64, y: bv64, n: Size)
    requires n == 8 || (n == 4 && x <= 0xFFFF_FFFF && y <= 0xFFFF_FFFF)
    ensures OperandLess(x, y, n) <==> OperandNumber(x, n) < OperandNumber(y, n)
  {
    if n == 4 {
      SignedOrder32(x, y);
    } else {
      SignedOrder(x, y);
    }
  }

  lemma MinMaxUnsigned(word: bv64, rhs: bv64, n: Size)
    ensures AmoResult(AMOMINU, word, rhs, n) == Some(if word < rhs then word else rhs)
    ensures AmoResult(AMOMAXU, word, rhs, n) == Some(if rhs < word then word else rhs)
  {
  }

  lemma MinMaxSigned(word: bv64, rhs: bv64, n: Size)
    ensures AmoResult(AMOMIN, word, rhs, n) == Some(if OperandLess(word, rhs, n) then word else rhs)
    ensures AmoResult(AMOMAX, word, rhs, n) == Some(if OperandLess(rhs, word, n) then word else rhs)
  {
  }

  /** In both widths the minimum and maximum atomics choose by the numbers the operands stand for. */
  lemma AtomicsChooseByNumber(word: bv64, rhs: bv64, n: Size)
    requires n == 8 || (n == 4 && word <= 0xFFFF_FFFF && rhs <= 0xFFFF_FFFF)
    ensures AmoResult(AMOMIN, word, rhs, n)
         == Some(if OperandNumber(word, n) < OperandNumber(rhs, n) then word else rhs)
    ensures AmoResult(AMOMAX, word, rhs, n)
         == Some(if OperandNumber(word, n) > OperandNumber(rhs, n) then word else rhs)
    ensures AmoResult(AMOMINU, word, rhs, n) == Some(if ToWord(word) < ToWord(rhs) then word else rhs)
    ensures AmoResult(AMOMAXU, word, rhs, n) == Some(if ToWord(word) > ToWord(rhs) then word else rhs)
  {
    OperandOrder(word, rhs, n);
    OperandOrder(rhs, word, n);
    UnsignedOrder(word, rhs);
    UnsignedOrder(rhs, word);
    MinMaxSigned(word, rhs, n);
    MinMaxUnsigned(word, rhs, n);
  }
}
