/** The numbers that sums, bitwise combinations and sign extensions of words denote. */
module Numbers {
  import opened Words
  import opened Memory
  import opened Digits
  import opened BitFields
  import opened CpuSpec
  import opened Comparisons

  const TWO_TO_64: nat := 0x1_0000_0000_0000_0000

  /** The number that `n` bytes denote in two's complement. */
  function SignedBytes(w: nat, n: nat): int {
    if w < Range(n) / 2 then w else w - Range(n)
  }

  /** Binary digit `k` of a number. */
  predicate Digit(w: nat, k: nat) {
    if k == 0 then w % 2 == 1 else Digit(w / 2, k - 1)
  }

  // ----- sums

  lemma AddOneMore(x: bv64, y: bv64)
    ensures Add(x, Add(y, 1)) == Add(Add(x, y), 1)
  {
    assert Add(x, y + 1) == x + y + 1;
    assert Add(x + y, 1) == x + y + 1;
  }

  lemma EvenNext(x: bv64)
    ensures Add(Doubled(x, 0), 1) == Doubled(x, 1)
  {
  }

  lemma OddNext(x: bv64)
    ensures Add(Doubled(x, 1), 1) == Doubled(Add(x, 1), 0)
  {
  }

  lemma {:induction false} NextDigits(w: nat, bits: nat)
    requires w + 1 < Pow2(bits)
    ensures FromDigits(w + 1, bits) == Add(FromDigits(w, bits), 1)
  {
    DigitsUnfold(w, bits);
    DigitsUnfold(w + 1, bits);
    if w % 2 == 0 {
      assert (w + 1) / 2 == w / 2;
      EvenNext(FromDigits(w / 2, bits - 1));
    } else {
      assert (w + 1) / 2 == w / 2 + 1;
      NextDigits(w / 2, bits - 1);
      OddNext(FromDigits(w / 2, bits - 1));
    }
  }

  lemma LastNext()
    ensures Add(0xFFFF_FFFF_FFFF_FFFF, 1) == 0
  {
  }

  lemma {:induction false} DigitsOfLast(bits: nat)
    ensures FromDigits(Pow2(bits) - 1, bits) == Ones(bits)
  {
    if bits > 0 {
      var w := Pow2(bits) - 1;
      assert w / 2 == Pow2(bits - 1) - 1 && w % 2 == 1;
      DigitsOfLast(bits - 1);
      DigitsUnfold(w, bits);
    }
  }

  lemma LastWord()
    ensures ToBits(TWO_TO_64 - 1) == 0xFFFF_FFFF_FFFF_FFFF
  {
    var bits := 64;
    DigitsOfLast(bits);
    Pow2Of64();
    OnesOf64();
  }

  /** The next word denotes the next number, and after the last one comes 0. */
  lemma NextWord(w: Word, w': Word)
    requires w' == if w + 1 < TWO_TO_64 then w + 1 else 0
    ensures ToBits(w') == Add(ToBits(w), 1)
  {
    if w + 1 < TWO_TO_64 {
      NextBelow(w);
    } else {
      BackToZero();
    }
  }

  lemma NextBelow(w: Word)
    requires w + 1 < TWO_TO_64
    ensures ToBits(w + 1) == Add(ToBits(w), 1)
  {
    var bits := 64;
    Pow2Of64();
    NextDigits(w, bits);
  }

  lemma BackToZero()
    ensures ToBits(0) == Add(ToBits(TWO_TO_64 - 1), 1)
  {
    LastWord();
    LastNext();
    ZeroInBits();
  }

  lemma AddZero(x: bv64)
    ensures Add(x, 0) == x
  {
  }

  lemma NextResidue(n: nat)
    ensures (n % TWO_TO_64 + 1) % TWO_TO_64 == (n + 1) % TWO_TO_64
    ensures n + 1 < TWO_TO_64 ==> (n + 1) % TWO_TO_64 == n + 1
  {
  }

  /** An operation that goes on with the second operand as with the result adds the numbers. */
  lemma {:induction false} CountsOn<T(!new)>(a: Word, b: Word, add: (T, T) -> T, one: T, bits: Word -> T)
    requires forall x {:trigger add(x, bits(0))} :: add(x, bits(0)) == x
    requires forall x, y {:trigger add(add(x, y), one)} :: add(x, add(y, one)) == add(add(x, y), one)
    requires forall w: Word {:trigger add(bits(w), one)} :: bits((w + 1) % TWO_TO_64) == add(bits(w), one)
    ensures add(bits(a), bits(b)) == bits((a + b) % TWO_TO_64)
    decreases b
  {
    if b > 0 {
      var b1, c1 := b - 1, (a + b - 1) % TWO_TO_64;
      CountsOn(a, b1, add, one, bits);
      NextResidue(b1);
      NextResidue(a + b1);
      assert bits(b) == add(bits(b1), one);
      assert bits((a + b) % TWO_TO_64) == add(bits(c1), one) == add(add(bits(a), bits(b1)), one);
    }
  }

  lemma SumOfBits(a: Word, b: Word)
    ensures Add(ToBits(a), ToBits(b)) == ToBits((a + b) % TWO_TO_64)
  {
    forall x ensures Add(x, ToBits(0)) == x {
      ZeroInBits();
      AddZero(x);
    }
    forall x, y {:trigger Add(Add(x, y), 1)} ensures Add(x, Add(y, 1)) == Add(Add(x, y), 1) {
      AddOneMore(x, y);
    }
    forall w: Word ensures ToBits((w + 1) % TWO_TO_64) == Add(ToBits(w), 1) {
      NextWord(w, (w + 1) % TWO_TO_64);
    }
    CountsOn(a, b, Add, 1, ToBits);
  }

  /** Adding words is adding numbers modulo 2^64. */
  lemma AddNumber(x: bv64, y: bv64)
    ensures ToWord(Add(x, y)) == (ToWord(x) + ToWord(y)) % TWO_TO_64
  {
    BitsOfWord(x);
    BitsOfWord(y);
    SumOfBits(ToWord(x), ToWord(y));
    WordOfBits((ToWord(x) + ToWord(y)) % TWO_TO_64);
  }

  // ----- words moved up

  lemma UpBy16(x: bv64)
    ensures Up(Up(x, 8), 8) == Up(x, 16)
  {
  }

  lemma UpBy24(x: bv64)
    ensures Up(Up(x, 12), 12) == Up(x, 24)
  {
  }

  lemma UpBy32(x: bv64)
    ensures Up(Up(x, 24), 8) == Up(x, 32)
  {
  }

  lemma MovedBy16And32(x: bv64)
    ensures MovedUp(x, 16) == Up(x, 16) && MovedUp(x, 32) == Up(x, 32)
  {
    MovedTwice(x, 12, 12);
    MovedBy9And12(x);
    MovedBy9And12(Up(x, 12));
    MovedTwice(x, 24, 8);
    MovedBy8(Up(x, 24));
    MovedTwice(x, 8, 8);
    MovedBy8(x);
    MovedBy8(Up(x, 8));
    UpBy16(x);
    UpBy24(x);
    UpBy32(x);
  }

  // ----- bitwise combinations

  lemma OddCommon(x: bv64, y: bv64)
    ensures Odd(Common(x, y)) <==> Odd(x) && Odd(y)
  {
  }

  lemma HalfCommon(x: bv64, y: bv64)
    ensures Half(Common(x, y)) == Common(Half(x), Half(y))
  {
  }

  lemma OddBoth(x: bv64, y: bv64)
    ensures Odd(Both(x, y)) <==> Odd(x) || Odd(y)
  {
  }

  lemma HalfBoth(x: bv64, y: bv64)
    ensures Half(Both(x, y)) == Both(Half(x), Half(y))
  {
  }

  lemma OddDiffering(x: bv64, y: bv64)
    ensures Odd(Differing(x, y)) <==> Odd(x) != Odd(y)
  {
  }

  lemma HalfDiffering(x: bv64, y: bv64)
    ensures Half(Differing(x, y)) == Differing(Half(x), Half(y))
  {
  }

  lemma FirstDigit(x: bv64, bits: nat)
    requires bits > 0
    ensures (Unsigned(x, bits) % 2 == 1) == Odd(x) && Unsigned(x, bits) / 2 == Unsigned(Half(x), bits - 1)
  {
  }

  /** Digit `k` of anything that has a last digit and can be halved. */
  predicate NthDigit<T>(x: T, k: nat, half: T -> T, odd: T -> bool) {
    if k == 0 then odd(x) else NthDigit(half(x), k - 1, half, odd)
  }

  lemma {:induction false} DigitIsBit(x: bv64, bits: nat, k: nat)
    requires k < bits
    ensures Digit(Unsigned(x, bits), k) <==> NthDigit(x, k, Half, Odd)
  {
    FirstDigit(x, bits);
    if k > 0 {
      DigitIsBit(Half(x), bits - 1, k - 1);
    }
  }

  /** An operation that acts on each digit alone acts so on all of them. */
  lemma {:induction false} EachDigit<T(!new)>(x: T, y: T, k: nat, op: (T, T) -> T, digit: (bool, bool) -> bool,
                                              half: T -> T, odd: T -> bool)
    requires forall x, y {:trigger odd(op(x, y))} :: odd(op(x, y)) <==> digit(odd(x), odd(y))
    requires forall x, y {:trigger half(op(x, y))} :: half(op(x, y)) == op(half(x), half(y))
    ensures NthDigit(op(x, y), k, half, odd) <==> digit(NthDigit(x, k, half, odd), NthDigit(y, k, half, odd))
  {
    if k > 0 {
      EachDigit(half(x), half(y), k - 1, op, digit, half, odd);
    }
  }

  lemma CommonDigit(x: bv64, y: bv64, k: nat)
    ensures NthDigit(Common(x, y), k, Half, Odd) <==> NthDigit(x, k, Half, Odd) && NthDigit(y, k, Half, Odd)
  {
    forall x, y ensures Odd(Common(x, y)) <==> Odd(x) && Odd(y) {
      OddCommon(x, y);
    }
    forall x, y {:trigger Half(Common(x, y))} ensures Half(Common(x, y)) == Common(Half(x), Half(y)) {
      HalfCommon(x, y);
    }
    EachDigit(x, y, k, Common, (p, q) => p && q, Half, Odd);
  }

  lemma BothDigit(x: bv64, y: bv64, k: nat)
    ensures NthDigit(Both(x, y), k, Half, Odd) <==> NthDigit(x, k, Half, Odd) || NthDigit(y, k, Half, Odd)
  {
    forall x, y ensures Odd(Both(x, y)) <==> Odd(x) || Odd(y) {
      OddBoth(x, y);
    }
    forall x, y {:trigger Half(Both(x, y))} ensures Half(Both(x, y)) == Both(Half(x), Half(y)) {
      HalfBoth(x, y);
    }
    EachDigit(x, y, k, Both, (p, q) => p || q, Half, Odd);
  }

  lemma DifferingDigit(x: bv64, y: bv64, k: nat)
    ensures NthDigit(Differing(x, y), k, Half, Odd) <==> NthDigit(x, k, Half, Odd) != NthDigit(y, k, Half, Odd)
  {
    forall x, y ensures Odd(Differing(x, y)) <==> Odd(x) != Odd(y) {
      OddDiffering(x, y);
    }
    forall x, y {:trigger Half(Differing(x, y))} ensures Half(Differing(x, y)) == Differing(Half(x), Half(y)) {
      HalfDiffering(x, y);
    }
    EachDigit(x, y, k, Differing, (p, q) => p != q, Half, Odd);
  }

  /** AND of words combines the digits of the numbers. */
  lemma CommonDigits(x: bv64, y: bv64, k: nat)
    requires k < 64
    ensures Digit(ToWord(Common(x, y)), k) <==> Digit(ToWord(x), k) && Digit(ToWord(y), k)
  {
    var bits, z := 64, Common(x, y);
    CommonDigit(x, y, k);
    DigitIsBit(x, bits, k);
    DigitIsBit(y, bits, k);
    DigitIsBit(z, bits, k);
  }

  /** So does OR. */
  lemma BothDigits(x: bv64, y: bv64, k: nat)
    requires k < 64
    ensures Digit(ToWord(Both(x, y)), k) <==> Digit(ToWord(x), k) || Digit(ToWord(y), k)
  {
    var bits, z := 64, Both(x, y);
    BothDigit(x, y, k);
    DigitIsBit(x, bits, k);
    DigitIsBit(y, bits, k);
    DigitIsBit(z, bits, k);
  }

  /** So does XOR. */
  lemma DifferingDigits(x: bv64, y: bv64, k: nat)
    requires k < 64
    ensures Digit(ToWord(Differing(x, y)), k) <==> Digit(ToWord(x), k) != Digit(ToWord(y), k)
  {
    var bits, z := 64, Differing(x, y);
    DifferingDigit(x, y, k);
    DigitIsBit(x, bits, k);
    DigitIsBit(y, bits, k);
    DigitIsBit(z, bits, k);
  }

  // ----- sign extension

  /** The word with ones from digit `k` on and the digits of `w` below. */
  lemma OnesBefore(w: Word, k: nat, top: bv64)
    requires 0 < k <= 64 && w < Pow2(k) && top == MovedUp(Ones(64 - k), k)
    ensures ToWord(Both(top, ToBits(w))) == w + TWO_TO_64 - Pow2(k)
  {
    var hi := Pow2(64 - k) - 1;
    TopField(hi, k, top);
    OnesField(hi, w, k, top);
  }

  lemma TopField(hi: nat, k: nat, top: bv64)
    requires 0 < k <= 64 && hi == Pow2(64 - k) - 1 && top == MovedUp(Ones(64 - k), k)
    ensures hi < TWO_TO_64 && top == MovedUp(ToBits(hi), k)
  {
    OnesInBits(64 - k);
  }

  lemma OnesField(hi: Word, w: Word, k: nat, top: bv64)
    requires 0 < k <= 64 && w < Pow2(k) && hi == Pow2(64 - k) - 1 && top == MovedUp(ToBits(hi), k)
    ensures ToWord(Both(top, ToBits(w))) == w + TWO_TO_64 - Pow2(k)
  {
    OnesJoined(hi, w, k);
    JoinedFields(hi, w, k);
    WordOfBits(Joined(hi, w, k));
  }

  lemma OnesInBits(k: nat)
    requires k < 64
    ensures Pow2(k) <= TWO_TO_64 && ToBits(Pow2(k) - 1) == Ones(k)
  {
    WordNumber(k);
    BitsOfWord(Ones(k));
  }

  lemma OnesJoined(hi: nat, w: Word, k: nat)
    requires 0 < k <= 64 && w < Pow2(k) && hi == Pow2(64 - k) - 1
    ensures Pow2(k) <= TWO_TO_64 && Joined(hi, w, k) == w + TWO_TO_64 - Pow2(k)
  {
    SplitPower(64 - k, k);
    Pow2Grows(k, 64);
    Pow2Of64();
    OneTimeLess(Pow2(64 - k), Pow2(k));
    assert Joined(hi, w, k) == hi * Pow2(k) + w;
  }

  lemma OneTimeLess(p: nat, q: nat)
    ensures (p - 1) * q == p * q - q
  {
  }

  lemma Tops()
    ensures MovedUp(Ones(56), 8) == 0xFFFF_FFFF_FFFF_FF00
    ensures MovedUp(Ones(48), 16) == 0xFFFF_FFFF_FFFF_0000
    ensures MovedUp(Ones(32), 32) == 0xFFFF_FFFF_0000_0000
  {
    EightMoreOnes(0);
    EightMoreOnes(8);
    EightMoreOnes(16);
    EightMoreOnes(24);
    EightMoreOnes(32);
    EightMoreOnes(40);
    EightMoreOnes(48);
    MovedBy8(Ones(56));
    MovedBy16And32(Ones(48));
    MovedBy16And32(Ones(32));
  }

  lemma SignTest8(x: bv64)
    requires x <= 0xFF
    ensures SignExtend(x, 8) == if 0x7F < x then Both(0xFFFF_FFFF_FFFF_FF00, x) else x
  {
  }

  lemma SignTest16(x: bv64)
    requires x <= 0xFFFF
    ensures SignExtend(x, 16) == if 0x7FFF < x then Both(0xFFFF_FFFF_FFFF_0000, x) else x
  {
  }

  lemma SignTest32(x: bv64)
    requires x <= 0xFFFF_FFFF
    ensures SignExtend(x, 32) == if 0x7FFF_FFFF < x then Both(0xFFFF_FFFF_0000_0000, x) else x
  {
  }

  lemma SmallOnes()
    ensures Ones(7) == 0x7F && Ones(8) == 0xFF && Ones(15) == 0x7FFF && Ones(16) == 0xFFFF
    ensures Ones(31) == 0x7FFF_FFFF && Ones(32) == 0xFFFF_FFFF
  {
    TwoMoreOnes(0);
    TwoMoreOnes(2);
    TwoMoreOnes(4);
    TwoMoreOnes(8);
    TwoMoreOnes(10);
    TwoMoreOnes(12);
    EightMoreOnes(0);
    EightMoreOnes(8);
    OnesOf31And32();
    assert Ones(7) == Doubled(Ones(6), 1);
    assert Ones(15) == Doubled(Ones(14), 1);
  }

  lemma AboveOnes(w: Word, k: nat)
    requires k < 64
    ensures Below(Ones(k), ToBits(w)) <==> w >= Pow2(k)
  {
    WordNumber(k);
    WordOfBits(w);
    BelowByNumber(Ones(k), ToBits(w));
  }

  lemma BelowByNumber(x: bv64, y: bv64)
    ensures Below(x, y) <==> ToWord(x) < ToWord(y)
  {
    UnsignedOrder(x, y);
  }

  /** A word is above the ones below its sign bit exactly if its number is that large. */
  lemma SignByNumber(w: Word, k: nat)
    requires 0 < k < 64
    ensures Below(Ones(k - 1), ToBits(w)) <==> w >= Pow2(k - 1)
    ensures Below(Ones(k), ToBits(w)) <==> w >= Pow2(k)
  {
    AboveOnes(w, k - 1);
    AboveOnes(w, k);
  }

  lemma BytePowers()
    ensures Pow2(7) == 0x80 && Pow2(8) == 0x100 && Pow2(15) == 0x8000 && Pow2(16) == 0x1_0000
    ensures Pow2(31) == 0x8000_0000 && Pow2(32) == 0x1_0000_0000
  {
    HalvesOfPow2();
    var n := 8;
    Squares(n, 0x100);
    assert Pow2(16) == 2 * Pow2(15);
  }

  lemma Extends8(w: Word)
    requires w < 0x100
    ensures ToWord(SignExtend(ToBits(w), 8)) == if w < 0x80 then w else w + 0xFFFF_FFFF_FFFF_FF00
  {
    var k := 8;
    BytePowers();
    SmallOnes();
    Tops();
    SignByNumber(w, k);
    SignTest8(ToBits(w));
    WordOfBits(w);
    OnesBefore(w, k, 0xFFFF_FFFF_FFFF_FF00);
  }

  lemma Extends16(w: Word)
    requires w < 0x1_0000
    ensures ToWord(SignExtend(ToBits(w), 16)) == if w < 0x8000 then w else w + 0xFFFF_FFFF_FFFF_0000
  {
    var k := 16;
    BytePowers();
    SmallOnes();
    Tops();
    SignByNumber(w, k);
    SignTest16(ToBits(w));
    WordOfBits(w);
    OnesBefore(w, k, 0xFFFF_FFFF_FFFF_0000);
  }

  lemma Extends32(w: Word)
    requires w < 0x1_0000_0000
    ensures ToWord(SignExtend(ToBits(w), 32)) == if w < 0x8000_0000 then w else w + 0xFFFF_FFFF_0000_0000
  {
    var k := 32;
    BytePowers();
    SmallOnes();
    Tops();
    SignByNumber(w, k);
    SignTest32(ToBits(w));
    WordOfBits(w);
    OnesBefore(w, k, 0xFFFF_FFFF_0000_0000);
  }

  /** Sign extension keeps the number that the bytes denote. */
  lemma ExtensionKeepsNumber(w: Word, n: Size)
    requires n < 8 && w < Range(n)
    ensures SignedBytes(ToWord(SignExtend(ToBits(w), if n == 1 then 8 else if n == 2 then 16 else 32)), 8)
         == SignedBytes(w, n)
  {
    RangeOfSize(n);
    RangeOfSize(8);
    if n == 1 {
      Extends8(w);
    } else if n == 2 {
      Extends16(w);
    } else {
      Extends32(w);
    }
  }

  // ----- low bytes and alignment

  /** The low digits of a number are those of its residue. */
  lemma {:induction false} LowDigitsKept(w: nat, bits: nat, k: nat)
    requires k < bits
    ensures Digit(w % Pow2(bits), k) == Digit(w, k)
  {
    HalvedResidue(w, Pow2(bits - 1));
    if k > 0 {
      LowDigitsKept(w / 2, bits - 1, k - 1);
    }
  }

  lemma HalvedResidue(w: nat, p: nat)
    requires p > 0
    ensures w % (2 * p) / 2 == w / 2 % p && w % (2 * p) % 2 == w % 2
  {
    var q, r := w / 2 / p, w / 2 % p;
    assert w == 2 * (q * p + r) + w % 2;
    assert w == q * (2 * p) + (2 * r + w % 2) by { assert q * (2 * p) == 2 * (q * p); }
    ModUnique(w, 2 * p, q, 2 * r + w % 2);
  }

  lemma LowBitsByMask(va: bv64)
    ensures va & 3 != 0 <==> Odd(va) || Odd(Half(va))
    ensures va & 7 != 0 <==> Odd(va) || Odd(Half(va)) || Odd(Half(Half(va)))
  {
  }

  /** An address is misaligned exactly if its number is no multiple of the width. */
  lemma MisalignedByNumber(va: bv64, n: Size)
    requires n == 4 || n == 8
    ensures Misaligned(va, n) <==> ToWord(va) % n != 0
  {
    var bits := 64;
    FirstDigit(va, bits);
    FirstDigit(Half(va), bits - 1);
    FirstDigit(Half(Half(va)), bits - 2);
    LowBitsByMask(va);
    ResidueOf4And8(ToWord(va));
  }

  lemma ResidueOf4And8(w: nat)
    ensures w % 4 != 0 <==> w % 2 == 1 || w / 2 % 2 == 1
    ensures w % 8 != 0 <==> w % 2 == 1 || w / 2 % 2 == 1 || w / 2 / 2 % 2 == 1
  {
  }
}
