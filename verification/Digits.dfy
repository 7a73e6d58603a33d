/** Words and the numbers they denote: reading one and writing the other are inverse. */
module Digits {
  import opened Words

  /** `bits` ones. */
  function Ones(bits: nat): bv64 {
    if bits == 0 then 0 else Doubled(Ones(bits - 1), 1)
  }

  lemma {:induction false} DigitsOfUnsigned(x: bv64, bits: nat)
    ensures FromDigits(Unsigned(x, bits), bits) == Common(x, Ones(bits))
  {
    if bits == 0 {
      assert Common(x, 0) == 0;
    } else {
      var low := if Odd(x) then 1 else 0;
      LowDigit(Unsigned(x, bits), low, Unsigned(Half(x), bits - 1));
      DigitsOfUnsigned(Half(x), bits - 1);
      OneMoreDigit(x, Ones(bits - 1));
      LowestBit(x);
    }
  }

  lemma LowDigit(w: nat, low: nat, rest: nat)
    requires low <= 1 && w == low + 2 * rest
    ensures w / 2 == rest && (w % 2 == 1) == (low == 1)
  {
  }

  lemma LowestBit(x: bv64)
    ensures Common(x, 1) == if Odd(x) then 1 else 0
  {
  }

  lemma OneMoreDigit(x: bv64, ones: bv64)
    ensures Doubled(Common(Half(x), ones), Common(x, 1)) == Common(x, Doubled(ones, 1))
  {
    calc {
      Doubled(Common(Half(x), ones), Common(x, 1));
      (((x >> 1) & ones) << 1) | (x & 1);
      x & ((ones << 1) | 1);
      Common(x, Doubled(ones, 1));
    }
  }

  function Append(x: bv64, width: bv64, digits: bv64): bv64
    requires width < 64
  {
    (x << width) | digits
  }

  lemma AppendOnes(x: bv64)
    ensures Doubled(Doubled(x, 1), 1) == Append(x, 2, 0x3)
  {
  }

  lemma AppendThrees(x: bv64)
    ensures Append(Append(x, 2, 0x3), 2, 0x3) == Append(x, 4, 0xF)
  {
  }

  lemma AppendFifteens(x: bv64)
    ensures Append(Append(x, 4, 0xF), 4, 0xF) == Append(x, 8, 0xFF)
  {
  }

  lemma TwoMoreOnes(bits: nat)
    ensures Ones(bits + 2) == Append(Ones(bits), 2, 0x3)
  {
    AppendOnes(Ones(bits));
    assert Ones(bits + 2) == Doubled(Ones(bits + 1), 1);
  }

  lemma EightMoreOnes(bits: nat)
    ensures Ones(bits + 8) == Append(Ones(bits), 8, 0xFF)
  {
    TwoMoreOnes(bits);
    TwoMoreOnes(bits + 2);
    TwoMoreOnes(bits + 4);
    TwoMoreOnes(bits + 6);
    AppendThrees(Ones(bits));
    AppendThrees(Ones(bits + 4));
    AppendFifteens(Ones(bits));
  }

  lemma OnesOf64()
    ensures Ones(64) == 0xFFFF_FFFF_FFFF_FFFF
  {
    EightMoreOnes(0);
    EightMoreOnes(8);
    EightMoreOnes(16);
    EightMoreOnes(24);
    EightMoreOnes(32);
    EightMoreOnes(40);
    EightMoreOnes(48);
    EightMoreOnes(56);
  }

  /** Reading a word as a number and writing the number in binary gives the word back. */
  lemma BitsOfWord(x: bv64)
    ensures ToBits(ToWord(x)) == x
  {
    DigitsOfUnsigned(x, 64);
    OnesOf64();
  }

  // ----- and the other way round

  lemma LastDigitIsBit(w: nat)
    ensures LastDigit(w) <= 1 && (LastDigit(w) == 1 <==> w % 2 == 1)
  {
  }

  lemma CommonDoubled(x: bv64, y: bv64, digit: bv64)
    requires digit <= 1
    ensures Common(Doubled(x, digit), Doubled(y, 1)) == Doubled(Common(x, y), digit)
  {
  }

  lemma {:induction false} OnesNest(a: nat, b: nat)
    requires a <= b
    ensures Common(Ones(a), Ones(b)) == Ones(a)
  {
    if a == 0 {
      assert Common(0, Ones(b)) == 0;
    } else {
      OnesNest(a - 1, b - 1);
      CommonDoubled(Ones(a - 1), Ones(b - 1), 1);
    }
  }

  lemma {:induction false} DigitsAreShort(w: nat, bits: nat)
    ensures Common(FromDigits(w, bits), Ones(bits)) == FromDigits(w, bits)
  {
    if bits == 0 {
      assert Common(0, 0) == 0;
    } else {
      DigitsAreShort(w / 2, bits - 1);
      LastDigitIsBit(w);
      CommonDoubled(FromDigits(w / 2, bits - 1), Ones(bits - 1), LastDigit(w));
    }
  }

  lemma NestedShort(x: bv64, y: bv64, z: bv64)
    requires Common(x, y) == x && Common(y, z) == y
    ensures Common(x, z) == x
  {
  }

  const TOP_CLEAR: bv64 := 0x7FFF_FFFF_FFFF_FFFF

  lemma OnesOf63()
    ensures Ones(63) == TOP_CLEAR
  {
    EightMoreOnes(0);
    EightMoreOnes(8);
    EightMoreOnes(16);
    EightMoreOnes(24);
    EightMoreOnes(32);
    EightMoreOnes(40);
    EightMoreOnes(48);
    TwoMoreOnes(56);
    TwoMoreOnes(58);
    TwoMoreOnes(60);
    assert Ones(63) == Doubled(Ones(62), 1);
  }

  lemma HalvedAgain(x: bv64, digit: bv64)
    requires digit <= 1 && Common(x, TOP_CLEAR) == x
    ensures Half(Doubled(x, digit)) == x && (Odd(Doubled(x, digit)) <==> digit == 1)
  {
  }

  lemma TopIsClear(w: nat, bits: nat)
    requires bits < 64
    ensures Common(FromDigits(w, bits), TOP_CLEAR) == FromDigits(w, bits)
  {
    DigitsAreShort(w, bits);
    OnesNest(bits, 63);
    OnesOf63();
    NestedShort(FromDigits(w, bits), Ones(bits), TOP_CLEAR);
  }

  lemma UnsignedDoubled(x: bv64, w: nat, bits: nat)
    requires 0 < bits && Common(x, TOP_CLEAR) == x
    ensures Unsigned(Doubled(x, LastDigit(w)), bits) == w % 2 + 2 * Unsigned(x, bits - 1)
  {
    LastDigitIsBit(w);
    HalvedAgain(x, LastDigit(w));
  }

  lemma {:induction false} UnsignedOfDigits(w: nat, bits: nat)
    requires bits <= 64 && w < Pow2(bits)
    ensures Unsigned(FromDigits(w, bits), bits) == w
  {
    if bits > 0 {
      UnsignedOfDigits(w / 2, bits - 1);
      TopIsClear(w / 2, bits - 1);
      UnsignedDoubled(FromDigits(w / 2, bits - 1), w, bits);
    }
  }

  /** Writing a number in binary and reading the word gives the number back. */
  lemma WordOfBits(w: Word)
    ensures ToWord(ToBits(w)) == w
  {
    Pow2Of64();
    UnsignedOfDigits(w, 64);
  }

  lemma {:induction false} ShortDigits(w: nat, bits: nat, k: nat)
    requires k <= bits && w < Pow2(k)
    ensures FromDigits(w, bits) == FromDigits(w, k)
  {
    if k > 0 {
      ShortDigits(w / 2, bits - 1, k - 1);
    } else if bits > 0 {
      ShortDigits(0, bits - 1, 0);
      assert Doubled(0, 0) == 0;
    }
  }

  lemma {:induction false} NumberOfZero(bits: nat)
    ensures Unsigned(0, bits) == 0
  {
    if bits > 0 {
      NumberOfZero(bits - 1);
      assert Half(0) == 0 && !Odd(0);
    }
  }

  lemma ZeroInBits()
    ensures ToBits(0) == 0
  {
    NumberOfZero(64);
    BitsOfWord(0);
  }

  // ----- bit fields put together

  /** The word moved up by `k` places. */
  function MovedUp(x: bv64, k: nat): bv64 {
    if k == 0 then x else Doubled(MovedUp(x, k - 1), 0)
  }

  /** The number whose low `k` digits are `lo`. */
  function Joined(hi: nat, lo: nat, k: nat): nat {
    hi * Pow2(k) + lo
  }

  lemma DoubledBoth(x: bv64, y: bv64, digit: bv64)
    ensures Doubled(Both(x, y), digit) == Both(Doubled(x, 0), Doubled(y, digit))
  {
  }

  lemma NoField(x: bv64)
    ensures Both(x, 0) == x
  {
  }

  lemma LastOfJoined(hi: nat, lo: nat, k: nat)
    requires k > 0 && lo < Pow2(k)
    ensures Joined(hi, lo, k) / 2 == Joined(hi, lo / 2, k - 1) && LastDigit(Joined(hi, lo, k)) == LastDigit(lo)
    ensures lo / 2 < Pow2(k - 1)
  {
    var p := hi * Pow2(k - 1);
    assert hi * Pow2(k) == 2 * p;
  }

  lemma DigitsUnfold(w: nat, bits: nat)
    requires bits > 0
    ensures FromDigits(w, bits) == Doubled(FromDigits(w / 2, bits - 1), LastDigit(w))
  {
  }

  /** The digits of a number are those of its high part, moved up, and those of its low part. */
  lemma {:induction false} JoinedDigits(hi: nat, lo: nat, bits: nat, k: nat)
    requires k <= bits && lo < Pow2(k)
    ensures FromDigits(Joined(hi, lo, k), bits) == Both(MovedUp(FromDigits(hi, bits - k), k), FromDigits(lo, k))
  {
    if k == 0 {
      NoField(FromDigits(hi, bits));
    } else {
      LastOfJoined(hi, lo, k);
      JoinedDigits(hi, lo / 2, bits - 1, k - 1);
      DigitsUnfold(Joined(hi, lo, k), bits);
      DigitsUnfold(lo, k);
      DoubledBoth(MovedUp(FromDigits(hi, bits - k), k - 1), FromDigits(lo / 2, k - 1), LastDigit(lo));
    }
  }

  /** A field moved up by `k` places and a field of `k` bits, put together with OR, denote the sum. */
  lemma JoinedFields(hi: Word, lo: Word, k: nat)
    requires k <= 64 && lo < Pow2(k) && hi < Pow2(64 - k) && Joined(hi, lo, k) < 0x1_0000_0000_0000_0000
    ensures Both(MovedUp(ToBits(hi), k), ToBits(lo)) == ToBits(Joined(hi, lo, k))
  {
    var bits := 64;
    JoinedDigits(hi, lo, bits, k);
    ShortDigits(hi, bits, bits - k);
    ShortDigits(lo, bits, k);
  }

  /** The digits of a number of `k` digits with a one put before them. */
  lemma LeadingOne(l: nat, k: nat)
    requires l < Pow2(k)
    ensures FromDigits(Joined(1, l, k), k + 1) == Both(MovedUp(1, k), FromDigits(l, k + 1))
  {
    JoinedDigits(1, l, k + 1, k);
    ShortDigits(l, k + 1, k);
    OneDigit();
  }

  lemma JoinedBelow(l: nat, k: nat)
    requires l < Pow2(k)
    ensures l < Pow2(k + 1) && Joined(1, l, k) < Pow2(k + 1)
  {
  }

  /** Numbers with the same high part and low parts that differ by a field. */
  lemma FieldAdded(h: nat, l: nat, l': nat, k: nat, bits: nat, field: bv64)
    requires k <= bits && l < Pow2(k) && l' < Pow2(k) && FromDigits(l', k) == Both(field, FromDigits(l, k))
    ensures FromDigits(Joined(h, l', k), bits) == Both(FromDigits(Joined(h, l, k), bits), field)
  {
    JoinedDigits(h, l, bits, k);
    JoinedDigits(h, l', bits, k);
    BothRegrouped(MovedUp(FromDigits(h, bits - k), k), FromDigits(l, k), field);
  }

  /** Setting the clear bit between the high part and the low part with OR makes its digit one. */
  lemma SetDigit(h: nat, l: nat, k: nat, bits: nat)
    requires k < bits && l < Pow2(k)
    ensures FromDigits(Joined(h, Joined(1, l, k), k + 1), bits)
         == Both(FromDigits(Joined(h, l, k + 1), bits), MovedUp(1, k))
  {
    JoinedBelow(l, k);
    LeadingOne(l, k);
    FieldAdded(h, l, Joined(1, l, k), k + 1, bits, MovedUp(1, k));
  }

  lemma OneDigit()
    ensures FromDigits(1, 1) == 1
  {
    assert Doubled(0, 1) == 1;
  }

  lemma BothRegrouped(x: bv64, y: bv64, z: bv64)
    ensures Both(Both(x, y), z) == Both(x, Both(z, y))
  {
  }
}
