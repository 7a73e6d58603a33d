/** Words put together from fields with shifts and OR, and the numbers they denote. */
module BitFields {
  import opened Words
  import opened Digits

  /** A physical address from three page numbers and an offset. */
  function AddressBits(p2: bv64, p1: bv64, p0: bv64, offset: bv64): bv64 {
    (p2 << 30) | (p1 << 21) | (p0 << 12) | offset
  }

  /** A page number from its three parts. */
  function NumberBits(p2: bv64, p1: bv64, p0: bv64): bv64 {
    (p2 << 18) | (p1 << 9) | p0
  }

  /** The table at a page number. */
  function TableBits(ppn: bv64): bv64 {
    ppn << 12
  }

  function Up(x: bv64, places: bv64): bv64
    requires places < 64
  {
    x << places
  }

  // ----- constant shifts

  lemma {:induction false} MovedTwice(x: bv64, a: nat, b: nat)
    ensures MovedUp(x, a + b) == MovedUp(MovedUp(x, a), b)
  {
    if b > 0 {
      MovedTwice(x, a, b - 1);
    }
  }

  lemma ThriceDoubled(x: bv64)
    ensures Doubled(Doubled(Doubled(x, 0), 0), 0) == Up(x, 3)
  {
  }

  lemma MovedBy3(x: bv64)
    ensures MovedUp(x, 3) == Up(x, 3)
  {
    ThriceDoubled(x);
    assert MovedUp(x, 1) == Doubled(x, 0);
    assert MovedUp(x, 2) == Doubled(MovedUp(x, 1), 0);
    assert MovedUp(x, 3) == Doubled(MovedUp(x, 2), 0);
  }

  lemma UpBy6(x: bv64)
    ensures Up(Up(x, 3), 3) == Up(x, 6)
  {
  }

  lemma UpBy9(x: bv64)
    ensures Up(Up(x, 6), 3) == Up(x, 9)
  {
  }

  lemma UpBy12(x: bv64)
    ensures Up(Up(x, 9), 3) == Up(x, 12)
  {
  }

  lemma MovedBy9And12(x: bv64)
    ensures MovedUp(x, 6) == Up(x, 6) && MovedUp(x, 9) == Up(x, 9) && MovedUp(x, 12) == Up(x, 12)
  {
    MovedBy3(x);
    MovedTwice(x, 3, 3);
    MovedBy3(Up(x, 3));
    MovedTwice(x, 6, 3);
    MovedBy3(Up(x, 6));
    MovedTwice(x, 9, 3);
    MovedBy3(Up(x, 9));
    UpBy6(x);
    UpBy9(x);
    UpBy12(x);
  }

  lemma UpBy8(x: bv64)
    ensures Doubled(Doubled(Up(x, 6), 0), 0) == Up(x, 8)
  {
  }

  lemma MovedBy8(x: bv64)
    ensures MovedUp(x, 8) == Up(x, 8)
  {
    MovedBy9And12(x);
    UpBy8(x);
    assert MovedUp(x, 7) == Doubled(MovedUp(x, 6), 0);
    assert MovedUp(x, 8) == Doubled(MovedUp(x, 7), 0);
  }

  lemma NumberNested(p2: bv64, p1: bv64, p0: bv64)
    ensures NumberBits(p2, p1, p0) == Both(Up(Both(Up(p2, 9), p1), 9), p0)
  {
  }

  lemma AddressNested(p2: bv64, p1: bv64, p0: bv64, offset: bv64)
    ensures AddressBits(p2, p1, p0, offset) == Both(TableBits(NumberBits(p2, p1, p0)), offset)
  {
  }

  lemma TableIsUp(ppn: bv64)
    ensures TableBits(ppn) == Up(ppn, 12)
  {
  }

  // ----- the numbers

  lemma SmallPowers()
    ensures Pow2(9) == 0x200 && Pow2(12) == 0x1000
  {
    assert Pow2(6) == 0x40;
    assert Pow2(9) == 8 * Pow2(6);
    assert Pow2(12) == 8 * Pow2(9);
  }

  lemma SplitPower(a: nat, b: nat)
    requires a + b == 64
    ensures Pow2(a) * Pow2(b) == 0x1_0000_0000_0000_0000
  {
    Pow2Adds(a, b);
    Pow2Of64();
  }

  lemma JoinBy8(hi: Word, lo: Word)
    requires lo < 0x100 && hi < 0x100_0000_0000_0000
    ensures Both(Up(ToBits(hi), 8), ToBits(lo)) == ToBits(0x100 * hi + lo)
  {
    ByteWeight();
    SplitPower(8, 56);
    MovedBy8(ToBits(hi));
    JoinedFields(hi, lo, 8);
  }

  lemma ByteWeight()
    ensures Pow2(8) == 0x100
  {
  }

  lemma JoinBy9(hi: Word, lo: Word)
    requires lo < 0x200 && hi < 0x80_0000_0000_0000
    ensures Both(Up(ToBits(hi), 9), ToBits(lo)) == ToBits(0x200 * hi + lo)
  {
    SmallPowers();
    SplitPower(9, 55);
    MovedBy9And12(ToBits(hi));
    JoinedFields(hi, lo, 9);
  }

  lemma JoinBy12(hi: Word, lo: Word)
    requires lo < 0x1000 && hi < 0x10_0000_0000_0000
    ensures Both(Up(ToBits(hi), 12), ToBits(lo)) == ToBits(0x1000 * hi + lo)
  {
    SmallPowers();
    SplitPower(12, 52);
    MovedBy9And12(ToBits(hi));
    JoinedFields(hi, lo, 12);
  }

  /** The parts of a page number, put together with OR, denote their weighted sum. */
  lemma NumberIsSum(n2: Word, n1: Word, n0: Word)
    requires n2 < 0x400_0000 && n1 < 0x200 && n0 < 0x200
    ensures NumberBits(ToBits(n2), ToBits(n1), ToBits(n0)) == ToBits(0x4_0000 * n2 + 0x200 * n1 + n0)
  {
    NumberNested(ToBits(n2), ToBits(n1), ToBits(n0));
    JoinBy9(n2, n1);
    JoinBy9(0x200 * n2 + n1, n0);
  }

  /** The table at a page number of 44 bits is 4096 times it. */
  lemma TableIsProduct(n: Word)
    requires n < 0x1000_0000_0000
    ensures TableBits(ToBits(n)) == ToBits(0x1000 * n)
  {
    TableIsUp(ToBits(n));
    JoinBy12(n, 0);
    NoField(Up(ToBits(n), 12));
    ZeroInBits();
  }

  /** The four fields of a physical address, put together with OR, denote their weighted sum. */
  lemma AddressIsSum(n2: Word, n1: Word, n0: Word, offset: Word)
    requires n2 < 0x400_0000 && n1 < 0x200 && n0 < 0x200 && offset < 0x1000
    ensures ToWord(AddressBits(ToBits(n2), ToBits(n1), ToBits(n0), ToBits(offset)))
         == 0x4000_0000 * n2 + 0x20_0000 * n1 + 0x1000 * n0 + offset
  {
    AddressNested(ToBits(n2), ToBits(n1), ToBits(n0), ToBits(offset));
    NumberIsSum(n2, n1, n0);
    var n := 0x4_0000 * n2 + 0x200 * n1 + n0;
    TableIsUp(ToBits(n));
    JoinBy12(n, offset);
    WordOfBits(0x1000 * n + offset);
  }

  /** A word that is no more than `k` ones denotes a number below 2^k. */
  lemma ShortWord(x: bv64, k: nat)
    requires k <= 64 && Common(x, Ones(k)) == x
    ensures ToWord(x) < Pow2(k)
  {
    var bits := 64;
    DigitsOfUnsigned(x, k);
    ShortDigits(Unsigned(x, k), bits, k);
    Pow2Grows(k, bits);
    UnsignedOfDigits(Unsigned(x, k), bits);
  }

  lemma {:induction false} Pow2Grows(a: nat, b: nat)
    requires a <= b
    ensures Pow2(a) <= Pow2(b)
  {
    if a < b {
      Pow2Grows(a, b - 1);
    }
  }

  lemma FieldBounds(p2: bv64, p1: bv64, offset: bv64)
    requires p2 <= 0x3FF_FFFF && p1 <= 0x1FF && offset <= 0xFFF
    ensures Common(p2, 0x3FF_FFFF) == p2 && Common(p1, 0x1FF) == p1 && Common(offset, 0xFFF) == offset
  {
  }

  lemma OnesOfFields()
    ensures Ones(26) == 0x3FF_FFFF && Ones(9) == 0x1FF && Ones(12) == 0xFFF
  {
    EightMoreOnes(0);
    EightMoreOnes(8);
    EightMoreOnes(16);
    TwoMoreOnes(24);
    TwoMoreOnes(8);
    TwoMoreOnes(10);
    assert Ones(9) == Doubled(Ones(8), 1);
  }

  /** The same, said of the fields as words: no two share a bit, so OR is addition. */
  lemma AddressOfFields(p2: bv64, p1: bv64, p0: bv64, offset: bv64)
    requires p2 <= 0x3FF_FFFF && p1 <= 0x1FF && p0 <= 0x1FF && offset <= 0xFFF
    ensures ToWord(AddressBits(p2, p1, p0, offset))
         == 0x4000_0000 * ToWord(p2) + 0x20_0000 * ToWord(p1) + 0x1000 * ToWord(p0) + ToWord(offset)
  {
    FieldBounds(p2, p1, offset);
    FieldBounds(p2, p0, offset);
    OnesOfFields();
    SmallPowers();
    ShortWord(p2, 26);
    ShortWord(p1, 9);
    ShortWord(p0, 9);
    ShortWord(offset, 12);
    assert Pow2(26) == 0x400_0000 by { Pow2Adds(12, 14); Pow2Adds(12, 2); }
    BitsOfWord(p2);
    BitsOfWord(p1);
    BitsOfWord(p0);
    BitsOfWord(offset);
    AddressIsSum(ToWord(p2), ToWord(p1), ToWord(p0), ToWord(offset));
  }

  // ----- setting a clear bit

  function OrBit(w: Word, bit: bv64): Word {
    ToWord(Both(ToBits(w), bit))
  }

  lemma MovedOne()
    ensures MovedUp(1, 6) == 0x40 && MovedUp(1, 7) == 0x80
  {
    MovedBy9And12(1);
    assert MovedUp(1, 7) == Doubled(MovedUp(1, 6), 0);
  }

  /** Bit 6 or 7, if clear, lies between the higher digits and the lower ones. */
  lemma ClearBit(w: Word, k: nat, p: nat)
    requires k < 64 && p == Pow2(k) && w / p % 2 == 0 && w + p < 0x1_0000_0000_0000_0000
    ensures Both(ToBits(w), MovedUp(1, k)) == ToBits(w + p)
  {
    var h, l, bits := w / p / 2, w % p, 64;
    JoinedParts(w, k, p);
    SetDigit(h, l, k, bits);
  }

  lemma JoinedParts(w: nat, k: nat, p: nat)
    requires p == Pow2(k) && w / p % 2 == 0
    ensures w % p < Pow2(k)
    ensures Joined(w / p / 2, w % p, k + 1) == w && Joined(w / p / 2, Joined(1, w % p, k), k + 1) == w + p
  {
    var q, l := w / p, w % p;
    assert w == q * p + l;
    assert q / 2 * (2 * p) == q * p by {
      assert q == 2 * (q / 2);
      assert q / 2 * (2 * p) == 2 * (q / 2) * p;
    }
  }

  lemma StatusWeights()
    ensures Pow2(6) == 64 && Pow2(7) == 128
  {
  }

  lemma OrSetsBit6(w: Word)
    requires w / 64 % 2 == 0 && w + 64 < 0x1_0000_0000_0000_0000
    ensures OrBit(w, 0x40) == w + 64
  {
    var k, p := 6, 64;
    StatusWeights();
    MovedOne();
    ClearBit(w, k, p);
    WordOfBits(w + 64);
  }

  lemma OrSetsBit7(w: Word)
    requires w / 128 % 2 == 0 && w + 128 < 0x1_0000_0000_0000_0000
    ensures OrBit(w, 0x80) == w + 128
  {
    var k, p := 7, 128;
    StatusWeights();
    MovedOne();
    ClearBit(w, k, p);
    WordOfBits(w + 128);
  }
}
