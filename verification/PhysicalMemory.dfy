/** RAM as the program holds it: one byte array, read and written a byte at a time. */
module PhysicalMemory {
  import opened Words
  import opened Digits
  import opened BitFields
  import opened Memory

  lemma ShiftedBy(w: nat, k: nat, d: nat)
    requires d > 0 && Shifted(w, k) == w / d
    ensures Shifted(w, k + 1) == w / d / 0x100
  {
    ShiftedTwice(w, k);
  }

  lemma LowBytes(w: nat)
    ensures ByteOf(w, 0) == w % 0x100
    ensures ByteOf(w, 1) == w / 0x100 % 0x100
    ensures ByteOf(w, 2) == w / 0x1_0000 % 0x100
    ensures ByteOf(w, 3) == w / 0x100_0000 % 0x100
  {
    ShiftedBy(w, 0, 1);
    ShiftedBy(w, 1, 0x100);
    ShiftedBy(w, 2, 0x1_0000);
  }

  // ----- bytes put together with shifts and OR, as the reading code does

  function HalfBits(b1: bv64, b0: bv64): bv64 {
    (b1 << 8) | b0
  }

  function WordBits(b3: bv64, b2: bv64, b1: bv64, b0: bv64): bv64 {
    (b3 << 24) | (b2 << 16) | (b1 << 8) | b0
  }

  function DoubleBits(b7: bv64, b6: bv64, b5: bv64, b4: bv64, b3: bv64, b2: bv64, b1: bv64, b0: bv64): bv64 {
    (b7 << 56) | (b6 << 48) | (b5 << 40) | (b4 << 32) | (b3 << 24) | (b2 << 16) | (b1 << 8) | b0
  }

  lemma WordNested(b3: bv64, b2: bv64, b1: bv64, b0: bv64)
    ensures WordBits(b3, b2, b1, b0) == HalfBits(HalfBits(HalfBits(b3, b2), b1), b0)
  {
  }

  lemma DoubleNested(b7: bv64, b6: bv64, b5: bv64, b4: bv64, b3: bv64, b2: bv64, b1: bv64, b0: bv64)
    ensures DoubleBits(b7, b6, b5, b4, b3, b2, b1, b0)
         == HalfBits(HalfBits(HalfBits(HalfBits(WordBits(b7, b6, b5, b4), b3), b2), b1), b0)
  {
  }

  lemma HalfIsJoin(hi: bv64, lo: bv64)
    ensures HalfBits(hi, lo) == Both(Up(hi, 8), lo)
  {
  }

  lemma LoadIsWord(m: Memory.Ram, a: int, n: nat)
    requires n <= 8
    ensures LoadBytes(m, a, n) < 0x1_0000_0000_0000_0000
    ensures n < 8 ==> LoadBytes(m, a, n) < 0x100_0000_0000_0000
  {
    RangeOfSize(n);
    if n < 8 {
      RangeOfSize(n + 1);
    }
  }

  lemma PutBelow(hi: Word, lo: Byte)
    requires hi < 0x100_0000_0000_0000
    ensures HalfBits(ToBits(hi), ToBits(lo)) == ToBits(0x100 * hi + lo)
  {
    JoinBy8(hi, lo);
    HalfIsJoin(ToBits(hi), ToBits(lo));
  }

  /** A byte put below the bytes that follow it is the load of them all. */
  lemma LoadByOr(m: Memory.Ram, a: int, n: nat)
    requires 0 < n <= 8
    ensures LoadBytes(m, a, n) < 0x1_0000_0000_0000_0000 && LoadBytes(m, a + 1, n - 1) < 0x1_0000_0000_0000_0000
    ensures HalfBits(ToBits(LoadBytes(m, a + 1, n - 1)), ToBits(ByteAt(m, a))) == ToBits(LoadBytes(m, a, n))
  {
    LoadIsWord(m, a, n);
    LoadIsWord(m, a + 1, n - 1);
    var hi: Word, lo: Byte, all: Word := LoadBytes(m, a + 1, n - 1), ByteAt(m, a), LoadBytes(m, a, n);
    assert all == 0x100 * hi + lo by { FirstByte(m, a, n); }
    PutBelow(hi, lo);
  }

  /** The bits of the byte at an address. */
  function BitsAt(m: Memory.Ram, a: int): bv64 {
    ToBits(ByteAt(m, a))
  }

  lemma OneByte(m: Memory.Ram, a: int)
    ensures LoadBytes(m, a, 1) == ByteAt(m, a)
  {
  }

  lemma HalfLoads(m: Memory.Ram, a: int)
    ensures LoadBytes(m, a, 2) < 0x1_0000_0000_0000_0000
    ensures HalfBits(BitsAt(m, a + 1), BitsAt(m, a)) == ToBits(LoadBytes(m, a, 2))
  {
    var n := 2;
    LoadByOr(m, a, n);
    OneByte(m, a + 1);
  }

  lemma WordLoads(m: Memory.Ram, a: int)
    ensures LoadBytes(m, a, 4) < 0x1_0000_0000_0000_0000
    ensures WordBits(BitsAt(m, a + 3), BitsAt(m, a + 2), BitsAt(m, a + 1), BitsAt(m, a)) == ToBits(LoadBytes(m, a, 4))
  {
    var n := 4;
    WordNested(BitsAt(m, a + 3), BitsAt(m, a + 2), BitsAt(m, a + 1), BitsAt(m, a));
    LoadByOr(m, a, n);
    LoadByOr(m, a + 1, n - 1);
    HalfLoads(m, a + 2);
  }

  lemma DoubleLoads(m: Memory.Ram, a: int)
    ensures LoadBytes(m, a, 8) < 0x1_0000_0000_0000_0000
    ensures DoubleBits(BitsAt(m, a + 7), BitsAt(m, a + 6), BitsAt(m, a + 5), BitsAt(m, a + 4),
                       BitsAt(m, a + 3), BitsAt(m, a + 2), BitsAt(m, a + 1), BitsAt(m, a))
         == ToBits(LoadBytes(m, a, 8))
  {
    var n := 8;
    DoubleNested(BitsAt(m, a + 7), BitsAt(m, a + 6), BitsAt(m, a + 5), BitsAt(m, a + 4),
                 BitsAt(m, a + 3), BitsAt(m, a + 2), BitsAt(m, a + 1), BitsAt(m, a));
    LoadByOr(m, a, n);
    LoadByOr(m, a + 1, n - 1);
    LoadByOr(m, a + 2, n - 2);
    LoadByOr(m, a + 3, n - 3);
    WordLoads(m, a + 4);
  }

  lemma {:induction false} UpperByte(w: nat, k: nat)
    ensures Shifted(w, k + 4) == Shifted(w / 0x1_0000_0000, k)
  {
    if k == 0 {
      ShiftedTwice(w, 3);
      LowShifts(w);
    } else {
      UpperByte(w, k - 1);
      ShiftedTwice(w, k + 3);
      ShiftedTwice(w / 0x1_0000_0000, k - 1);
    }
  }

  lemma LowShifts(w: nat)
    ensures Shifted(w, 3) == w / 0x100_0000 && w / 0x100_0000 / 0x100 == w / 0x1_0000_0000
  {
    ShiftedBy(w, 0, 1);
    ShiftedBy(w, 1, 0x100);
    ShiftedBy(w, 2, 0x1_0000);
  }

  /** A doubleword is stored as its lower word and then its upper word. */
  lemma OverlaidHalves(m: Memory.Ram, a: int, w: Word)
    ensures Overlay(Overlay(m, a, 4, w), a + 4, 4, w / 0x1_0000_0000) == Overlay(m, a, 8, w)
  {
    forall b: int
      ensures OverlaidByte(Overlay(m, a, 4, w), a + 4, 4, w / 0x1_0000_0000, b) == OverlaidByte(m, a, 8, w, b)
    {
      if a + 4 <= b < a + 8 {
        UpperByte(w, b - (a + 4));
      }
    }
  }

  class Ram {
    const mem: array<Byte>

    ghost predicate Valid() {
      mem.Length == MEM_SIZE
    }

    /** The array as contents by physical address. */
    ghost function Contents(): Memory.Ram
      reads mem
      requires Valid()
    {
      imap a: int | true :: if InRam(a) then mem[a - MEM_BASE] else 0
    }

    constructor ()
      ensures Valid() && fresh(mem)
      ensures forall a :: ByteAt(Contents(), a) == 0
    {
      mem := new Byte[MEM_SIZE](_ => 0);
    }

    method Write8(address: int, value: Word)
      requires Valid()
      modifies mem
      ensures Contents() == MemWrite(old(Contents()), address, 1, value)
    {
      if !ValidAccess(address, 1) {
        return;
      }
      var idx := address - MEM_BASE;
      mem[idx] := value % 0x100;
    }

    method Write16(address: int, value: Word)
      requires Valid()
      modifies mem
      ensures Contents() == MemWrite(old(Contents()), address, 2, value)
    {
      if !ValidAccess(address, 2) {
        return;
      }
      LowBytes(value);
      var idx := address - MEM_BASE;
      mem[idx] := value % 0x100;
      mem[idx + 1] := value / 0x100 % 0x100;
    }

    /** Four bytes of a value, lowest first. */
    method StoreFour(idx: nat, value: nat)
      requires Valid() && idx + 4 <= MEM_SIZE
      modifies mem
      ensures Contents() == Overlay(old(Contents()), MEM_BASE + idx, 4, value)
    {
      LowBytes(value);
      mem[idx] := value % 0x100;
      mem[idx + 1] := value / 0x100 % 0x100;
      mem[idx + 2] := value / 0x1_0000 % 0x100;
      mem[idx + 3] := value / 0x100_0000 % 0x100;
    }

    method Write32(address: int, value: Word)
      requires Valid()
      modifies mem
      ensures Contents() == MemWrite(old(Contents()), address, 4, value)
    {
      if !ValidAccess(address, 4) {
        return;
      }
      StoreFour(address - MEM_BASE, value);
    }

    method Write64(address: int, value: Word)
      requires Valid()
      modifies mem
      ensures Contents() == MemWrite(old(Contents()), address, 8, value)
    {
      if !ValidAccess(address, 8) {
        return;
      }
      OverlaidHalves(Contents(), address, value);
      var idx := address - MEM_BASE;
      StoreFour(idx, value);
      StoreFour(idx + 4, value / 0x1_0000_0000);
    }

    method Read8(address: int) returns (value: Word)
      requires Valid()
      ensures value == MemRead(Contents(), address, 1)
    {
      if !ValidAccess(address, 1) {
        return 0;
      }
      var idx := address - MEM_BASE;
      OneByte(Contents(), address);
      value := mem[idx];
    }

    method Read16(address: int) returns (value: Word)
      requires Valid()
      ensures value == MemRead(Contents(), address, 2)
    {
      if !ValidAccess(address, 2) {
        return 0;
      }
      var idx := address - MEM_BASE;
      HalfLoads(Contents(), address);
      WordOfBits(LoadBytes(Contents(), address, 2));
      value := ToWord(HalfBits(ToBits(mem[idx + 1]), ToBits(mem[idx])));
    }

    method Read32(address: int) returns (value: Word)
      requires Valid()
      ensures value == MemRead(Contents(), address, 4)
    {
      if !ValidAccess(address, 4) {
        return 0;
      }
      var idx := address - MEM_BASE;
      WordLoads(Contents(), address);
      WordOfBits(LoadBytes(Contents(), address, 4));
      value := ToWord(WordBits(ToBits(mem[idx + 3]), ToBits(mem[idx + 2]), ToBits(mem[idx + 1]), ToBits(mem[idx])));
    }

    method Read64(address: int) returns (value: Word)
      requires Valid()
      ensures value == MemRead(Contents(), address, 8)
    {
      if !ValidAccess(address, 8) {
        return 0;
      }
      var idx := address - MEM_BASE;
      DoubleLoads(Contents(), address);
      WordOfBits(LoadBytes(Contents(), address, 8));
      value := ToWord(DoubleBits(ToBits(mem[idx + 7]), ToBits(mem[idx + 6]), ToBits(mem[idx + 5]), ToBits(mem[idx + 4]),
                                 ToBits(mem[idx + 3]), ToBits(mem[idx + 2]), ToBits(mem[idx + 1]), ToBits(mem[idx])));
    }
  }
}
