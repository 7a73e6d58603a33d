/** Machine words: the bit-level vocabulary shared by the whole model. */
module Words {

  /** Privilege levels are two bits wide; 2 is the level the architecture reserves. */
  const U_MODE: bv2 := 0
  const S_MODE: bv2 := 1
  const RESERVED_MODE: bv2 := 2
  const M_MODE: bv2 := 3

  /** Bit `i` of a word, 0 or 1. */
  function BitAt(w: bv64, i: bv64): bv64
    requires i < 64
  {
    (w >> i) & 1
  }

  predicate Bit(w: bv64, i: bv64)
    requires i < 64
  {
    BitAt(w, i) == 1
  }

  function SetBit(w: bv64, i: bv64, bit: bv64): bv64
    requires i < 64
  {
    if bit != 0 then w | (1 << i) else w & !(1 << i)
  }

  function LowBit(priv: bv2): bv64 {
    (priv & 1) as bv64
  }

  function HighBit(priv: bv2): bv64 {
    (priv >> 1) as bv64
  }

  /** Replaces the bits of `word` selected by `mask` with those of `value`. */
  function Masked(word: bv64, value: bv64, mask: bv64): bv64 {
    (word & !mask) | (value & mask)
  }

  /** Widens the low `bits` bits of `imm`; the bits above them must be clear. */
  function SignExtend(imm: bv64, bits: bv64): bv64
    requires 0 < bits < 64
  {
    if (imm >> (bits - 1)) & 1 == 1 then (0xFFFF_FFFF_FFFF_FFFF << bits) | imm else imm
  }

  /** Addition modulo 2^64. */
  function Add(x: bv64, y: bv64): bv64 {
    x + y
  }

  function Common(x: bv64, y: bv64): bv64 {
    x & y
  }

  function Differing(x: bv64, y: bv64): bv64 {
    x ^ y
  }

  function Both(x: bv64, y: bv64): bv64 {
    x | y
  }

  /** The word with the bits of `mask` clear. */
  function Without(w: bv64, mask: bv64): bv64 {
    w & !mask
  }

  /** The word with its lowest bit clear. */
  function Align2(x: bv64): bv64 {
    x & !1
  }

  /** The word with its two low bits clear. */
  function Align4(x: bv64): bv64 {
    x & !3
  }

  function Pow2(n: nat): (p: nat)
    ensures p > 0
  {
    if n == 0 then 1 else 2 * Pow2(n - 1)
  }

  predicate Odd(x: bv64) {
    x & 1 == 1
  }

  function Half(x: bv64): bv64 {
    x >> 1
  }

  /** The unsigned value of the low `bits` bits of a word. */
  function Unsigned(x: bv64, bits: nat): (v: nat)
    ensures v < Pow2(bits)
  {
    if bits == 0 then 0 else (if Odd(x) then 1 else 0) + 2 * Unsigned(Half(x), bits - 1)
  }

  type Word = w: int | 0 <= w < 0x1_0000_0000_0000_0000

  function ToWord(x: bv64): Word {
    assert Pow2(64) == 0x1_0000_0000_0000_0000 by { Pow2Of64(); }
    Unsigned(x, 64)
  }

  function Doubled(x: bv64, digit: bv64): bv64 {
    (x << 1) | digit
  }

  function LastDigit(w: nat): bv64 {
    if w % 2 == 1 then 1 else 0
  }

  /** The word whose low `bits` bits are the binary digits of `w`. */
  function FromDigits(w: nat, bits: nat): bv64 {
    if bits == 0 then 0 else Doubled(FromDigits(w / 2, bits - 1), LastDigit(w))
  }

  function ToBits(w: Word): bv64 {
    FromDigits(w, 64)
  }

  lemma Pow2Of64()
    ensures Pow2(64) == 0x1_0000_0000_0000_0000
  {
    Squares(1, 2);
    Squares(2, 0x4);
    Squares(4, 0x10);
    Squares(8, 0x100);
    Squares(16, 0x1_0000);
    Squares(32, 0x1_0000_0000);
  }

  lemma Squares(n: nat, p: nat)
    requires Pow2(n) == p
    ensures Pow2(2 * n) == p * p
  {
    Pow2Adds(n, n);
  }

  lemma {:induction false} Pow2Adds(m: nat, n: nat)
    ensures Pow2(m + n) == Pow2(m) * Pow2(n)
  {
    if m > 0 {
      Pow2Adds(m - 1, n);
    }
  }

  datatype Option<+T> = None | Some(value: T)
}
