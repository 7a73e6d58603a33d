/** Physical RAM: little-endian words over bytes. */
module Memory {
  import opened Words

  const MEM_BASE: nat := 0x8000_0000
  const MEM_SIZE: nat := 0x400_0000

  type Byte = b: int | 0 <= b < 256

  /** An access width in bytes. */
  type Size = n: nat | n == 1 || n == 2 || n == 4 || n == 8 witness 1

  /** The contents of RAM by physical address; addresses that are not RAM hold 0. */
  type Ram = imap<int, Byte>

  predicate InRam(a: int) {
    MEM_BASE <= a < MEM_BASE + MEM_SIZE
  }

  predicate ValidAccess(a: int, n: Size) {
    MEM_BASE <= a && a - MEM_BASE <= MEM_SIZE - n
  }

  function ByteAt(m: Ram, a: int): Byte {
    if a in m then m[a] else 0
  }

  /** The word shifted right by `k` bytes. */
  function Shifted(w: nat, k: nat): nat {
    if k == 0 then w else Shifted(w / 256, k - 1)
  }

  /** Byte `k` of a word, byte 0 being the least significant. */
  function ByteOf(w: nat, k: nat): Byte {
    Shifted(w, k) % 256
  }

  /** 256 to the power `n`: the number of values `n` bytes can hold. */
  function Range(n: nat): nat
    ensures Range(n) > 0
  {
    if n == 0 then 1 else 256 * Range(n - 1)
  }

  /** The little-endian value of the `n` bytes from `a` on. */
  function LoadBytes(m: Ram, a: int, n: nat): (w: nat)
    ensures w < Range(n)
    decreases n
  {
    if n == 0 then 0 else ByteAt(m, a) + 256 * LoadBytes(m, a + 1, n - 1)
  }

  function OverlaidByte(m: Ram, a: int, n: nat, w: nat, b: int): Byte {
    if a <= b < a + n then ByteOf(w, b - a) else ByteAt(m, b)
  }

  /** The low `n` bytes of `w` laid over `m` from address `a` on. */
  ghost function Overlay(m: Ram, a: int, n: nat, w: nat): Ram {
    imap b: int | true :: OverlaidByte(m, a, n, w, b)
  }

  function MemRead(m: Ram, a: int, n: Size): Word {
    RangeOfSize(n);
    if ValidAccess(a, n) then LoadBytes(m, a, n) else 0
  }

  ghost function MemWrite(m: Ram, a: int, n: Size, w: Word): Ram {
    if ValidAccess(a, n) then Overlay(m, a, n, w) else m
  }

  lemma RangeOfSize(n: nat)
    requires n <= 8
    ensures Range(n) <= 0x1_0000_0000_0000_0000
    ensures n == 1 ==> Range(n) == 0x100
    ensures n == 2 ==> Range(n) == 0x1_0000
    ensures n == 4 ==> Range(n) == 0x1_0000_0000
    ensures n == 8 ==> Range(n) == 0x1_0000_0000_0000_0000
  {
    assert Range(2) == 0x1_0000;
    assert Range(4) == 0x1_0000_0000;
    assert Range(6) == 0x1_0000_0000_0000;
    assert Range(8) == 0x1_0000_0000_0000_0000;
  }

  /** A load assembles exactly the bytes stored at its addresses, lowest address first. */
  lemma {:induction false} LoadedByte(m: Ram, a: int, n: nat, k: nat)
    requires k < n
    ensures ByteOf(LoadBytes(m, a, n), k) == ByteAt(m, a + k)
    decreases n
  {
    if k > 0 {
      LoadedByte(m, a + 1, n - 1, k - 1);
    }
  }

  lemma {:induction false} LoadsAgree(m: Ram, m': Ram, a: int, n: nat)
    requires forall b | a <= b < a + n :: ByteAt(m, b) == ByteAt(m', b)
    ensures LoadBytes(m, a, n) == LoadBytes(m', a, n)
    decreases n
  {
    if n > 0 {
      LoadsAgree(m, m', a + 1, n - 1);
    }
  }

  lemma FirstByte(m: Ram, a: int, n: nat)
    requires n > 0
    ensures LoadBytes(m, a, n) == ByteAt(m, a) + 256 * LoadBytes(m, a + 1, n - 1)
  {
  }

  lemma FirstFourBytes(m: Ram, a: int, n: nat)
    requires n >= 4
    ensures LoadBytes(m, a, n) == ByteAt(m, a) + 0x100 * ByteAt(m, a + 1) + 0x1_0000 * ByteAt(m, a + 2)
                                  + 0x100_0000 * ByteAt(m, a + 3) + 0x1_0000_0000 * LoadBytes(m, a + 4, n - 4)
  {
    FirstByte(m, a, n);
    FirstByte(m, a + 1, n - 1);
    FirstByte(m, a + 2, n - 2);
    FirstByte(m, a + 3, n - 3);
  }

  /** A doubleword is two words, the lower one first. */
  lemma DoublewordSplits(m: Ram, a: int)
    ensures LoadBytes(m, a, 8) == LoadBytes(m, a, 4) + 0x1_0000_0000 * LoadBytes(m, a + 4, 4)
  {
    var n, k := 8, 4;
    FirstFourBytes(m, a, n);
    FirstFourBytes(m, a, k);
  }

  /** What is loaded back from where it was stored is the stored value, cut to the width. */
  lemma {:induction false} LoadAfterStore(m: Ram, a: int, n: nat, w: nat)
    ensures LoadBytes(Overlay(m, a, n, w), a, n) == w % Range(n)
  {
    LoadOverlaid(m, a, n, w, 0);
  }

  /** A stored doubleword comes back whole. */
  lemma DoublewordAfterStore(m: Ram, a: int, w: Word)
    ensures LoadBytes(Overlay(m, a, 8, w), a, 8) == w
  {
    LoadAfterStore(m, a, 8, w);
    RangeOfSize(8);
    ModUnique(w, Range(8), 0, w);
  }

  /** The value of the low `n` bytes of a word. */
  function Cut(w: nat, n: nat): nat {
    w % Range(n)
  }

  lemma {:induction false} LoadOverlaid(m: Ram, a: int, n: nat, w: nat, k: nat)
    requires k <= n
    ensures LoadBytes(Overlay(m, a, n, w), a + k, n - k) == Cut(Shifted(w, k), n - k)
    decreases n - k
  {
    if k == n {
      assert Cut(Shifted(w, k), 0) == 0;
    } else {
      LoadOverlaid(m, a, n, w, k + 1);
      ShiftedTwice(w, k);
      CutSplits(Shifted(w, k), n - k);
      assert ByteAt(Overlay(m, a, n, w), a + k) == Shifted(w, k) % 256;
    }
  }

  lemma {:induction false} ShiftedTwice(w: nat, k: nat)
    ensures Shifted(w, k + 1) == Shifted(w, k) / 256
  {
    if k > 0 {
      ShiftedTwice(w / 256, k - 1);
    }
  }

  lemma CutSplits(w: nat, n: nat)
    requires n > 0
    ensures Cut(w, n) == w % 256 + 256 * Cut(w / 256, n - 1)
  {
    var r := Range(n - 1);
    var q := w / 256 / r;
    var s := w / 256 % r;
    assert w == 256 * (q * r + s) + w % 256;
    assert w == q * (256 * r) + (256 * s + w % 256) by { assert 256 * (q * r) == q * (256 * r); }
    ModUnique(w, 256 * r, q, 256 * s + w % 256);
  }

  lemma ModUnique(x: nat, d: nat, q: nat, r: nat)
    requires d > 0 && x == q * d + r && r < d
    ensures x % d == r
  {
    var k := x / d;
    if k > q {
      Multiples(q + 1, k, d);
    } else if k < q {
      Multiples(k + 1, q, d);
    }
  }

  lemma Multiples(i: nat, j: nat, d: nat)
    requires i <= j
    ensures i * d <= j * d
  {
  }

  lemma DivModUnique(x: nat, d: nat, q: nat, r: nat)
    requires d > 0 && x == d * q + r && r < d
    ensures x / d == q && x % d == r
  {
    ModUnique(x, d, q, r);
    if x / d < q {
      Multiples(x / d + 1, q, d);
    } else if x / d > q {
      Multiples(q + 1, x / d, d);
    }
  }

  predicate Disjoint(a: int, n: nat, c: int, k: nat) {
    a + n <= c || c + k <= a
  }

  /** A store leaves every load from a disjoint span alone. */
  lemma LoadElsewhere(m: Ram, a: int, n: nat, w: nat, c: int, k: nat)
    requires Disjoint(a, n, c, k)
    ensures LoadBytes(Overlay(m, a, n, w), c, k) == LoadBytes(m, c, k)
  {
    LoadsAgree(Overlay(m, a, n, w), m, c, k);
  }

  /** Read after write for any two widths and any overlap: each byte read comes from the store where it
      reached and from the old contents elsewhere. */
  lemma ReadAfterWrite(m: Ram, a: int, n: Size, w: Word, c: int, k: Size, i: nat)
    requires ValidAccess(a, n) && ValidAccess(c, k) && i < k
    ensures ByteOf(MemRead(MemWrite(m, a, n, w), c, k), i)
         == if a <= c + i < a + n then ByteOf(w, c + i - a) else ByteOf(MemRead(m, c, k), i)
  {
    LoadedByte(Overlay(m, a, n, w), c, k, i);
    LoadedByte(m, c, k, i);
  }
}
