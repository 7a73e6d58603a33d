/** The physical address space: RAM, UART and timer behind one read and one write. */
module BusSpec {
  import opened Words
  import opened Memory
  import opened UartSpec

  const UART_BASE: int := 0x1000_0000
  const UART_SIZE: int := 0x100
  const TIMER_BASE: int := 0x200_0000
  const TIMER_SIZE: int := 0x1_0000

  const MSIP: int := 0x0000
  const MTIMECMP: int := 0x4000
  const MTIME: int := 0xBFF8

  datatype Timer = Timer(msip: Word, mtime: Word, mtimecmp: Word)

  datatype Bus = Bus(ram: Ram, timer: Timer, uart: Uart)

  predicate InRange(a: int, base: int, size: int) {
    a >= base && a - base < size
  }

  function TimerRead32(t: Timer, offset: int): Word {
    if offset == MSIP then t.msip % 2
    else if offset == MTIMECMP then t.mtimecmp % 0x1_0000_0000
    else if offset == MTIMECMP + 4 then t.mtimecmp / 0x1_0000_0000
    else if offset == MTIME then t.mtime % 0x1_0000_0000
    else if offset == MTIME + 4 then t.mtime / 0x1_0000_0000
    else 0
  }

  function TimerRead64(t: Timer, offset: int): Word {
    if offset == MSIP then t.msip % 2
    else if offset == MTIMECMP then t.mtimecmp
    else if offset == MTIME then t.mtime
    else 0
  }

  /** A 32-bit write reaches only the software-interrupt bit: the other results are discarded. */
  function TimerWrite32(t: Timer, offset: int, w: Word): Timer {
    if offset == MSIP then t.(msip := w % 2) else t
  }

  /** A 64-bit write of the software-interrupt word also falls through to the compare register. */
  function TimerWrite64(t: Timer, offset: int, w: Word): Timer {
    if offset == MSIP then t.(msip := w % 2, mtimecmp := w)
    else if offset == MTIMECMP then t.(mtimecmp := w)
    else if offset == MTIME then t.(mtime := w)
    else t
  }

  function TimerTicked(t: Timer): Timer {
    t.(mtime := (t.mtime + 1) % 0x1_0000_0000_0000_0000)
  }

  /** The value a read of `n` bytes at `a` returns. */
  function BusRead(b: Bus, a: int, n: Size): Word {
    if InRam(a) then MemRead(b.ram, a, n)
    else if InRange(a, UART_BASE, UART_SIZE) then (if n == 1 then ReadValue(b.uart, a - UART_BASE) as int else 0)
    else if InRange(a, TIMER_BASE, TIMER_SIZE) then
      (if n == 4 then TimerRead32(b.timer, a - TIMER_BASE)
       else if n == 8 then TimerRead64(b.timer, a - TIMER_BASE)
       else 0)
    else 0
  }

  /** Only a byte read of the UART has a side effect. */
  function AfterBusRead(b: Bus, a: int, n: Size): Bus {
    if !InRam(a) && InRange(a, UART_BASE, UART_SIZE) && n == 1 then b.(uart := AfterRead(b.uart, a - UART_BASE))
    else b
  }

  ghost function BusWrite(b: Bus, a: int, n: Size, w: Word): Bus {
    if InRam(a) then b.(ram := MemWrite(b.ram, a, n, w))
    else if InRange(a, UART_BASE, UART_SIZE) then
      (if n == 1 then b.(uart := AfterWrite(b.uart, a - UART_BASE, (w % 256) as bv8)) else b)
    else if InRange(a, TIMER_BASE, TIMER_SIZE) then
      (if n == 4 then b.(timer := TimerWrite32(b.timer, a - TIMER_BASE, w))
       else if n == 8 then b.(timer := TimerWrite64(b.timer, a - TIMER_BASE, w))
       else b)
    else b
  }

  /** The two 32-bit reads of a timer register are the halves of the 64-bit one, low half first. */
  lemma TimerHalves(b: Bus, register: int)
    requires register == MTIME || register == MTIMECMP
    ensures BusRead(b, TIMER_BASE + register, 4) < 0x1_0000_0000
    ensures BusRead(b, TIMER_BASE + register, 4) + 0x1_0000_0000 * BusRead(b, TIMER_BASE + register + 4, 4)
         == BusRead(b, TIMER_BASE + register, 8)
  {
    var w := if register == MTIME then b.timer.mtime else b.timer.mtimecmp;
    assert w == w % 0x1_0000_0000 + 0x1_0000_0000 * (w / 0x1_0000_0000);
  }

  /** A 64-bit write of a timer register comes back through reads of either width, and reaches no other one. */
  lemma TimerReadsBack(b: Bus, register: int, w: Word)
    requires register == MTIME || register == MTIMECMP
    ensures var b' := BusWrite(b, TIMER_BASE + register, 8, w);
            && BusRead(b', TIMER_BASE + register, 4) + 0x1_0000_0000 * BusRead(b', TIMER_BASE + register + 4, 4) == w
            && BusRead(b', TIMER_BASE + register, 8) == w
            && b'.ram == b.ram && b'.uart == b.uart && b'.timer.msip == b.timer.msip
            && (register == MTIME ==> b'.timer.mtimecmp == b.timer.mtimecmp)
            && (register == MTIMECMP ==> b'.timer.mtime == b.timer.mtime)
  {
    TimerHalves(BusWrite(b, TIMER_BASE + register, 8, w), register);
  }

  /** A 32-bit write of a timer register, unlike that, changes nothing that can be read from the timer but
      the software-interrupt bit. */
  lemma NarrowTimerWrite(b: Bus, offset: int, w: Word, n: Size, at: int)
    requires InRange(TIMER_BASE + offset, TIMER_BASE, TIMER_SIZE)
    ensures BusRead(BusWrite(b, TIMER_BASE + offset, 4, w), at, n)
         == if offset == MSIP && at == TIMER_BASE + MSIP && (n == 4 || n == 8) then w % 2 else BusRead(b, at, n)
  {
  }

  /** The 64-bit word a page-table walker sees at `p`. */
  function PteAt(b: Bus, p: int): Word {
    BusRead(b, p, 8)
  }

  /** The words that keep what is written to them: RAM and the two 64-bit timer registers. */
  predicate Backed(p: int) {
    InRam(p) || p == TIMER_BASE + MTIMECMP || p == TIMER_BASE + MTIME
  }

  /** Two aligned words are the same word or share no byte, so a write to one leaves the other. */
  lemma AlignedWrite(b: Bus, p: int, w: Word, q: int)
    requires p % 8 == 0 && q % 8 == 0 && p != TIMER_BASE + MSIP
    ensures PteAt(BusWrite(b, p, 8, w), q) == if p == q && Backed(p) then w else PteAt(b, q)
  {
    if InRam(p) {
      if InRam(q) {
        AlignedRamWrite(b.ram, p, w, q);
      }
    }
  }

  lemma AlignedRamWrite(m: Ram, p: int, w: Word, q: int)
    requires p % 8 == 0 && q % 8 == 0 && InRam(p) && InRam(q)
    ensures MemRead(MemWrite(m, p, 8, w), q, 8) == if p == q then w else MemRead(m, q, 8)
  {
    AlignedFits(p);
    AlignedFits(q);
    if p == q {
      DoublewordAfterStore(m, p, w);
    } else {
      AlignedApart(p, q);
      LoadElsewhere(m, p, 8, w, q, 8);
    }
  }

  lemma AlignedFits(p: int)
    requires p % 8 == 0 && InRam(p)
    ensures ValidAccess(p, 8)
  {
  }

  lemma AlignedApart(p: int, q: int)
    requires p % 8 == 0 && q % 8 == 0 && p != q
    ensures Disjoint(p, 8, q, 8)
  {
  }

  lemma BackedUnlessZero(b: Bus, p: int)
    requires PteAt(b, p) > 1
    ensures Backed(p) && p != TIMER_BASE + MSIP
  {
  }
}
