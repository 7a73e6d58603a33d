/** The devices by address and by bit: the bus map, the UART's registers, and the hart at reset. */
module Devices {
  import opened Words
  import opened Memory
  import opened BusSpec
  import opened UartSpec
  import CsrSpec

  // ----- the bus

  /** 64 MiB of RAM from 0x8000_0000 on; an access must lie in it whole. */
  predicate RamSpan(a: int, n: Size) {
    0x8000_0000 <= a && a + n <= 0x8400_0000
  }

  predicate UartByte(a: int, n: Size) {
    0x1000_0000 <= a < 0x1000_0100 && n == 1
  }

  /** The timer's window, at the two widths that it answers to. */
  predicate TimerWord(a: int, n: Size) {
    0x200_0000 <= a < 0x201_0000 && (n == 4 || n == 8)
  }

  /** What an address reads: the little-endian bytes of RAM, a UART register, or the timer's software-interrupt bit,
      compare value and time at its three places. All else reads 0. */
  lemma ReadMap(b: Bus, a: int, n: Size)
    ensures BusRead(b, a, n)
         == if RamSpan(a, n) then LoadBytes(b.ram, a, n)
            else if UartByte(a, n) then ReadValue(b.uart, a - 0x1000_0000) as int
            else if a == 0x200_0000 && TimerWord(a, n) then b.timer.msip % 2
            else if a == 0x200_4000 && n == 8 then b.timer.mtimecmp
            else if a == 0x200_4000 && n == 4 then b.timer.mtimecmp % 0x1_0000_0000
            else if a == 0x200_4004 && n == 4 then b.timer.mtimecmp / 0x1_0000_0000
            else if a == 0x200_BFF8 && n == 8 then b.timer.mtime
            else if a == 0x200_BFF8 && n == 4 then b.timer.mtime % 0x1_0000_0000
            else if a == 0x200_BFFC && n == 4 then b.timer.mtime / 0x1_0000_0000
            else 0
  {
  }

  /** What a write reaches, and that it reaches nothing else. A 64-bit write of the software-interrupt word also
      sets the compare value. */
  lemma WriteMap(b: Bus, a: int, n: Size, w: Word)
    ensures var b' := BusWrite(b, a, n, w);
            if RamSpan(a, n) then
              b' == b.(ram := b'.ram) && LoadBytes(b'.ram, a, n) == w % Range(n)
              && forall c: int | !(a <= c < a + n) :: ByteAt(b'.ram, c) == ByteAt(b.ram, c)
            else if UartByte(a, n) then b' == b.(uart := AfterWrite(b.uart, a - 0x1000_0000, (w % 256) as bv8))
            else if a == 0x200_0000 && n == 4 then b' == b.(timer := b.timer.(msip := w % 2))
            else if a == 0x200_0000 && n == 8 then b' == b.(timer := b.timer.(msip := w % 2, mtimecmp := w))
            else if a == 0x200_4000 && n == 8 then b' == b.(timer := b.timer.(mtimecmp := w))
            else if a == 0x200_BFF8 && n == 8 then b' == b.(timer := b.timer.(mtime := w))
            else b' == b
  {
    if RamSpan(a, n) {
      LoadAfterStore(b.ram, a, n, w);
    }
  }

  // ----- the UART

  /** The divisor latch is open: bit 7 of LCR (offset 3). */
  predicate LatchOpen(u: Uart) {
    u.lcr & 0x80 == 0x80
  }

  lemma LatchBit(u: Uart)
    ensures LatchOpen(u) <==> Dlab(u)
  {
  }

  /** LCR, MCR and SCR (offsets 3, 4 and 7) read what was written; so do the divisor bytes while the latch is open and
      the interrupt enables while it is closed. */
  lemma RegistersReadBack(u: Uart, offset: int, value: bv8)
    ensures offset == 3 || offset == 4 || offset == 7 ==> ReadValue(AfterWrite(u, offset, value), offset) == value
    ensures LatchOpen(u) && (offset == 0 || offset == 1) ==> ReadValue(AfterWrite(u, offset, value), offset) == value
    ensures !LatchOpen(u) && offset == 1 ==> ReadValue(AfterWrite(u, 1, value), 1) == value
  {
    LatchBit(u);
  }

  /** A write changes what the other registers read only through the latch bit, the queue, and the two causes that IIR
      (offset 2) reports: no others than LCR, FCR, IER and THR have such an effect. */
  lemma RegistersAreApart(u: Uart, offset: int, value: bv8, other: int)
    requires other != offset && other != 2 && offset != 3 && (offset != 2 || value & 0x02 == 0)
    ensures ReadValue(AfterWrite(u, offset, value), other) == ReadValue(u, other)
  {
    var u' := AfterWrite(u, offset, value);
    WriteMoves(u, offset, value);
    assert u'.queue == u.queue && u'.lcr == u.lcr;
    if other == 0 || other == 1 {
      LatchedRead(u, u', other);
    }
  }

  /** The fields that a write leaves alone, by the offset it goes to. */
  lemma WriteMoves(u: Uart, offset: int, value: bv8)
    requires offset != 3 && (offset != 2 || value & 0x02 == 0)
    ensures var u' := AfterWrite(u, offset, value);
            && u'.queue == u.queue && u'.lcr == u.lcr
            && (offset != 0 ==> u'.dll == u.dll) && (offset != 1 ==> u'.dlm == u.dlm && u'.ier == u.ier)
            && (offset != 4 ==> u'.mcr == u.mcr) && (offset != 7 ==> u'.scr == u.scr)
  {
    if offset == 2 {
      ControlMoves(u, value);
    } else if offset == 1 {
      EnableMoves(u, value);
    }
  }

  lemma ControlMoves(u: Uart, value: bv8)
    requires value & 0x02 == 0
    ensures var u' := AfterWrite(u, 2, value); u' == u.(txCount := u'.txCount, fcr := u'.fcr)
  {
  }

  lemma EnableMoves(u: Uart, value: bv8)
    ensures var u' := AfterWrite(u, 1, value);
            u' == if Dlab(u) then u.(dlm := value) else u.(ier := value, threPending := u'.threPending)
  {
  }

  lemma LatchedRead(u: Uart, u': Uart, offset: int)
    requires u'.queue == u.queue && u'.lcr == u.lcr
    requires (offset == 0 && u'.dll == u.dll) || (offset == 1 && u'.dlm == u.dlm && u'.ier == u.ier)
    ensures ReadValue(u', offset) == ReadValue(u, offset)
  {
  }

  /** Bit 0 of IIR is clear exactly if an enabled cause is present, received data first (4), then the transmitter (2);
      bits 7 and 6 show that FIFOs are on, and bits 5 to 3 are clear. */
  lemma IdentificationExactly(u: Uart)
    ensures var iir := ReadValue(u, 2);
            var receive, transmit := u.ier & 1 == 1 && u.queue != [], u.ier & 2 == 2 && u.threPending;
            && iir & 0x0F == (if receive then 4 else if transmit then 2 else 1)
            && iir & 0xF0 == (if u.fcr & 1 == 1 then 0xC0 else 0)
  {
    FifoBits(u);
    CauseBits(u);
  }

  lemma FifoBits(u: Uart)
    ensures Identification(u) & 0xF0 == if u.fcr & 1 == 1 then 0xC0 else 0
  {
  }

  lemma CauseBits(u: Uart)
    ensures var receive, transmit := u.ier & 1 == 1 && u.queue != [], u.ier & 2 == 2 && u.threPending;
            Identification(u) & 0x0F == if receive then 4 else if transmit then 2 else 1
  {
  }

  /** Reading the transmitter's cause acknowledges it: the next read reports none, and nothing else has changed. */
  lemma ReadingAcknowledges(u: Uart)
    requires ReadValue(u, 2) & 0x0F == 2
    ensures var u' := AfterRead(u, 2);
            u' == u.(threPending := false) && ReadValue(u', 2) & 0x0F == 1
  {
    IdentificationExactly(u);
    IdentificationExactly(u.(threPending := false));
    assert u.ier & 2 == 2 ==> u.ier & 2 != 0;
  }

  /** Writing THR (offset 0 with the latch closed) raises the transmitter's cause again, at once. */
  lemma WritingRaises(u: Uart, value: bv8)
    requires !LatchOpen(u) && u.ier & 2 == 2 && !(u.ier & 1 == 1 && u.queue != [])
    ensures ReadValue(AfterWrite(u, 0, value), 2) & 0x0F == 2
  {
    LatchBit(u);
    IdentificationExactly(AfterWrite(u, 0, value));
  }

  /** Reading offset 0 takes the oldest byte of the queue, if the latch is closed and there is one; otherwise it changes
      nothing, and shows the low divisor byte or 0. */
  lemma ReceiveExactly(u: Uart)
    ensures AfterRead(u, 0) == if !LatchOpen(u) && u.queue != [] then u.(queue := u.queue[1..]) else u
    ensures ReadValue(u, 0) == if LatchOpen(u) then u.dll else if u.queue != [] then u.queue[0] else 0
  {
    LatchBit(u);
  }

  /** A byte from the host is queued if fewer than sixteen wait, and lost otherwise. */
  lemma InputExactly(u: Uart, b: bv8)
    requires |u.queue| <= 16
    ensures AfterHostInput(u, Some(b)) == if |u.queue| < 16 then u.(queue := u.queue + [b]) else u
    ensures AfterHostInput(u, None) == u
  {
  }

  /** Writing FCR (offset 2) with bit 1 empties the queue; its bits 1 and 2 are not kept. */
  lemma ControlExactly(u: Uart, value: bv8)
    ensures var u' := AfterWrite(u, 2, value);
            && u'.queue == (if value & 2 == 2 then [] else u.queue)
            && u'.fcr & 0x06 == 0 && u'.fcr & 0xF9 == value & 0xF9
            && u' == u.(queue := u'.queue, fcr := u'.fcr, txCount := u'.txCount)
  {
    ControlBits(value);
  }

  lemma ControlBits(value: bv8)
    ensures (value & 0xF9) & 0x06 == 0 && (value & 0xF9) & 0xF9 == value & 0xF9
    ensures value & 0x02 != 0 <==> value & 2 == 2
  {
  }

  /** Writing IER (offset 1, latch closed): switching the transmitter's interrupt off forgets its cause, and switching
      it on with nothing to send raises it. */
  lemma EnableExactly(u: Uart, value: bv8)
    requires !LatchOpen(u)
    ensures var u' := AfterWrite(u, 1, value);
            && u' == u.(ier := value, threPending := u'.threPending)
            && u'.threPending == (value & 2 == 2 && ((u.ier & 2 == 0 && u.txCount == 0) || u.threPending))
  {
    LatchBit(u);
    EnableBit(value);
    EnableBit(u.ier);
  }

  lemma EnableBit(value: bv8)
    ensures value & 2 == 0 || value & 2 == 2
  {
  }

  /** LSR (offset 5) always reports an empty transmitter, and data exactly while the queue holds some. */
  lemma StatusExactly(u: Uart)
    ensures ReadValue(u, 5) & 0x60 == 0x60 && ReadValue(u, 5) & 0x9E == 0
    ensures ReadValue(u, 5) & 1 == 1 <==> u.queue != []
  {
  }

  // ----- reset

  /** misa says RV64 with A, I, M, S and U; MPP is machine mode and mstatus otherwise clear; traps go to the start of
      RAM; every other register is 0. */
  lemma ResetByBits(a: nat)
    ensures CsrSpec.ResetValue(a)
         == if a == 0x301 then (2 << 62) | (1 << 0) | (1 << 8) | (1 << 12) | (1 << 18) | (1 << 20)
            else if a == 0x300 then 3 << 11
            else if a == 0x305 then 0x8000_0000
            else 0
  {
  }
}
