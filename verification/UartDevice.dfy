/** The UART with its receive ring in place. */
module UartDevice {
  import opened Words
  import UartSpec

  /** The `count` bytes of a ring from index `tail` on. */
  ghost function FromRing(ring: seq<bv8>, tail: nat, count: nat): seq<bv8>
    requires |ring| == 16
  {
    seq(count, i requires 0 <= i < count => ring[Slot(tail, i)])
  }

  /** The slot `i` places on, around the ring. */
  function Slot(tail: nat, i: nat): (k: nat)
    ensures k < 16
  {
    (tail + i) % 16
  }

  lemma SlotsApart(tail: nat, i: nat, j: nat)
    requires i < j < 16
    ensures Slot(tail, i) != Slot(tail, j)
  {
  }

  lemma NextSlot(tail: nat, i: nat)
    ensures Slot(Slot(tail, 1), i) == Slot(tail, i + 1)
  {
  }

  /** The head stays `count` places after the tail as either moves on. */
  lemma RingMoves(tail: nat, count: nat)
    ensures Slot(Slot(tail, count), 1) == Slot(tail, count + 1)
    ensures count > 0 ==> Slot(Slot(tail, 1), count - 1) == Slot(tail, count)
  {
    NextSlot(tail, count);
    if count > 0 {
      NextSlot(tail, count - 1);
    }
  }

  /** A byte put in the head slot joins the queue at its end. */
  lemma RingPush(ring: seq<bv8>, tail: nat, count: nat, byte: bv8)
    requires |ring| == 16 && count < 16
    ensures FromRing(ring[Slot(tail, count) := byte], tail, count + 1) == FromRing(ring, tail, count) + [byte]
  {
    forall i | 0 <= i < count
      ensures ring[Slot(tail, count) := byte][Slot(tail, i)] == ring[Slot(tail, i)]
    {
      SlotsApart(tail, i, count);
    }
  }

  /** A tail moved on by one slot takes the oldest byte off the queue. */
  lemma RingPop(ring: seq<bv8>, tail: nat, count: nat)
    requires |ring| == 16 && 0 < count <= 16
    ensures FromRing(ring, Slot(tail, 1), count - 1) == FromRing(ring, tail, count)[1..]
    ensures FromRing(ring, tail, count)[0] == ring[Slot(tail, 0)]
  {
    forall i | 0 <= i < count - 1
      ensures Slot(Slot(tail, 1), i) == Slot(tail, i + 1)
    {
      NextSlot(tail, i);
    }
  }

  class Uart {
    const rxFifo: array<bv8>
    var rxHead: nat
    var rxTail: nat
    var rxCount: nat
    var txCount: nat
    var threPending: bool
    var dll: bv8
    var dlm: bv8
    var ier: bv8
    var fcr: bv8
    var lcr: bv8
    var mcr: bv8
    var scr: bv8

    /** The head is always `rxCount` places after the tail, around the ring. */
    ghost predicate Valid()
      reads this`rxHead, this`rxTail, this`rxCount
    {
      && rxFifo.Length == UartSpec.FIFO_SIZE
      && rxTail < 16 && rxCount <= 16
      && rxHead == Slot(rxTail, rxCount)
    }

    /** The queued bytes, oldest first. */
    ghost function Queue(): seq<bv8>
      reads this`rxHead, this`rxTail, this`rxCount, rxFifo
      requires Valid()
    {
      FromRing(rxFifo[..], rxTail, rxCount)
    }

    ghost function View(): UartSpec.Uart
      reads this, rxFifo
      requires Valid()
    {
      UartSpec.Uart(Queue(), ier, fcr, lcr, mcr, scr, dll, dlm, txCount, threPending)
    }

    constructor ()
      ensures Valid() && fresh(rxFifo)
      ensures View() == UartSpec.Uart([], 0, 0, 0, 0, 0, 0, 0, 0, false)
    {
      rxFifo := new bv8[16](_ => 0);
      rxHead, rxTail, rxCount, txCount, threPending := 0, 0, 0, 0, false;
      dll, dlm, ier, fcr, lcr, mcr, scr := 0, 0, 0, 0, 0, 0, 0;
    }

    /** `input` is the byte the host has ready, if any. */
    method HandleHostInput(input: Option<bv8>)
      requires Valid()
      modifies this, rxFifo
      ensures Valid() && View() == UartSpec.AfterHostInput(old(View()), input)
    {
      if rxCount == 16 {
        return;
      }
      match input
      case None =>
      case Some(byte) =>
        ghost var ring := rxFifo[..];
        RingPush(ring, rxTail, rxCount, byte);
        RingMoves(rxTail, rxCount);
        rxFifo[rxHead] := byte;
        assert rxFifo[..] == ring[Slot(rxTail, rxCount) := byte];
        rxHead := Slot(rxHead, 1);
        rxCount := rxCount + 1;
    }

    /** The receive-buffer case of a read: the oldest byte, or 0 from an empty queue. */
    method Receive() returns (value: bv8)
      requires Valid()
      modifies this`rxTail, this`rxCount
      ensures Valid() && Queue() == if old(Queue()) == [] then [] else old(Queue())[1..]
      ensures value == if old(Queue()) == [] then 0 else old(Queue())[0]
    {
      if rxCount == 0 {
        return 0;
      }
      RingPop(rxFifo[..], rxTail, rxCount);
      RingMoves(rxTail, rxCount);
      value := rxFifo[rxTail];
      rxTail := Slot(rxTail, 1);
      rxCount := rxCount - 1;
    }

    /** The identification case of a read, which may acknowledge the transmit interrupt. */
    method Identify() returns (value: bv8)
      requires Valid()
      modifies this`threPending
      ensures Valid() && View() == UartSpec.AfterRead(old(View()), UartSpec.IIR_FCR)
      ensures value == UartSpec.Identification(old(View()))
    {
      var fifo: bv8 := if fcr & 0x01 != 0 then 0xC0 else 0;
      if ier & 0x01 != 0 && rxCount > 0 {
        return fifo | 0x04;
      }
      if ier & 0x02 != 0 && threPending {
        threPending := false;
        return fifo | 0x02;
      }
      value := fifo | 0x01;
    }

    /** The line-status case of a read. */
    method LineStatus() returns (value: bv8)
      requires Valid()
      ensures value == UartSpec.ReadValue(View(), UartSpec.LSR)
    {
      value := 0x20 | 0x40;
      if rxCount > 0 {
        value := value | 0x01;
      }
    }

    method Read8(offset: int) returns (value: bv8)
      requires Valid()
      modifies this
      ensures Valid()
      ensures value == UartSpec.ReadValue(old(View()), offset)
      ensures View() == UartSpec.AfterRead(old(View()), offset)
    {
      if offset == 0 {
        if lcr & 0x80 != 0 {
          value := dll;
        } else {
          value := Receive();
        }
      } else if offset == 1 {
        value := if lcr & 0x80 != 0 then dlm else ier;
      } else if offset == 2 {
        value := Identify();
      } else if offset == 3 {
        value := lcr;
      } else if offset == 4 {
        value := mcr;
      } else if offset == 5 {
        value := LineStatus();
      } else if offset == 7 {
        value := scr;
      } else {
        value := 0;
      }
    }

    /** The interrupt-enable case of a write. */
    method WriteIer(value: bv8)
      requires Valid()
      modifies this`ier, this`threPending
      ensures Valid() && View() == UartSpec.WriteIer(old(View()), value)
    {
      var oldIer := ier;
      ier := value;
      if ier & 0x02 == 0 {
        threPending := false;
      }
      if oldIer & 0x02 == 0 && ier & 0x02 != 0 && txCount == 0 {
        threPending := true;
      }
    }

    /** The FIFO-control case of a write. */
    method WriteFcr(value: bv8)
      requires Valid()
      modifies this`rxHead, this`rxTail, this`rxCount, this`txCount, this`fcr
      ensures Valid() && View() == UartSpec.AfterWrite(old(View()), UartSpec.IIR_FCR, value)
    {
      if value & 0x02 != 0 {
        rxHead, rxTail, rxCount := 0, 0, 0;
      }
      if value & 0x04 != 0 {
        txCount := 0;
      }
      fcr := value & !(0x02 | 0x04);
      assert Queue() == if value & 0x02 != 0 then [] else old(Queue());
    }

    method Write8(offset: int, value: bv8)
      requires Valid()
      modifies this
      ensures Valid() && View() == UartSpec.AfterWrite(old(View()), offset, value)
    {
      if offset == 0 {
        if lcr & 0x80 != 0 {
          dll := value;
        } else {
          threPending := true;
        }
      } else if offset == 1 {
        if lcr & 0x80 != 0 {
          dlm := value;
        } else {
          WriteIer(value);
        }
      } else if offset == 2 {
        WriteFcr(value);
      } else if offset == 3 {
        lcr := value;
      } else if offset == 4 {
        mcr := value;
      } else if offset == 7 {
        scr := value;
      }
    }
  }
}
