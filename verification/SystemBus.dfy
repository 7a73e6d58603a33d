/** The bus of the virtual machine: routing a physical address to RAM, the UART or the timer. */
module SystemBus {
  import opened Words
  import opened Memory
  import opened BusSpec
  import PhysicalMemory
  import UartDevice

  class VmBus {
    const ram: PhysicalMemory.Ram
    const uart: UartDevice.Uart
    var msip: Word
    var mtime: Word
    var mtimecmp: Word

    /** Every object a bus operation may change. */
    ghost function Repr(): set<object> {
      {this, ram.mem, uart, uart.rxFifo}
    }

    ghost predicate Valid()
      reads Repr()
    {
      ram.Valid() && uart.Valid()
    }

    ghost function View(): Bus
      reads Repr()
      requires Valid()
    {
      Bus(ram.Contents(), Timer(msip, mtime, mtimecmp), uart.View())
    }

    constructor ()
      ensures Valid() && fresh(Repr())
      ensures View().timer == Timer(0, 0, 0xFFFF_FFFF_FFFF_FFFF) && View().uart.queue == []
      ensures forall a :: ByteAt(View().ram, a) == 0
    {
      ram := new PhysicalMemory.Ram();
      uart := new UartDevice.Uart();
      msip, mtime, mtimecmp := 0, 0, 0xFFFF_FFFF_FFFF_FFFF;
    }

    method Read8(a: int) returns (value: Word)
      requires Valid()
      modifies Repr()
      ensures Valid() && value == BusRead(old(View()), a, 1) && View() == AfterBusRead(old(View()), a, 1)
    {
      if InRange(a, MEM_BASE, MEM_SIZE) {
        value := ram.Read8(a);
        return;
      }
      if InRange(a, UART_BASE, UART_SIZE) {
        var b := uart.Read8(a - UART_BASE);
        return b as int;
      }
      value := 0;
    }

    method Read16(a: int) returns (value: Word)
      requires Valid()
      ensures value == BusRead(View(), a, 2)
    {
      if InRange(a, MEM_BASE, MEM_SIZE) {
        value := ram.Read16(a);
        return;
      }
      value := 0;
    }

    method TimerRead32(offset: int) returns (value: Word)
      requires Valid()
      ensures value == BusSpec.TimerRead32(View().timer, offset)
    {
      if offset == MSIP {
        value := msip % 2;
      } else if offset == MTIMECMP {
        value := mtimecmp % 0x1_0000_0000;
      } else if offset == MTIMECMP + 4 {
        value := mtimecmp / 0x1_0000_0000;
      } else if offset == MTIME {
        value := mtime % 0x1_0000_0000;
      } else if offset == MTIME + 4 {
        value := mtime / 0x1_0000_0000;
      } else {
        value := 0;
      }
    }

    method Read32(a: int) returns (value: Word)
      requires Valid()
      ensures value == BusRead(View(), a, 4)
    {
      if InRange(a, MEM_BASE, MEM_SIZE) {
        value := ram.Read32(a);
        return;
      }
      if InRange(a, UART_BASE, UART_SIZE) {
        return 0;
      }
      if InRange(a, TIMER_BASE, TIMER_SIZE) {
        value := TimerRead32(a - TIMER_BASE);
        return;
      }
      value := 0;
    }

    method TimerRead64(offset: int) returns (value: Word)
      requires Valid()
      ensures value == BusSpec.TimerRead64(View().timer, offset)
    {
      if offset == MSIP {
        value := msip % 2;
      } else if offset == MTIMECMP {
        value := mtimecmp;
      } else if offset == MTIME {
        value := mtime;
      } else {
        value := 0;
      }
    }

    method Read64(a: int) returns (value: Word)
      requires Valid()
      ensures value == BusRead(View(), a, 8)
    {
      if InRange(a, MEM_BASE, MEM_SIZE) {
        value := ram.Read64(a);
        return;
      }
      if InRange(a, UART_BASE, UART_SIZE) {
        return 0;
      }
      if InRange(a, TIMER_BASE, TIMER_SIZE) {
        value := TimerRead64(a - TIMER_BASE);
        return;
      }
      value := 0;
    }

    method Write8(a: int, value: Word)
      requires Valid()
      modifies Repr()
      ensures Valid() && View() == BusWrite(old(View()), a, 1, value)
    {
      if InRange(a, MEM_BASE, MEM_SIZE) {
        ram.Write8(a, value);
        return;
      }
      if InRange(a, UART_BASE, UART_SIZE) {
        uart.Write8(a - UART_BASE, (value % 256) as bv8);
      }
    }

    method Write16(a: int, value: Word)
      requires Valid()
      modifies Repr()
      ensures Valid() && View() == BusWrite(old(View()), a, 2, value)
    {
      if InRange(a, MEM_BASE, MEM_SIZE) {
        ram.Write16(a, value);
      }
    }

    method Write32(a: int, value: Word)
      requires Valid()
      modifies Repr()
      ensures Valid() && View() == BusWrite(old(View()), a, 4, value)
    {
      if InRange(a, MEM_BASE, MEM_SIZE) {
        ram.Write32(a, value);
        return;
      }
      if InRange(a, UART_BASE, UART_SIZE) {
        return;
      }
      if InRange(a, TIMER_BASE, TIMER_SIZE) {
        TimerWrite32(a - TIMER_BASE, value);
      }
    }

    /** The other registers' new values are computed and dropped. */
    method TimerWrite32(offset: int, value: Word)
      requires Valid()
      modifies this`msip
      ensures Valid()
      ensures View() == old(View()).(timer := BusSpec.TimerWrite32(old(View()).timer, offset, value))
    {
      if offset == MSIP {
        msip := value % 2;
      }
    }

    /** The software-interrupt case goes on into the next one. */
    method TimerWrite64(offset: int, value: Word)
      requires Valid()
      modifies this`msip, this`mtimecmp, this`mtime
      ensures Valid()
      ensures View() == old(View()).(timer := BusSpec.TimerWrite64(old(View()).timer, offset, value))
    {
      if offset == MSIP {
        msip := value % 2;
      }
      if offset == MSIP || offset == MTIMECMP {
        mtimecmp := value;
        return;
      }
      if offset == MTIME {
        mtime := value;
      }
    }

    /** Time wraps around as a 64-bit counter does. */
    method TimerTick()
      requires Valid()
      modifies this`mtime
      ensures Valid() && View() == old(View()).(timer := BusSpec.TimerTicked(old(View()).timer))
    {
      mtime := (mtime + 1) % 0x1_0000_0000_0000_0000;
    }

    method Write64(a: int, value: Word)
      requires Valid()
      modifies Repr()
      ensures Valid() && View() == BusWrite(old(View()), a, 8, value)
    {
      if InRange(a, MEM_BASE, MEM_SIZE) {
        ram.Write64(a, value);
        return;
      }
      if InRange(a, UART_BASE, UART_SIZE) {
        return;
      }
      if InRange(a, TIMER_BASE, TIMER_SIZE) {
        TimerWrite64(a - TIMER_BASE, value);
      }
    }
  }
}
