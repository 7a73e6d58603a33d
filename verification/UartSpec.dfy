/** What the UART does, with its receive ring seen as a bounded queue. */
module UartSpec {
  import opened Words

  const FIFO_SIZE: nat := 16

  const RBR_THR: int := 0
  const IER: int := 1
  const IIR_FCR: int := 2
  const LCR: int := 3
  const MCR: int := 4
  const LSR: int := 5
  const SCR: int := 7

  datatype Uart = Uart(
    queue: seq<bv8>,
    ier: bv8, fcr: bv8, lcr: bv8, mcr: bv8, scr: bv8, dll: bv8, dlm: bv8,
    txCount: nat, threPending: bool)

  predicate Dlab(u: Uart) {
    u.lcr & 0x80 != 0
  }

  /** Offset 0 reads the receive buffer only while the divisor latch is closed. */
  predicate PopsQueue(u: Uart, offset: int) {
    offset == RBR_THR && !Dlab(u) && u.queue != []
  }

  function Identification(u: Uart): bv8 {
    var fifo: bv8 := if u.fcr & 0x01 != 0 then 0xC0 else 0;
    if u.ier & 0x01 != 0 && u.queue != [] then fifo | 0x04
    else if u.ier & 0x02 != 0 && u.threPending then fifo | 0x02
    else fifo | 0x01
  }

  function ReadValue(u: Uart, offset: int): bv8 {
    if offset == RBR_THR then (if Dlab(u) then u.dll else if u.queue == [] then 0 else u.queue[0])
    else if offset == IER then (if Dlab(u) then u.dlm else u.ier)
    else if offset == IIR_FCR then Identification(u)
    else if offset == LCR then u.lcr
    else if offset == MCR then u.mcr
    else if offset == LSR then (if u.queue == [] then 0x60 else 0x61)
    else if offset == SCR then u.scr
    else 0
  }

  /** Reading the receive buffer takes a byte; reading IIR may acknowledge the transmit interrupt. */
  function AfterRead(u: Uart, offset: int): Uart {
    if PopsQueue(u, offset) then u.(queue := u.queue[1..])
    else if offset == IIR_FCR && !(u.ier & 0x01 != 0 && u.queue != []) && u.ier & 0x02 != 0
      then u.(threPending := false)
    else u
  }

  function WriteIer(u: Uart, value: bv8): Uart {
    u.(ier := value,
       threPending := if value & 0x02 == 0 then false
                      else if u.ier & 0x02 == 0 && u.txCount == 0 then true
                      else u.threPending)
  }

  function AfterWrite(u: Uart, offset: int, value: bv8): Uart {
    if offset == RBR_THR then (if Dlab(u) then u.(dll := value) else u.(threPending := true))
    else if offset == IER then (if Dlab(u) then u.(dlm := value) else WriteIer(u, value))
    else if offset == IIR_FCR then
      u.(queue := if value & 0x02 != 0 then [] else u.queue,
         txCount := if value & 0x04 != 0 then 0 else u.txCount,
         fcr := value & 0xF9)
    else if offset == LCR then u.(lcr := value)
    else if offset == MCR then u.(mcr := value)
    else if offset == SCR then u.(scr := value)
    else u
  }

  function AfterHostInput(u: Uart, input: Option<bv8>): Uart {
    if |u.queue| == FIFO_SIZE || input == None then u else u.(queue := u.queue + [input.value])
  }

  datatype Event = HostInput(input: Option<bv8>) | Read(offset: int) | Write(offset: int, value: bv8)

  /** What has gone in and come out of the receive queue since it was last cleared. */
  datatype Traffic = Traffic(accepted: seq<bv8>, delivered: seq<bv8>)

  function Next(u: Uart, e: Event): Uart {
    match e
    case HostInput(input) => AfterHostInput(u, input)
    case Read(offset) => AfterRead(u, offset)
    case Write(offset, value) => AfterWrite(u, offset, value)
  }

  function Observe(u: Uart, t: Traffic, e: Event): Traffic {
    match e
    case HostInput(Some(b)) => if |u.queue| < FIFO_SIZE then t.(accepted := t.accepted + [b]) else t
    case Read(offset) =>
      if PopsQueue(u, offset) then t.(delivered := t.delivered + [ReadValue(u, offset)]) else t
    case Write(2, value) => if value & 0x02 != 0 then Traffic([], []) else t
    case _ => t
  }

  ghost predicate Conserved(u: Uart, t: Traffic) {
    |u.queue| <= FIFO_SIZE && t.delivered + u.queue == t.accepted
  }

  function Run(u: Uart, events: seq<Event>): Uart
    decreases |events|
  {
    if events == [] then u else Run(Next(u, events[0]), events[1..])
  }

  function Traced(u: Uart, t: Traffic, events: seq<Event>): Traffic
    decreases |events|
  {
    if events == [] then t else Traced(Next(u, events[0]), Observe(u, t, events[0]), events[1..])
  }

  /** First in, first out, nothing lost, duplicated or reordered: under any interleaving of host input,
      register reads and register writes, the delivered bytes followed by the queued ones are the
      accepted ones. */
  lemma {:induction false} ReceiveIsFifo(u: Uart, t: Traffic, events: seq<Event>)
    requires Conserved(u, t)
    ensures Conserved(Run(u, events), Traced(u, t, events))
    decreases |events|
  {
    if events != [] {
      EventConserves(u, t, events[0]);
      ReceiveIsFifo(Next(u, events[0]), Observe(u, t, events[0]), events[1..]);
    }
  }

  lemma EventConserves(u: Uart, t: Traffic, e: Event)
    requires Conserved(u, t)
    ensures Conserved(Next(u, e), Observe(u, t, e))
  {
    match e
    case HostInput(Some(b)) =>
      assert t.delivered + (u.queue + [b]) == t.accepted + [b];
    case HostInput(None) =>
    case Read(offset) => ReadConserves(u, t, offset);
    case Write(offset, value) => WriteConserves(u, t, offset, value);
  }

  lemma ReadConserves(u: Uart, t: Traffic, offset: int)
    requires Conserved(u, t)
    ensures Conserved(AfterRead(u, offset), Observe(u, t, Read(offset)))
  {
    if PopsQueue(u, offset) {
      assert t.delivered + [u.queue[0]] + u.queue[1..] == t.accepted;
    }
  }

  lemma WriteConserves(u: Uart, t: Traffic, offset: int, value: bv8)
    requires Conserved(u, t)
    ensures Conserved(AfterWrite(u, offset, value), Observe(u, t, Write(offset, value)))
  {
  }

  /** The line status register reports data exactly when the queue holds some. */
  lemma DataReadyExactly(u: Uart)
    ensures ReadValue(u, LSR) & 0x01 == 0x01 <==> u.queue != []
  {
  }
}
