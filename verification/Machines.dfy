/** The machine as a whole: its own translation unit in the theorems, and what its runs keep. */
module Machines {
  import opened Words
  import opened BusSpec
  import opened PagingSpec
  import PagingProofs
  import opened CsrSpec
  import opened Decoding
  import opened CpuSpec
  import opened Precise
  import opened Traps
  import opened Reservations
  import opened Modes

  /** What the step theorems ask of a translation unit, the machine's own satisfies. */
  lemma MachineIsSound(alu: Alu)
    ensures Lawful(Machine(alu).mmu) && Gentle(Machine(alu).mmu)
  {
    Sv39IsLawful();
    Sv39IsGentle();
  }

  // ----- time

  /** The machine software and timer interrupts. */
  const TIMER_LINES: bv64 := 0x88

  lemma SetsLine(w: bv64, on: bv64)
    requires on <= 1
    ensures BitAt(SetBit(w, 3, on), 3) == on && BitAt(SetBit(w, 7, on), 7) == on
  {
    if on == 0 {
    }
  }

  lemma KeepsSoftwareLine(w: bv64, on: bv64)
    ensures BitAt(SetBit(w, 7, on), 3) == BitAt(w, 3)
  {
    if on == 0 {
    }
  }

  lemma SoftwareLineOnly(w: bv64, on: bv64)
    ensures Without(SetBit(w, 3, on), TIMER_LINES) == Without(w, TIMER_LINES)
  {
    if on == 0 {
    }
  }

  lemma TimerLineOnly(w: bv64, on: bv64)
    ensures Without(SetBit(w, 7, on), TIMER_LINES) == Without(w, TIMER_LINES)
  {
    if on == 0 {
    }
  }

  function Line(on: bool): bv64 {
    if on then 1 else 0
  }

  lemma TickedPending(s: State)
    ensures Ticked(s).csrs[MIP]
         == SetBit(SetBit(s.csrs[MIP], 3, Line(s.bus.timer.msip % 2 == 1)), 7, Line(TimerDue(TimerTicked(s.bus.timer))))
  {
  }

  /** A tick moves time on by one, raises the timer line exactly when the compare value is reached and the
      software line exactly when its bit is set, and touches no other interrupt. */
  lemma TickDrivesLines(s: State)
    ensures var t', pending := Ticked(s).bus.timer, Ticked(s).csrs[MIP];
            && t' == s.bus.timer.(mtime := (s.bus.timer.mtime + 1) % 0x1_0000_0000_0000_0000)
            && BitAt(pending, 7) == Line(t'.mtime >= t'.mtimecmp)
            && BitAt(pending, 3) == Line(t'.msip % 2 == 1)
            && Without(pending, TIMER_LINES) == Without(s.csrs[MIP], TIMER_LINES)
  {
    var soft, due := Line(s.bus.timer.msip % 2 == 1), Line(TimerDue(TimerTicked(s.bus.timer)));
    TickedPending(s);
    SetsLine(s.csrs[MIP], soft);
    SetsLine(SetBit(s.csrs[MIP], 3, soft), due);
    KeepsSoftwareLine(SetBit(s.csrs[MIP], 3, soft), due);
    SoftwareLineOnly(s.csrs[MIP], soft);
    TimerLineOnly(SetBit(s.csrs[MIP], 3, soft), due);
  }

  // ----- runs that never enter the reserved mode

  /** No step of the run fetches an instruction that stores the reserved mode in MPP. */
  ghost predicate SparesRun(s: State, events: seq<Event>, core: Core)
    decreases |events|
  {
    || events == []
    || ((events[0].Stepped? ==> Spares(s, core)) && SparesRun(After(s, events[0], core), events[1..], core))
  }

  lemma EventStaysLegal(s: State, e: Event, core: Core)
    requires LegalModes(s) && Lawful(core.mmu) && (e.Stepped? ==> Spares(s, core))
    ensures LegalModes(After(s, e, core))
  {
    match e
    case Stepped => StepStaysLegal(s, core);
    case Tick =>
    case Input(_) =>
  }

  /** Over such a run the modes stay legal. */
  lemma {:induction false} RunStaysLegal(s: State, events: seq<Event>, core: Core)
    requires LegalModes(s) && Lawful(core.mmu) && SparesRun(s, events, core)
    ensures LegalModes(AfterAll(s, events, core))
    decreases |events|
  {
    if events != [] {
      EventStaysLegal(s, events[0], core);
      RunStaysLegal(After(s, events[0], core), events[1..], core);
    }
  }

  /** So at no point of such a run can a trap lower the privilege. */
  lemma TrapsNeverLowerPrivilege(s: State, events: seq<Event>, core: Core, cause: Cause, tval: bv64)
    requires LegalModes(s) && Lawful(core.mmu) && SparesRun(s, events, core)
    ensures var s' := AfterAll(s, events, core);
            RaiseException(s', cause, tval).priv >= s'.priv && RaiseInterrupt(s', cause).priv >= s'.priv
  {
    RunStaysLegal(s, events, core);
    TrapsLowerPrivilegeExactly(AfterAll(s, events, core), cause, tval);
  }
}
