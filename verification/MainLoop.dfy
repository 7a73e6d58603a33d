/** The program's loop: step, tick, and now and then a look at the host's input. */
module MainLoop {
  import opened Words
  import opened CpuSpec
  import opened Reservations
  import opened Machines
  import CpuDevice

  /** Host input is looked at every so many steps. */
  const INPUT_PERIOD: nat := 1000

  /** What one turn of the loop does; `counter` counts turns since the last look at the input. */
  function Turn(counter: nat, input: Option<bv8>): seq<Event> {
    if counter + 1 == INPUT_PERIOD then [Stepped, Tick, Input(input)] else [Stepped, Tick]
  }

  /** The events of the first `n` turns, given what the host would offer in each. */
  function Schedule(n: nat, inputs: nat -> Option<bv8>): seq<Event> {
    if n == 0 then [] else Schedule(n - 1, inputs) + Turn((n - 1) % INPUT_PERIOD, inputs(n - 1))
  }

  // ----- how often each thing happens

  function Count(events: seq<Event>, kind: Event -> bool): nat {
    if events == [] then 0 else (if kind(events[0]) then 1 else 0) + Count(events[1..], kind)
  }

  lemma {:induction false} CountsAdd(first: seq<Event>, second: seq<Event>, kind: Event -> bool)
    ensures Count(first + second, kind) == Count(first, kind) + Count(second, kind)
  {
    if first == [] {
      assert first + second == second;
    } else {
      assert (first + second)[1..] == first[1..] + second;
      CountsAdd(first[1..], second, kind);
    }
  }

  lemma TurnCounts(counter: nat, input: Option<bv8>, kind: Event -> bool)
    ensures Count(Turn(counter, input), kind)
         == Count([Stepped, Tick], kind) + if counter == 999 then Count([Input(input)], kind) else 0
  {
    if counter == 999 {
      assert Turn(counter, input) == [Stepped, Tick] + [Input(input)];
      CountsAdd([Stepped, Tick], [Input(input)], kind);
    }
  }

  lemma PairCounts(kind: Event -> bool)
    ensures Count([Stepped, Tick], kind) == (if kind(Stepped) then 1 else 0) + (if kind(Tick) then 1 else 0)
  {
    assert [Stepped, Tick][1..] == [Tick];
    assert Count([Tick], kind) == (if kind(Tick) then 1 else 0) + Count([Tick][1..], kind);
  }

  lemma InputCounts(input: Option<bv8>, kind: Event -> bool)
    ensures Count([Input(input)], kind) == if kind(Input(input)) then 1 else 0
  {
    assert [Input(input)][1..] == [];
  }

  /** In any number of turns the hart steps and the timer ticks once a turn, and the host's input is looked at in every
      thousandth. */
  lemma ScheduleCounts(n: nat, inputs: nat -> Option<bv8>)
    ensures Count(Schedule(n, inputs), (e: Event) => e.Stepped?) == n
    ensures Count(Schedule(n, inputs), (e: Event) => e.Tick?) == n
    ensures Count(Schedule(n, inputs), (e: Event) => e.Input?) == n / 1000
  {
    CountOfKind(n, inputs, (e: Event) => e.Stepped?);
    CountOfKind(n, inputs, (e: Event) => e.Tick?);
    CountOfKind(n, inputs, (e: Event) => e.Input?);
  }

  lemma {:induction false} CountOfKind(n: nat, inputs: nat -> Option<bv8>, kind: Event -> bool)
    requires forall input :: kind(Input(input)) == kind(Input(None))
    ensures Count(Schedule(n, inputs), kind) == Expected(n, kind(Stepped), kind(Tick), kind(Input(None)))
  {
    if n > 0 {
      CountOfKind(n - 1, inputs, kind);
      TurnAddsCount(n - 1, inputs, kind);
      ExpectedNext(n - 1, kind(Stepped), kind(Tick), kind(Input(None)));
    }
  }

  function Expected(n: nat, steps: bool, ticks: bool, inputs: bool): nat {
    (if steps then n else 0) + (if ticks then n else 0) + (if inputs then n / 1000 else 0)
  }

  lemma ExpectedNext(n: nat, steps: bool, ticks: bool, inputs: bool)
    ensures Expected(n + 1, steps, ticks, inputs)
         == Expected(n, steps, ticks, inputs) + (if steps then 1 else 0) + (if ticks then 1 else 0)
            + (if n % 1000 == 999 && inputs then 1 else 0)
  {
    Thousands(n);
  }

  lemma Thousands(n: nat)
    ensures (n + 1) / 1000 == n / 1000 + if n % 1000 == 999 then 1 else 0
  {
  }

  lemma TurnAddsCount(n: nat, inputs: nat -> Option<bv8>, kind: Event -> bool)
    ensures Count(Schedule(n + 1, inputs), kind)
         == Count(Schedule(n, inputs), kind) + (if kind(Stepped) then 1 else 0) + (if kind(Tick) then 1 else 0)
            + (if n % 1000 == 999 && kind(Input(inputs(n))) then 1 else 0)
  {
    CountsAdd(Schedule(n, inputs), Turn(n % INPUT_PERIOD, inputs(n)), kind);
    TurnCounts(n % INPUT_PERIOD, inputs(n), kind);
    PairCounts(kind);
    InputCounts(inputs(n), kind);
  }

  // ----- runs over any machine

  function Folded(s: State, events: seq<Event>, next: (State, Event) -> State): State
    decreases |events|
  {
    if events == [] then s else Folded(next(s, events[0]), events[1..], next)
  }

  ghost function Next(core: Core): (State, Event) -> State {
    (s, e) => After(s, e, core)
  }

  lemma {:induction false} RunIsFold(s: State, events: seq<Event>, core: Core)
    ensures AfterAll(s, events, core) == Folded(s, events, Next(core))
    decreases |events|
  {
    if events != [] {
      RunIsFold(Next(core)(s, events[0]), events[1..], core);
    }
  }

  lemma {:induction false} FoldsCompose(s: State, first: seq<Event>, second: seq<Event>,
                                        next: (State, Event) -> State)
    ensures Folded(s, first + second, next) == Folded(Folded(s, first, next), second, next)
    decreases |first|
  {
    if first == [] {
      assert first + second == second;
    } else {
      FoldsCompose(next(s, first[0]), first[1..], second, next);
      assert (first + second)[1..] == first[1..] + second;
    }
  }

  lemma FoldedTurn(s: State, counter: nat, input: Option<bv8>, next: (State, Event) -> State)
    ensures Folded(s, Turn(counter, input), next)
         == var s' := next(next(s, Stepped), Tick); if counter + 1 == INPUT_PERIOD then next(s', Input(input)) else s'
  {
    var turn := Turn(counter, input);
    var s1 := next(s, Stepped);
    var s2 := next(s1, Tick);
    assert turn[1..][0] == Tick;
    assert Folded(s, turn, next) == Folded(s1, turn[1..], next) == Folded(s2, turn[1..][1..], next);
    if counter + 1 == INPUT_PERIOD {
      assert turn[1..][1..] == [Input(input)];
      assert Folded(s2, [Input(input)], next) == Folded(next(s2, Input(input)), [Input(input)][1..], next);
    } else {
      assert turn[1..][1..] == [];
    }
  }

  lemma OneMoreTurn(s: State, i: nat, inputs: nat -> Option<bv8>, next: (State, Event) -> State)
    ensures Folded(s, Schedule(i + 1, inputs), next)
         == Folded(Folded(s, Schedule(i, inputs), next), Turn(i % INPUT_PERIOD, inputs(i)), next)
  {
    FoldsCompose(s, Schedule(i, inputs), Turn(i % INPUT_PERIOD, inputs(i)), next);
  }

  lemma NextCounter(i: nat, counter: nat)
    requires counter == i % INPUT_PERIOD
    ensures (i + 1) % INPUT_PERIOD == if counter + 1 == INPUT_PERIOD then 0 else counter + 1
  {
  }

  method StepAndTick(cpu: CpuDevice.Cpu)
    requires cpu.Valid()
    modifies cpu.Repr()
    ensures cpu.Valid()
    ensures var next := Next(Machine(cpu.alu)); cpu.View() == next(next(old(cpu.View()), Stepped), Tick)
  {
    cpu.Step();
    cpu.Tick();
  }

  method TakeTurn(cpu: CpuDevice.Cpu, counter: nat, input: Option<bv8>) returns (counter': nat)
    requires cpu.Valid()
    modifies cpu.Repr()
    ensures cpu.Valid() && cpu.View() == Folded(old(cpu.View()), Turn(counter, input), Next(Machine(cpu.alu)))
    ensures counter' == if counter + 1 == INPUT_PERIOD then 0 else counter + 1
  {
    FoldedTurn(cpu.View(), counter, input, Next(Machine(cpu.alu)));
    StepAndTick(cpu);
    counter' := counter + 1;
    if counter' == INPUT_PERIOD {
      cpu.HandleHostInput(input);
      counter' := 0;
    }
  }

  lemma FaithfulFold(s: State, events: seq<Event>, alu: Alu)
    requires !s.reservation.valid
    ensures AfterAll(s, events, Machine(alu)) == Folded(s, events, Next(Machine(alu)))
    ensures Faithful(AfterAll(s, events, Machine(alu)), RememberedAll(s, events, Machine(alu), 0))
  {
    var core := Machine(alu);
    RunIsFold(s, events, core);
    MachineIsSound(alu);
    RunsAreFaithful(s, events, core, 0);
  }

  /** Any number of turns of the loop are exactly the scheduled events, so what the theorems say of runs holds
      of the program: its reservation stays faithful to memory. */
  method Run(cpu: CpuDevice.Cpu, n: nat, inputs: nat -> Option<bv8>)
    requires cpu.Valid() && !cpu.reservation.valid
    modifies cpu.Repr()
    ensures cpu.Valid()
    ensures cpu.View() == AfterAll(old(cpu.View()), Schedule(n, inputs), Machine(cpu.alu))
    ensures Faithful(cpu.View(), RememberedAll(old(cpu.View()), Schedule(n, inputs), Machine(cpu.alu), 0))
  {
    ghost var s0, next := cpu.View(), Next(Machine(cpu.alu));
    var counter := 0;
    for i := 0 to n
      invariant cpu.Valid() && counter == i % INPUT_PERIOD
      invariant cpu.View() == Folded(s0, Schedule(i, inputs), next)
    {
      OneMoreTurn(s0, i, inputs, next);
      NextCounter(i, counter);
      counter := TakeTurn(cpu, counter, inputs(i));
    }
    FaithfulFold(s0, Schedule(n, inputs), cpu.alu);
  }
}
