# Verification of the RISC-V virtual machine

A model in Dafny of a single-hart RV64IMA machine with machine, supervisor and user privilege and Sv39 paging:
the page-table walker over little-endian RAM, loads, stores and atomics, traps, interrupts and returns, the CSR
file with its supervisor views, multiplication and division, instruction decoding, the UART and the timer.

The model has two halves.

- *Specification and theorems*, on values. `State` is the whole hart with its bus; every instruction is a function from
  a state to an `Effect` (it completes, or raises an exception from the state it has got to), and `Step` composes
  them. Theorems about the instruction set hold for every integer unit `alu`, and for every translation unit that is
  `Lawful` and, for reservations, `Gentle`; `Machines.MachineIsSound` shows the machine's own Sv39 unit to be both.
- *The program*, in place. `Ram` is one byte array, `Uart` has its receive ring with head, tail and count, `VmBus` owns
  the devices, and `Cpu` updates its registers, CSRs and fields as the C functions do. Each method is proved to do
  exactly what the specification says (`View()` before and after), so every theorem speaks about `Cpu.Step`
  and, through `MainLoop.Run`, about the program's loop.

Modules, one a file, bottom up. Specification: `Words`, `Digits` and `BitFields` (words and numbers), `Memory`,
`UartSpec`, `BusSpec`, `PagingSpec`, `CsrSpec`, `Decoding`, `CpuSpec`. Theorems: `PagingProofs`, `PagingExact`,
`StoreLoad`, `Precise`, `Confinement`, `Traps`, `TrapStack`, `StepProofs`, `Reservations`, `CompareAndSwap`, `Modes`,
`Machines`, `CsrViews`, `CsrLaws`, `Comparisons`, `MExtension`, `Encoding`. The program: `PhysicalMemory`, `UartDevice`,
`SystemBus`, `Paging`, `CpuDevice`, `MainLoop`. `dafny verify dfyconfig.toml` checks all; no other option is needed.

A further group of modules states what the machine does without the specification's own functions, in instruction words, register
addresses, bit positions and numbers, and proves the specification to be that: `Numbers`, `Translation`, `DataAccess`,
`AtomicEffects`, `AmoEffects`, `Interrupts`, `ControlFlow`, `CsrReference`, `SystemWords`, `MInstructions`,
`Instructions` and `Devices`. A reader who wants to know what is proved of an operation can begin there.

Registers, CSRs, pc and instruction words are bit vectors, so wrap-around and masking are the machine's own. Memory,
page-table entries and physical addresses are integers with explicit bounds. `Digits` proves the two readings of a
word inverse to each other, and `BitFields` that fields put together with shifts and OR denote their weighted sum.
Page-table entries outside RAM read as 0 or as a timer register, as on the bus.

Where code and expectation differ the code is modelled. The hart does not legalise MPP (`Modes` gives the exact
condition and a witness); MRET and SRET leave MPRV alone; 32-bit timer writes other than MSIP are dropped and a 64-bit
write of MSIP also writes the compare register; one interrupt check may take a delegated interrupt before a machine
one, in table order; sepc is aligned when read as a CSR but SRET uses the stored value.

Standards cited: RISC-V Privileged Architecture, version 20211203 (sections 3.1.6.1, 3.1.8, 3.1.9, 3.3.2, 4.1.1, 4.1.3,
4.3.2, 4.4), and Unprivileged ISA, version 20191213 (sections 2.3, 7.1, 7.2, 8.2, 8.4, 9.1).

## Model

| member | source | states |
|---|---|---|
| `PagingProofs.MappingSurvivesWalks` | src/cpu/paging.c:80-148 | after any finite run of translations, by any mode, address and access, through tables that may alias or map themselves, every access still finds the same physical address or fault |
| `PagingProofs.WalksOnlySetStatus` | src/cpu/paging.c:133-143 | over any run of translations each aligned word keeps all bits but A and D, and neither of those is ever cleared |
| `PagingProofs.WalkWrites` | src/cpu/paging.c:133-143 | the whole effect of one translation on page-table memory: the used leaf gains A (and D for a store), every other aligned word is as before |
| `PagingProofs.FaultWritesNothing` | src/cpu/paging.c:64-154 | a translation that faults leaves memory and devices untouched |
| `PagingProofs.WalkSparesDevices` | src/cpu/paging.c:140-143 | no translation touches the UART or the software-interrupt bit, wherever the tables lie |
| `PagingProofs.RepeatWritesNothing` | src/cpu/paging.c:133-147 | repeating an access, or loading after storing, gives the same answer and writes nothing |
| `PagingProofs.SuperpageAffine` | src/cpu/paging.c:43-62 | a leaf at any level maps its whole region by one constant offset, with one permission |
| `PagingProofs.MapSurvives` | src/cpu/paging.c:80-148 | entries that differ in A and D bits only give the same translation |
| `PagingExact.LeafFoundExactly` | src/cpu/paging.c:80-113 | the walk finds a leaf if and only if the entries above some level are pointers and the entry there is a usable leaf; it is that one |
| `PagingExact.TranslatesExactly` | src/cpu/paging.c:156-188 | an access reaches a physical address if and only if translation is off, or Sv39 is on and the address is canonical, the entries lead to a leaf, the superpage is aligned and the access permitted; otherwise it faults |
| `Translation.TranslatesByWords` | src/cpu/paging.c:156-188 | for every memory, register value, address and access: an address translates to a physical one if and only if translation is off and it is that address, or satp selects Sv39, the address is canonical, and the words of memory lead to a leaf, aligned to its size, whose bits allow the access; then it is the page of the leaf plus the offset. Spelled in the words' numbers: X to fetch, R (or MXR and X) to load, W to store, U for user mode, SUM and no fetch for supervisor mode on a user page, and the mode from priv, MPRV and MPP |
| `Translation.LeafBitsDecide` | src/cpu/paging.c:115-131 | once the words lead to an aligned leaf, its permission bits alone decide |
| `Translation.MarksByWords` | src/cpu/paging.c:133-143 | a translation that succeeds adds 64 to the leaf's word if A was clear, and 128 if it is a store and D was clear; every other aligned word is as before |
| `Paging.CheckUpperBits` | src/cpu/paging.c:14-23 | true exactly for the addresses whose bits 63 to 38 are all equal |
| `Paging.CheckPriviledge` | src/cpu/paging.c:25-41 | user mode needs U; supervisor mode never fetches from a U page and reads or writes one only with SUM |
| `Paging.SplitEntry` | src/cpu/paging.c:84-99 | the bits and page numbers shifted out of an entry are its fields, and the three page numbers make up its PPN |
| `Paging.CheckLeaf` | src/cpu/paging.c:115-131 | decides exactly alignment, privilege and permission of a leaf, MXR included |
| `Paging.MarkLeaf` | src/cpu/paging.c:133-143 | writes the entry back only if A or D is missing, with exactly those bits added |
| `Paging.Descend` | src/cpu/paging.c:70-113 | the descending loop ends within three levels with the leaf of the recursive walk, or with none when it has none |
| `Paging.UseLeaf` | src/cpu/paging.c:115-147 | a granted access yields the leaf's address and marks it; a refused one changes nothing |
| `Paging.Sv39Walk` | src/cpu/paging.c:64-154 | the loop over the bus refines the mapping: same answer, same memory afterwards, for every table |
| `Paging.TranslateOn` | src/cpu/paging.c:156-188 | mode choice, MPRV and the walk together refine the mapping |
| `BitFields.AddressOfFields` | src/cpu/paging.c:61-61 | for fields within their widths the OR of the shifted fields denotes exactly their weighted sum: no two share a bit |
| `BitFields.AddressIsSum` | src/cpu/paging.c:61-61 | the same for the numbers the walker has split off |
| `BitFields.NumberIsSum` | src/cpu/paging.c:110-110 | the three parts of a page number, put together with OR, denote its value |
| `BitFields.TableIsProduct` | src/cpu/paging.c:111-111 | the shifted page number denotes 4096 times it |
| `Paging.AssembledAddress` | src/cpu/paging.c:43-62 | the address put together with OR, lower page numbers taken from the virtual address in a superpage, is the leaf's region plus the offset in it |
| `Paging.AssembledIsAffine` | src/cpu/paging.c:43-62 | so within the region of one leaf the OR-assembled address moves with the virtual address by one constant offset |
| `Paging.RejoinedTable` | src/cpu/paging.c:110-111 | the split page number, rejoined with OR and shifted, is the table the entry points to |
| `Paging.TouchedByOr` | src/cpu/paging.c:133-138 | setting A, and D for a store, with OR changes the entry by exactly those bits |
| `PhysicalMemory.WordLoads` | src/memory/memory.c:120-129 | four bytes put together with shifts and OR are the little-endian value |
| `PhysicalMemory.DoubleLoads` | src/memory/memory.c:131-148 | eight bytes put together with shifts and OR are the little-endian value |
| `Memory.ReadAfterWrite` | src/memory/memory.c:42-148 | for any two widths and any overlap, each byte read is the stored byte where the store reached and the old one elsewhere |
| `Memory.LoadAfterStore` | src/memory/memory.c:42-148 | what is loaded from where it was stored is the value cut to the width |
| `Memory.LoadElsewhere` | src/memory/memory.c:42-148 | a store leaves every disjoint load alone |
| `Memory.LoadedByte` | src/memory/memory.c:98-148 | a load assembles the bytes at its addresses, lowest first |
| `PhysicalMemory.Ram.Write8` | src/memory/memory.c:42-52 | in the array, one byte changes, or none out of range |
| `PhysicalMemory.Ram.Write16` | src/memory/memory.c:54-64 | the array becomes the old contents overlaid by two little-endian bytes, or stays when out of range |
| `PhysicalMemory.Ram.Write32` | src/memory/memory.c:66-78 | the array becomes the old contents overlaid by four little-endian bytes, or stays when out of range |
| `PhysicalMemory.Ram.Write64` | src/memory/memory.c:80-96 | the array becomes the old contents overlaid by eight little-endian bytes, or stays when out of range |
| `PhysicalMemory.Ram.Read8` | src/memory/memory.c:98-107 | the byte of the contents, 0 out of range |
| `PhysicalMemory.Ram.Read16` | src/memory/memory.c:109-118 | the little-endian value of the contents, 0 out of range |
| `PhysicalMemory.Ram.Read32` | src/memory/memory.c:120-129 | the little-endian value of the contents, 0 out of range |
| `PhysicalMemory.Ram.Read64` | src/memory/memory.c:131-148 | the little-endian value of the contents, 0 out of range |
| `BusSpec.AlignedWrite` | src/memory/bus.c:163-186 | two aligned words are the same or share no byte: a 64-bit write changes what is read at its own address, if that is backed, and at no other |
| `SystemBus.VmBus.Read8` | src/memory/bus.c:15-31 | routes to RAM or the UART; only a UART read has a side effect |
| `SystemBus.VmBus.Read16` | src/memory/bus.c:33-52 | RAM only; 0 elsewhere |
| `SystemBus.VmBus.Read32` | src/memory/bus.c:54-72 | RAM or the timer; 0 elsewhere |
| `SystemBus.VmBus.Read64` | src/memory/bus.c:74-93 | RAM or the timer; 0 elsewhere |
| `SystemBus.VmBus.Write8` | src/memory/bus.c:95-115 | changes RAM or the UART as specified, and nothing for other addresses |
| `SystemBus.VmBus.Write16` | src/memory/bus.c:117-138 | changes RAM, and nothing for other addresses |
| `SystemBus.VmBus.Write32` | src/memory/bus.c:140-161 | changes RAM or the timer, and nothing for other addresses |
| `SystemBus.VmBus.Write64` | src/memory/bus.c:163-186 | changes RAM or the timer, and nothing for other addresses |
| `BusSpec.TimerHalves` | src/devices/timer.c:14-32 | the two 32-bit reads of a timer register are the halves of its 64-bit read, low half first |
| `BusSpec.TimerReadsBack` | src/devices/timer.c:14-52 | a 64-bit write of mtime or mtimecmp comes back through reads of either width and reaches nothing else |
| `BusSpec.NarrowTimerWrite` | src/devices/timer.c:34-43 | a 32-bit write into the timer shows in no later read but that of the software-interrupt bit |
| `SystemBus.VmBus.TimerWrite32` | src/devices/timer.c:34-43 | only the software-interrupt bit can change: the other results are dropped |
| `SystemBus.VmBus.TimerWrite64` | src/devices/timer.c:45-52 | writing MSIP also writes the compare register |
| `DataAccess.LoadExactly` | src/cpu/instructions/dispatchers/load.c:5-79 | what a load does, by its code: cause 2, cause 13 with the address, or rd holds the signed (codes 0 to 3) or unsigned (4 to 6) number of its 1, 2, 4 or 8 bytes at the translated address, and nothing else changes |
| `DataAccess.StoreExactly` | src/cpu/instructions/dispatchers/store.c:4-41 | what a store does, by its code: cause 2, cause 15 with the address, or the low 1, 2, 4 or 8 bytes of rs2 are in memory at the translated address, every other byte and register as before |
| `StoreLoad.StoreThenLoad` | src/cpu/paging.c:101-131 | after a store through virtual memory a load of the same address in the same mode cannot fault, finds the same physical address, marks nothing and reads the value, provided the bytes lie in RAM and are not entries of the walk |
| `StoreLoad.StoreThenLoadInstruction` | src/cpu/instructions/dispatchers/load.c:5-79 | SB/SH/SW/SD then the load of that width leaves in rd the low bytes of rs2, sign- or zero-extended as the load demands, and changes nothing else |
| `StoreLoad.StoreGrantsLoad` | src/cpu/paging.c:101-131 | a page that may be stored to may be loaded from, at the same address |
| `Reservations.RunsAreFaithful` | src/cpu/cpu.c:18-31 | over any run of steps, ticks and host input a valid reservation in RAM stands for bytes equal to what the last completed LR read, up to A and D bits of page-table leaves |
| `AtomicEffects.LrExactly` | src/cpu/instructions/dispatchers/a_extension.c:156-208 | what LR does, in either width: cause 2 for an rs2 field, cause 4 or 13 with the address, or rd holds the signed number of the bytes at the translated address, that address and width are reserved, and nothing else changes |
| `AtomicEffects.LrStep` | src/cpu/instructions/dispatchers/a_extension.c:156-208 | the same of a whole step, from registers before it to registers after it |
| `AtomicEffects.RunRemembersLr` | src/cpu/instructions/dispatchers/a_extension.c:156-208 | the value that a run remembers after such a step is the one rd stands for |
| `AtomicEffects.ScExactly` | src/cpu/instructions/dispatchers/a_extension.c:210-258 | what SC does: cause 6 or 15 with the address, or it stores the low bytes of rs2 and leaves 0 in rd exactly if a valid reservation has its address and width, and else leaves 1 and memory alone; the reservation goes, the rest stays |
| `AtomicEffects.LoadThenStoreConditional` | src/cpu/instructions/dispatchers/a_extension.c:156-258 | LR, then any run without another LR, then SC, from any state: the SC settles by the number that LR left in rd: success is a swap over exactly that word (up to A and D bits) |
| `AmoEffects.AmoExactly` | src/cpu/instructions/dispatchers/a_extension.c:6-154 | what an AMO of either width does in RAM: cause 6 or 15 with the address, or the word becomes the sum modulo 2^(8n) (ADD), the low bytes of rs2 (SWAP), their digit-by-digit XOR, OR or AND, or the smaller or larger signed or unsigned number; rd holds the number that was there, and every other byte and register is as before |
| `AmoEffects.AmoStep` | src/cpu/instructions/dispatchers/a_extension.c:6-154 | the same of a whole step |
| `Numbers.AddNumber` | src/cpu/instructions/dispatchers/a_extension.c:30-32 | adding words adds the numbers they stand for modulo 2^64 |
| `Numbers.ExtensionKeepsNumber` | src/cpu/instructions/decoding.c:5-15 | sign-extending bytes to a register keeps the number they stand for |
| `CompareAndSwap.ScIsCompareAndSwap` | src/cpu/instructions/dispatchers/a_extension.c:210-258 | after any run from a machine without a reservation, a step that executes SC reports success and stores exactly if its reservation stands, over a value the last LR read; else it reports failure and stores nothing; the reservation is gone either way |
| `CompareAndSwap.ReservationBrokenExactly` | src/cpu/cpu.c:18-31 | a valid reservation is broken by an instruction if and only if that completes an overlapping store or AMO or any SC; all else but a completed LR leaves it, traps included |
| `CompareAndSwap.RunLeavesReservation` | src/cpu/cpu.c:203-221 | a run of any length without such instructions leaves the reservation as it was |
| `CompareAndSwap.ScSucceedsExactly` | src/cpu/instructions/dispatchers/a_extension.c:210-258 | after such a run a step that executes SC succeeds if and only if its width and translated address are those reserved, and stores exactly then |
| `Reservations.MissedBytes` | src/cpu/cpu.c:18-31 | in RAM the wrapped interval test lets a store through exactly when it misses every reserved byte |
| `Reservations.StepFaithful` | src/cpu/cpu.c:203-221 | one step, with its page walks, traps and interrupts, keeps that agreement |
| `Reservations.Sv39IsGentle` | src/cpu/paging.c:133-147 | translations set A and D bits only and keep an address's position in its doubleword |
| `Comparisons.AtomicsChooseByNumber` | src/cpu/instructions/dispatchers/a_extension.c:40-65 | AMOMIN/MAX and their unsigned forms choose, in both widths, by the numbers the operands stand for |
| `Comparisons.BranchesCompareNumbers` | src/cpu/instructions/dispatchers/branch.c:5-75 | the six branch conditions are the comparisons of the registers as signed or unsigned numbers |
| `Traps.ExceptionTraps` | src/cpu/trap.c:43-63 | an exception changes mode, pc, trap flag, mstatus and three CSRs of the handling mode only, saves pc, cause and value there, and lands at that mode's vector |
| `Traps.InterruptTraps` | src/cpu/trap.c:65-84 | the same for an interrupt, with the interrupt bit in the cause and value 0 |
| `Traps.TrapsLowerPrivilegeExactly` | src/cpu/trap.c:43-84 | a trap lowers the privilege if and only if the mode was the reserved one and the cause is delegated |
| `Traps.InterruptTakenExactly` | src/cpu/cpu.c:101-146 | the check takes a trap exactly when some pending, enabled cause is takeable; it takes the first of the table and lands where delegation sends it |
| `Interrupts.InterruptByBits` | src/cpu/cpu.c:101-146 | the check takes the first of 11, 3, 7, 9, 1, 5 whose bit is set in mip and in mie and which the mode lets through: kept for machine mode by mideleg, it needs MIE in machine mode; delegated, it never interrupts machine mode and needs SIE in supervisor mode. It is handled where mideleg says with cause 2^63 + c and value 0; if there is none, nothing changes |
| `Interrupts.ExceptionByBits` | src/cpu/trap.c:43-63 | an exception goes to supervisor mode exactly if it does not come from machine mode and its medeleg bit is set; the saved registers, the vector and every bit of mstatus that changes are given by address and position |
| `ControlFlow.InterruptsComeLast` | src/cpu/cpu.c:203-221 | a step checks for interrupts last: the one taken resumes where execution would have gone on, after a completed instruction or after a trap |
| `Traps.InterruptsSettle` | src/cpu/cpu.c:101-146 | checking again and again takes at most two traps |
| `TrapStack.MretUndoesTrap` | src/cpu/instructions/dispatchers/system.c:63-85 | MRET returns to the interrupted mode and pc from any handler that has mepc, MPP and MPIE back in place at the end: MIE as interrupted, MPIE set, MPP user, every other bit as the handler left it |
| `TrapStack.MachineRestoredBits` | src/cpu/instructions/dispatchers/system.c:73-80 | those bits of mstatus one by one |
| `TrapStack.SretUndoesTrap` | src/cpu/instructions/dispatchers/system.c:40-61 | SRET returns to the interrupted user or supervisor code from any handler that has sepc, SPP and SPIE back in place at the end: SIE as interrupted, SPIE set, SPP user, every other bit as the handler left it |
| `TrapStack.SupervisorRestoredBits` | src/cpu/instructions/dispatchers/system.c:48-53 | those bits of mstatus one by one |
| `TrapStack.NestedTrapsUnwind` | src/cpu/trap.c:7-41 | U to S trap to M trap to MRET to SRET resumes first the supervisor handler and then the user code, each with mode, pc and its enable bit restored, when each handler answers for its own saved pc and stacked bits |
| `TrapStack.QuietNestRestoresAll` | src/cpu/trap.c:7-41 | if the handlers leave the rest of mstatus alone, nothing of it differs in the end but xPIE set and xPP user |
| `StepProofs.ExceptionsArePrecise` | src/cpu/cpu.c:40-99 | any instruction word that traps has changed no memory, register or reservation, and its own pc is the one saved in the handling mode |
| `Precise.AmoCodesAgree` | src/cpu/instructions/dispatchers/a_extension.c:260-276 | the dispatcher's list of AMO codes and the operation's switch are the same list |
| `Precise.AmoAtCleanExactly` | src/cpu/instructions/dispatchers/a_extension.c:23-78 | behind its translation an AMO is precise if and only if the operation knows the code, or the translation faulted or marked nothing |
| `Precise.InstructionClean` | src/cpu/cpu.c:40-99 | every non-system instruction either raises in the state it began in or completes without touching CSRs, privilege or the trap flag |
| `StepProofs.FetchFaultsArePrecise` | src/cpu/cpu.c:165-177 | a fetch that faults is the trap alone, with the step's own pc saved and as value |
| `ControlFlow.JalGoes` | src/cpu/instructions/dispatchers/jal.c:5-14 | JAL goes its offset on from pc modulo 2^64, rd holds pc + 4, and nothing else changes |
| `ControlFlow.JalrGoes` | src/cpu/instructions/dispatchers/jalr.c:4-10 | JALR goes to rs1 (as it was) plus the offset with the lowest bit dropped, and links likewise |
| `ControlFlow.BranchGoes` | src/cpu/instructions/dispatchers/branch.c:5-75 | a branch goes its offset on exactly if its comparison of the two numbers holds, and otherwise changes nothing; codes 2 and 3 raise cause 2 |
| `ControlFlow.JumpStep` | src/cpu/cpu.c:203-221 | what a whole step of a jump or branch leaves in pc: the target, or pc + 4 for a branch not taken |
| `ControlFlow.CountersAdvance` | src/cpu/cpu.c:203-221 | mcycle advances by one in every step and minstret by one exactly if the instruction completes, interrupts or not, unless a system instruction writes them |
| `ControlFlow.FetchFault` | src/cpu/cpu.c:165-177 | a fetch that faults enters the handler of cause 12, chosen by medeleg bit 12, with pc saved and as value |
| `ControlFlow.UnknownWords` | src/cpu/cpu.c:94-97 | a word with none of the opcodes raises cause 2 with the word as value |
| `ControlFlow.FenceWords` | src/cpu/instructions/dispatchers/misc_mem.c:5-26 | a fence does nothing; its other codes, and an instruction fence with a nonzero field, raise cause 2 |
| `StepProofs.StepsGoOn` | src/cpu/cpu.c:33-38 | a step without a trap of an instruction that cannot jump goes on to the next word and counts one instruction |
| `StepProofs.JumpsAreForgotten` | src/cpu/cpu.c:203-221 | the jump flag of one step never reaches the next, fetch faults included |
| `MainLoop.Run` | apps/vm_main.c:31-42 | any number of turns of the loop over the program in place is the scheduled run of steps, ticks and input, so its reservation stays faithful to memory |
| `MainLoop.TakeTurn` | apps/vm_main.c:33-42 | one turn is a step, a tick and, every thousandth time, host input |
| `StepProofs.PrivilegeRisesByTrapOnly` | src/cpu/cpu.c:203-221 | a step that ends more privileged than it began ends with trap_taken at the vector of its new mode, even when an exception is followed by an interrupt |
| `StepProofs.StepsAreConfined` | src/cpu/csrs/csr.c:10-18 | a user step without a trap changes no CSR but the two counters; a supervisor step changes mstatus, mie and mip only where its views show and no other machine CSR |
| `StepProofs.QuietStep` | src/cpu/cpu.c:203-221 | a step without a trap is one instruction, completed, between the two counters |
| `Confinement.WriteConfined` | src/cpu/csrs/csr.c:65-87 | a permitted CSR write stays within the confines of the writing mode |
| `Confinement.SystemOrderly` | src/cpu/instructions/dispatchers/system.c:235-264 | every system instruction raises in the state it began in or completes without raising the privilege and within its mode's confines |
| `Modes.InstructionLegalExactly` | src/cpu/csrs/mcsr.c:21-34 | legal modes stay legal through an instruction if and only if it is not a machine-mode CSR write of mstatus that stores 2 in MPP |
| `Modes.ReservedModeReachable` | src/cpu/instructions/dispatchers/system.c:71-81 | the two concrete instruction words by which machine mode enters the reserved level |
| `Modes.StepStaysLegal` | src/cpu/cpu.c:203-221 | whole steps never enter the reserved level by themselves |
| `Machines.RunStaysLegal` | src/cpu/cpu.c:203-221 | over any run of steps, ticks and host input without such a write the modes stay legal |
| `Machines.TrapsNeverLowerPrivilege` | src/cpu/trap.c:43-84 | at no point of such a run can a trap lower the privilege |
| `Machines.MachineIsSound` | src/cpu/paging.c:156-188 | the machine's own translation unit meets what the step and run theorems ask of one |
| `Machines.TickDrivesLines` | src/vm/vm.c:57-61 | after a tick the timer line is up exactly when the compare value is reached and the software line exactly when its bit is set; no other interrupt changes |
| `CsrViews.WriteThenRead` | src/cpu/csrs/scsr.c:4-18 | through sstatus, sie and sip what is written is read back on the bits shown, for every mideleg |
| `CsrViews.ReadThenWrite` | src/cpu/csrs/scsr.c:67-106 | writing back what a view read changes nothing |
| `CsrViews.WriteThenWrite` | src/cpu/csrs/scsr.c:67-106 | of two writes through a view the last wins |
| `CsrViews.ViewInstruction` | src/cpu/instructions/dispatchers/system.c:115-162 | CSRRS and CSRRC on a view set or clear in the base register exactly the shown operand bits, leave the old value in rd, and change nothing else |
| `CsrReference.ReadableExactly` | src/cpu/csrs/csr.c:20-63 | which mode reads which register, by address: the ten supervisor registers from supervisor mode on, the machine ones in machine mode, cycle, time and instret by bits 0, 1 and 2 of mcounteren and scounteren, and no other |
| `CsrReference.WritableExactly` | src/cpu/csrs/csr.c:10-18 | which mode writes which register, by address |
| `CsrReference.ReadsByAddress` | src/cpu/csrs/ucsr.c:4-28 | what is read: mcycle and minstret under cycle and instret, the timer under time, the supervisor bits of mstatus (and UXL), mie and mip, sepc aligned, and all else as stored |
| `CsrReference.WritesByAddress` | src/cpu/csrs/mcsr.c:7-141 | what a write changes: only the register behind the address, in exactly the listed bits, which take the value's; trap vectors take all but the two low bits, which become 0 |
| `SystemWords.CsrInstruction` | src/cpu/instructions/dispatchers/system.c:91-233 | what each of the six CSR instructions does, by its code: rs1 or its field as operand, replace, set or clear, rd the old value, cause 2 if a read or write it makes is not permitted, no read for x0 and no write for a zero field |
| `SystemWords.CallsAndWaits` | src/cpu/instructions/dispatchers/system.c:7-21 | ECALL raises cause 8, 9 or 11 by mode and EBREAK cause 3; WFI does nothing |
| `SystemWords.MretReturns` | src/cpu/instructions/dispatchers/system.c:63-85 | MRET, for machine mode alone, by bits: the mode from bits 12 and 11, pc from mepc, bit 3 from bit 7, bit 7 set, bits 12 and 11 clear, the rest unchanged |
| `SystemWords.SretReturns` | src/cpu/instructions/dispatchers/system.c:40-61 | SRET, not for user mode, by bits: the mode from bit 8, pc from sepc, bit 1 from bit 5, bit 5 set, bit 8 clear, the rest unchanged |
| `SystemWords.FenceExactly` | src/cpu/instructions/dispatchers/system.c:23-38 | SFENCE.VMA does nothing, but is illegal in user mode and, with bit 20 of mstatus, in supervisor mode |
| `CsrLaws.ReadersAreNested` | src/cpu/csrs/csr.c:20-63 | what a mode may read every more privileged mode reads too, with the same value |
| `CsrLaws.WritersAreReaders` | src/cpu/csrs/csr.c:10-43 | whoever may write a register may read it |
| `CsrLaws.WriteShowsExactly` | src/cpu/csrs/csr.c:45-87 | for every CSR, a read after a write shows the written value on the bits a write can change and the old one elsewhere, unless an unaligned trap vector is aligned by the write |
| `CsrLaws.ReadThenWriteExactly` | src/cpu/csrs/csr.c:45-87 | for every CSR, writing back what was read changes nothing, if and only if no low bits of a trap vector or of sepc are stored |
| `CsrLaws.LastWriteWins` | src/cpu/csrs/csr.c:65-87 | for every CSR, of two writes the last wins |
| `MExtension.SignedProduct` | src/cpu/instructions/dispatchers/m_extension.c:12-20 | MULH and MUL hold the exact signed 128-bit product |
| `MExtension.MixedProduct` | src/cpu/instructions/dispatchers/m_extension.c:22-30 | MULHSU and MUL hold the exact signed-by-unsigned product |
| `MExtension.UnsignedProduct` | src/cpu/instructions/dispatchers/m_extension.c:32-40 | MULHU and MUL hold the exact unsigned product |
| `MExtension.DivisionRebuilds` | src/cpu/instructions/dispatchers/m_extension.c:42-84 | quotient times divisor plus remainder is the dividend modulo 2^64 (2^32 in the word forms) for every operand pair, division by zero and overflow included |
| `MExtension.SignedDivision` | src/cpu/instructions/dispatchers/m_extension.c:42-75 | otherwise the identity is exact in signed numbers, the remainder is smaller than the divisor and has the sign of the dividend |
| `MExtension.UnsignedDivision` | src/cpu/instructions/dispatchers/m_extension.c:55-84 | unsigned division is exact with a remainder below the divisor |
| `MExtension.WordDivisionRebuilds` | src/cpu/instructions/dispatchers/m_extension.c:95-137 | the sign-extended word results make up the low half of the dividend modulo 2^32 |
| `MExtension.WidenKeepsNumber` | src/cpu/instructions/dispatchers/m_extension.c:86-137 | sign-extending a word result keeps the number it stands for |
| `MExtension.MulDivInstruction` | src/cpu/instructions/rtype.c:11-32 | an instruction word of this unit, 64-bit or word form, leaves the computed number in rd and changes nothing else; a word form that does not exist traps |
| `MInstructions.MulDivByCode` | src/cpu/instructions/dispatchers/m_extension.c:12-84 | by opcode 0x33 and code: rd holds the product modulo 2^64; the high half that with it makes up the signed, mixed or unsigned product; the quotient or remainder of the signed numbers, rounded toward zero, with the values for zero and overflow; or the unsigned ones. Nothing else changes |
| `MInstructions.MulDivWordByCode` | src/cpu/instructions/dispatchers/m_extension.c:86-137 | by opcode 0x3B and code: the same of the low halves, with rd the sign-extension of its low half |
| `MInstructions.NoHighWordForms` | src/cpu/instructions/dispatchers/m_extension.c:154-164 | the word forms with codes 1, 2 and 3 raise cause 2 |
| `MExtension.DivThenRem` | src/cpu/instructions/dispatchers/m_extension.c:42-137 | a division and the remainder of the same registers, signed or unsigned, 64-bit or word form, executed one after the other, leave results that make up the dividend |
| `Encoding.IRoundTrip` | src/cpu/instructions/decoding.c:29-39 | every I-format field set with an immediate in range survives encoding and decoding as its two's-complement value |
| `Encoding.IWordRoundTrip` | src/cpu/instructions/decoding.c:29-39 | encoding what was decoded in I format gives the word back, and the immediate is in range |
| `Encoding.SRoundTrip` | src/cpu/instructions/decoding.c:41-54 | every S-format field set with an immediate in range survives encoding and decoding as its two's-complement value |
| `Encoding.SWordRoundTrip` | src/cpu/instructions/decoding.c:41-54 | encoding what was decoded in S format gives the word back, and the immediate is in range |
| `Encoding.BRoundTrip` | src/cpu/instructions/decoding.c:56-71 | every B-format field set with an immediate in range survives encoding and decoding as its two's-complement value |
| `Encoding.BWordRoundTrip` | src/cpu/instructions/decoding.c:56-71 | encoding what was decoded in B format gives the word back, and the immediate is in range |
| `Encoding.URoundTrip` | src/cpu/instructions/decoding.c:73-80 | every U-format field set with an immediate in range survives encoding and decoding as its two's-complement value |
| `Encoding.UWordRoundTrip` | src/cpu/instructions/decoding.c:73-80 | encoding what was decoded in U format gives the word back, and the immediate is in range |
| `Encoding.JRoundTrip` | src/cpu/instructions/decoding.c:82-95 | every J-format field set with an immediate in range survives encoding and decoding as its two's-complement value |
| `Encoding.JWordRoundTrip` | src/cpu/instructions/decoding.c:82-95 | encoding what was decoded in J format gives the word back, and the immediate is in range |
| `Instructions.OpcodeSelects` | src/cpu/cpu.c:40-99 | each of the fourteen opcodes selects its kind of instruction, read in its format |
| `Instructions.InstructionRoundTrip` | src/cpu/cpu.c:40-99 | every instruction of the set, written as a word, decodes to itself |
| `Instructions.WordRoundTrip` | src/cpu/instructions/decoding.c:17-108 | every word with a known opcode is the word of the instruction it decodes to: no bit of it is lost |
| `Instructions.RRoundTrip` | src/cpu/instructions/decoding.c:17-27 | every R-format field set survives encoding and decoding |
| `Instructions.ARoundTrip` | src/cpu/instructions/decoding.c:97-108 | every A-format field set, its function code and ordering bits included, survives encoding and decoding |
| `UartSpec.ReceiveIsFifo` | src/devices/uart.c:14-61 | under any interleaving of host input, register reads and writes (DLAB changes and FIFO clears included) delivered bytes followed by queued ones are the accepted ones since the last clear |
| `UartSpec.DataReadyExactly` | src/devices/uart.c:86-93 | LSR reports data ready exactly when the queue holds some |
| `UartDevice.RingPush` | src/devices/uart.c:39-41 | a byte put in the slot after the last joins the queue at its end, around the ring |
| `UartDevice.RingPop` | src/devices/uart.c:55-57 | moving the tail on takes the oldest byte off |
| `UartDevice.Uart.HandleHostInput` | src/devices/uart.c:14-44 | the ring in place refines appending to the bounded queue; a full ring takes no byte |
| `UartDevice.Uart.Receive` | src/devices/uart.c:48-60 | the ring in place refines taking the oldest byte, or 0 from an empty queue |
| `UartDevice.Uart.Read8` | src/devices/uart.c:46-99 | every register read returns and changes what the queue specification says |
| `UartDevice.Uart.Write8` | src/devices/uart.c:105-155 | every register write changes what the queue specification says |
| `UartDevice.Uart.Identify` | src/devices/uart.c:68-80 | the identification register reports receive data before transmit-empty and acknowledges only the latter |
| `UartDevice.Uart.WriteIer` | src/devices/uart.c:118-131 | enabling the transmit interrupt makes it pending, disabling it withdraws it |
| `UartDevice.Uart.WriteFcr` | src/devices/uart.c:133-147 | clearing the receive FIFO empties the queue; the clear bits are not kept |
| `Devices.ReadMap` | src/memory/bus.c:15-93 | what every address reads at every width: the little-endian bytes of RAM, a UART register, the timer at its places, and 0 elsewhere |
| `Devices.WriteMap` | src/memory/bus.c:95-186 | what every write changes, and that it changes nothing else |
| `Devices.RegistersReadBack` | src/devices/uart.c:105-155 | LCR, MCR and SCR read what was written, and so do the divisor bytes and IER as the latch bit selects |
| `Devices.RegistersAreApart` | src/devices/uart.c:105-155 | a write to one UART register changes what no other reads, but for the latch bit, a cleared queue and the causes in IIR |
| `Devices.IdentificationExactly` | src/devices/uart.c:68-80 | IIR reports received data exactly if it is enabled and there is some, else the transmitter exactly if enabled and pending, else none |
| `Devices.ReadingAcknowledges` | src/devices/uart.c:68-80 | reading the transmitter's cause withdraws it and changes nothing else |
| `Devices.EnableExactly` | src/devices/uart.c:118-131 | when writing IER raises, keeps or withdraws the transmitter's cause |
| `Devices.InputExactly` | src/devices/uart.c:14-44 | a host byte is queued if fewer than sixteen wait, and lost otherwise |
| `Devices.ResetByBits` | src/cpu/csrs/mcsr.c:164-183 | the value of every register at reset, bit by bit |
| `MainLoop.ScheduleCounts` | apps/vm_main.c:31-42 | in n turns the hart steps n times, the timer ticks n times and the host is asked n / 1000 times |
| `CpuDevice.Cpu.constructor` | src/cpu/cpu.c:156-163 | reset state: registers zero, machine mode, no reservation, CSRs at their reset values |
| `CpuDevice.Cpu.EnterM` | src/cpu/trap.c:7-26 | the fields in place become the specified trap entry, whose properties Traps and TrapStack prove |
| `CpuDevice.Cpu.EnterS` | src/cpu/trap.c:28-41 | the same for supervisor mode |
| `CpuDevice.Cpu.RaiseException` | src/cpu/trap.c:43-63 | the fields in place become the specified exception, and nothing else changes |
| `CpuDevice.Cpu.RaiseInterrupt` | src/cpu/trap.c:65-84 | the fields in place become the specified interrupt, and nothing else changes |
| `CpuDevice.Cpu.TranslateAddress` | src/cpu/paging.c:156-188 | answers the mapping and leaves exactly the marked leaf behind |
| `CpuDevice.Cpu.InvalidateReservation` | src/cpu/cpu.c:18-31 | drops a valid reservation the store overlaps, with 64-bit wrap-around of the interval ends |
| `CpuDevice.Cpu.Load` | src/cpu/cpu.c:230-284 | a page fault traps with the address as value; otherwise the value at the translated address |
| `CpuDevice.Cpu.Store` | src/cpu/cpu.c:286-344 | a page fault traps with the address as value; otherwise an overlapped reservation goes and the bytes are written |
| `CpuDevice.Cpu.DispatchLoad` | src/cpu/instructions/dispatchers/load.c:68-79 | refines the load instructions proved about in Precise, Reservations and StoreLoad |
| `CpuDevice.Cpu.DispatchStore` | src/cpu/instructions/dispatchers/store.c:33-41 | refines the store instructions proved about there |
| `CpuDevice.Cpu.Operate` | src/cpu/instructions/dispatchers/a_extension.c:29-73 | the operation's own switch: the result, or none for a code it does not know |
| `CpuDevice.Cpu.AmoPhysical` | src/cpu/instructions/dispatchers/a_extension.c:27-78 | read, switch, write and rd in sequence, with the switch's illegal default |
| `CpuDevice.Cpu.Amo` | src/cpu/instructions/dispatchers/a_extension.c:6-154 | misaligned and fault cases and what follows the translation refine the AMO |
| `CpuDevice.Cpu.LoadReserved` | src/cpu/instructions/dispatchers/a_extension.c:156-208 | refines LR, its illegal, misaligned and fault cases included |
| `CpuDevice.Cpu.StoreConditional` | src/cpu/instructions/dispatchers/a_extension.c:210-258 | refines SC, its misaligned and fault cases included |
| `CpuDevice.Cpu.DispatchAtomic` | src/cpu/instructions/dispatchers/a_extension.c:260-302 | selects exactly the specified atomic, or traps |
| `CpuDevice.Cpu.SretInstruction` | src/cpu/instructions/dispatchers/system.c:40-61 | refines SRET, illegal in user mode |
| `CpuDevice.Cpu.MretInstruction` | src/cpu/instructions/dispatchers/system.c:63-85 | refines MRET, illegal below machine mode |
| `CpuDevice.Cpu.SfenceVmaInstruction` | src/cpu/instructions/dispatchers/system.c:23-38 | illegal in user mode and, with TVM, in supervisor mode; otherwise nothing |
| `CpuDevice.Cpu.WriteCsr` | src/cpu/csrs/csr.c:65-87 | the register file after a permitted write, or unchanged with a refusal |
| `CpuDevice.Cpu.Csrrw` | src/cpu/instructions/dispatchers/system.c:91-113 | refines CSRRW and CSRRWI: x0 reads nothing, a refused access changes nothing |
| `CpuDevice.Cpu.CsrModify` | src/cpu/instructions/dispatchers/system.c:115-162 | refines CSRRS, CSRRC and their immediate forms: x0 or a zero field writes nothing |
| `CpuDevice.Cpu.DispatchSystem` | src/cpu/instructions/dispatchers/system.c:235-264 | selects exactly the specified system instruction, or traps |
| `CpuDevice.Cpu.DispatchBranch` | src/cpu/instructions/dispatchers/branch.c:65-75 | refines the branches |
| `CpuDevice.Cpu.DispatchInstruction` | src/cpu/cpu.c:40-99 | the whole dispatcher refines the instruction semantics |
| `CpuDevice.Cpu.LetsThrough` | src/cpu/cpu.c:129-144 | whether a pending cause gets through the current mode |
| `CpuDevice.Cpu.SelectInterrupt` | src/cpu/cpu.c:113-145 | the priority loop finds the first takeable cause of the table, or none |
| `CpuDevice.Cpu.CheckInterrupts` | src/cpu/cpu.c:101-146 | takes exactly that interrupt |
| `CpuDevice.Cpu.CountRetired` | src/cpu/cpu.c:33-38 | pc moves on unless the instruction set it or trapped; minstret counts unless it trapped |
| `CpuDevice.Cpu.Step` | src/cpu/cpu.c:203-221 | one step in place refines the step about which precision, confinement, privilege and reservations are proved |
| `CpuDevice.Cpu.Tick` | src/vm/vm.c:57-61 | one tick in place refines the specified tick |

## Left out

- The plain integer operations (op, op-32, their immediate forms, LUI and AUIPC) are an arbitrary function `alu` from
  instruction word, operands and pc to a result or a trap; every theorem holds for all of them. Only multiplication
  and division are given (`MExtension.WithM`).
- `src/cpu/instructions/dispatchers/m_extension.c` multiplies two `int32_t` in MULW; the model takes the product modulo
  2^32, as two's-complement hardware does, where the C standard leaves overflow undefined.
- Host input and output: `poll` and `read` are an optional byte per call, `putchar` leaves no trace in the model, and the
  unused transmit ring is its count only. Logging, file loading, the debugger and the disassembler are not modelled.
- Fences, WFI, aq/rl bits and TLB behaviour: no-ops or ignored in the code, and so here.
- The four widths of each load and store function, and the immediate forms of the CSR instructions, are one method with
  a width or form parameter.
- The descriptor table of the CSR file is modelled by what it holds (which registers exist, their masks and handlers),
  not by the calls that fill it.
- `src/cpu/instructions/dispatchers/a_extension.c` has the word and the doubleword AMO as two functions; the model has one with
  a width parameter.
- StoreLoad.StoreThenLoad: states RAM residence and disjointness from the walk's entries as conditions; a store into its own
  page tables may of course change the mapping.
- Reservations.RunsAreFaithful: speaks of reservations in RAM; a device register may change by itself.
- Machines.RunStaysLegal: assumes the run fetches no instruction that stores 2 in MPP, since the code accepts it.
- The interrupt line of the UART: the code wires none.
- Instruction-address misalignment, accesses that cross a page and vectored trap vectors: the code does not implement them.
