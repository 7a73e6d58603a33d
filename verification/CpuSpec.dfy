/** One hart as a state transformer: traps, memory accesses, instructions and the step. */
module CpuSpec {
  import opened Words
  import opened Memory
  import UartSpec
  import opened BusSpec
  import opened PagingSpec
  import opened CsrSpec
  import opened Decoding

  type RegFile = r: seq<bv64> | |r| == 32 witness seq(32, _ => 0)

  datatype Reservation = Reservation(valid: bool, addr: int, size: nat)

  datatype State = State(
    regs: RegFile, csrs: CsrFile, pc: bv64, priv: bv2, reservation: Reservation,
    trapTaken: bool, pcWritten: bool, bus: Bus)

  /** What the plain integer unit answers: a trap, no result, or a value for rd. */
  datatype AluResult = Illegal | NoResult | Value(v: bv64)

  /** The integer unit: instruction word, rs1, rs2 and pc to result. */
  type Alu = (bv32, bv64, bv64, bv64) -> AluResult

  type Cause = c: bv64 | c < 64

  const EXC_ILLEGAL: Cause := 2
  const EXC_BREAKPOINT: Cause := 3
  const EXC_LOAD_MISALIGNED: Cause := 4
  const EXC_STORE_MISALIGNED: Cause := 6
  const EXC_ECALL_U: Cause := 8
  const EXC_ECALL_S: Cause := 9
  const EXC_ECALL_M: Cause := 11
  const EXC_FETCH_PAGE: Cause := 12
  const EXC_LOAD_PAGE: Cause := 13
  const EXC_STORE_PAGE: Cause := 15

  const INTERRUPT: bv64 := 0x8000_0000_0000_0000

  function Ctx(s: State): Context {
    Context(s.csrs[SATP], s.csrs[MSTATUS], s.priv)
  }

  function ReadReg(s: State, r: bv5): bv64 {
    if r == 0 then 0 else s.regs[r as int]
  }

  function WriteReg(s: State, r: bv5, v: bv64): State {
    if r == 0 then s else s.(regs := s.regs[r as int := v])
  }

  // ----- traps

  /** MPIE takes MIE, MIE is cleared, and MPP takes the interrupted mode. */
  function MTrapStatus(m: bv64, priv: bv2): bv64 {
    SetBit(SetBit(SetBit(SetBit(m, 7, BitAt(m, 3)), 3, 0), 11, LowBit(priv)), 12, HighBit(priv))
  }

  /** SPP takes the low bit of the interrupted mode, SPIE takes SIE, and SIE is cleared. */
  function STrapStatus(m: bv64, priv: bv2): bv64 {
    SetBit(SetBit(SetBit(m, 8, LowBit(priv)), 5, BitAt(m, 1)), 1, 0)
  }

  function EnterM(s: State): State {
    s.(csrs := s.csrs[MSTATUS := MTrapStatus(s.csrs[MSTATUS], s.priv)], priv := M_MODE,
       pc := Align4(s.csrs[MTVEC]), trapTaken := true)
  }

  function EnterS(s: State): State {
    s.(csrs := s.csrs[MSTATUS := STrapStatus(s.csrs[MSTATUS], s.priv)], priv := S_MODE,
       pc := Align4(s.csrs[STVEC]), trapTaken := true)
  }

  predicate Delegated(deleg: bv64, priv: bv2, cause: Cause)
  {
    priv < M_MODE && deleg & (1 << cause) != 0
  }

  function TrapToS(s: State, cause: bv64, tval: bv64): State {
    EnterS(s.(csrs := s.csrs[SEPC := s.pc][SCAUSE := cause][STVAL := tval]))
  }

  function TrapToM(s: State, cause: bv64, tval: bv64): State {
    EnterM(s.(csrs := s.csrs[MEPC := s.pc][MCAUSE := cause][MTVAL := tval]))
  }

  function RaiseException(s: State, cause: Cause, tval: bv64): State
  {
    if Delegated(s.csrs[MEDELEG], s.priv, cause) then TrapToS(s, cause, tval) else TrapToM(s, cause, tval)
  }

  function InterruptCause(cause: Cause): bv64 {
    INTERRUPT | cause
  }

  function RaiseInterrupt(s: State, cause: Cause): State
  {
    if Delegated(s.csrs[MIDELEG], s.priv, cause) then TrapToS(s, InterruptCause(cause), 0)
    else TrapToM(s, InterruptCause(cause), 0)
  }

  // ----- interrupts

  /** Machine external, software, timer, then supervisor external, software, timer. */
  const PRIORITY: seq<Cause> := [11, 3, 7, 9, 1, 5]

  /** The interrupts that are both pending and enabled. */
  function Pending(f: CsrFile): bv64 {
    f[MIP] & f[MIE]
  }

  predicate Raised(pending: bv64, cause: Cause) {
    pending & (1 << cause) != 0
  }

  /** A pending, enabled interrupt that the current mode must let through. */
  predicate Takeable(f: CsrFile, priv: bv2, cause: Cause)
  {
    && Raised(Pending(f), cause)
    && if f[MIDELEG] & (1 << cause) == 0 then priv == M_MODE ==> Bit(f[MSTATUS], 3)
       else priv != M_MODE && (priv == S_MODE ==> Bit(f[MSTATUS], 1))
  }

  /** The first takeable cause of the table from index `i` on. */
  function FirstTakeable(f: CsrFile, priv: bv2, i: nat): Option<Cause>
    requires i <= 6
    decreases 6 - i
  {
    if i == 6 then None
    else if Takeable(f, priv, PRIORITY[i]) then Some(PRIORITY[i])
    else FirstTakeable(f, priv, i + 1)
  }

  function CheckInterrupts(s: State): State {
    match FirstTakeable(s.csrs, s.priv, 0)
    case None => s
    case Some(cause) => RaiseInterrupt(s, cause)
  }

  // ----- what an instruction does

  /** An instruction finishes in a state, or raises an exception in the state it has got to. */
  datatype Effect = Done(s: State) | Raise(at: State, cause: Cause, tval: bv64)

  function Apply(e: Effect): State {
    match e
    case Done(s) => s
    case Raise(s, cause, tval) => RaiseException(s, cause, tval)
  }

  function Widened(raw: bv32): bv64 {
    raw as bv64
  }

  function IllegalInstruction(s: State, raw: bv32): Effect {
    Raise(s, EXC_ILLEGAL, Widened(raw))
  }

  // ----- memory accesses

  /** A translation: the state with the leaf marked, and the answer. */
  datatype Walk = Walk(s: State, t: Translation)

  /** A translation unit: what becomes of an access by the state's current mode. */
  type Mmu = (State, bv64, Access) -> Walk

  /** The units an instruction runs on; what it does to the rest of the machine does not depend on them. */
  datatype Core = Core(alu: Alu, mmu: Mmu)

  ghost function WalkFor(s: State, va: bv64, access: Access): Walk {
    Walk(s.(bus := AfterMap(s.bus, Ctx(s), ToWord(va), access)), Map(Entries(s.bus), Ctx(s), ToWord(va), access))
  }

  /** The machine's own translation unit. */
  ghost function Sv39Mmu(): Mmu {
    (s, va, access) => WalkFor(s, va, access)
  }

  function GetValue(s: State, pa: int, n: Size): Word {
    BusRead(s.bus, pa, n)
  }

  function AfterGet(s: State, pa: int, n: Size): State {
    s.(bus := AfterBusRead(s.bus, pa, n))
  }

  /** The two 64-bit interval ends wrap around, as machine words do. */
  predicate Overlaps(r: Reservation, pa: int, n: nat) {
    && pa < (r.addr + r.size) % 0x1_0000_0000_0000_0000
    && (pa + n) % 0x1_0000_0000_0000_0000 > r.addr
  }

  function Invalidated(r: Reservation, pa: int, n: nat): Reservation {
    if r.valid && Overlaps(r, pa, n) then r.(valid := false) else r
  }

  ghost function Put(s: State, pa: int, n: Size, w: Word): State {
    s.(reservation := Invalidated(s.reservation, pa, n), bus := BusWrite(s.bus, pa, n, w))
  }

  // ----- loads and stores

  function LoadWidth(funct3: bv3): Size {
    if funct3 & 3 == 0 then 1 else if funct3 & 3 == 1 then 2 else if funct3 & 3 == 2 then 4 else 8
  }

  /** LB, LH and LW widen the sign; LD, LBU, LHU and LWU do not. */
  function Extended(w: Word, funct3: bv3): bv64 {
    if funct3 == 0 then SignExtend(ToBits(w), 8)
    else if funct3 == 1 then SignExtend(ToBits(w), 16)
    else if funct3 == 2 then SignExtend(ToBits(w), 32)
    else ToBits(w)
  }

  function LoadFrom(walk: Walk, d: IType, va: bv64): Effect {
    match walk.t
    case Fault => Raise(walk.s, EXC_LOAD_PAGE, va)
    case At(pa) =>
      var n := LoadWidth(d.funct3);
      Done(WriteReg(AfterGet(walk.s, pa, n), d.rd, Extended(GetValue(walk.s, pa, n), d.funct3)))
  }

  ghost function ExecLoad(s: State, d: IType, raw: bv32, core: Core): Effect {
    var va := Add(d.imm, ReadReg(s, d.rs1));
    if d.funct3 == 7 then IllegalInstruction(s, raw) else LoadFrom(core.mmu(s, va, Load), d, va)
  }

  /** The low `n` bytes of a register, as memory holds them. */
  function StoreValue(v: bv64, n: Size): Word {
    ToWord(v) % Range(n)
  }

  ghost function StoreTo(walk: Walk, va: bv64, n: Size, w: Word): Effect {
    match walk.t
    case Fault => Raise(walk.s, EXC_STORE_PAGE, va)
    case At(pa) => Done(Put(walk.s, pa, n, w))
  }

  ghost function ExecStore(s: State, d: SType, raw: bv32, core: Core): Effect {
    var va := Add(ReadReg(s, d.rs1), d.imm);
    var n := LoadWidth(d.funct3);
    if d.funct3 >= 4 then IllegalInstruction(s, raw)
    else StoreTo(core.mmu(s, va, Store), va, n, StoreValue(ReadReg(s, d.rs2), n))
  }

  // ----- atomics

  const AMOADD: bv5 := 0x00
  const AMOSWAP: bv5 := 0x01
  const LR: bv5 := 0x02
  const SC: bv5 := 0x03
  const AMOXOR: bv5 := 0x04
  const AMOOR: bv5 := 0x08
  const AMOAND: bv5 := 0x0C
  const AMOMIN: bv5 := 0x10
  const AMOMAX: bv5 := 0x14
  const AMOMINU: bv5 := 0x18
  const AMOMAXU: bv5 := 0x1C

  /** The codes the dispatcher sends to the AMO operation. */
  predicate IsAmo(f: bv5) {
    || f == AMOADD || f == AMOSWAP || f == AMOXOR || f == AMOOR || f == AMOAND
    || f == AMOMIN || f == AMOMAX || f == AMOMINU || f == AMOMAXU
  }

  predicate SignedLess(x: bv64, y: bv64) {
    x ^ 0x8000_0000_0000_0000 < y ^ 0x8000_0000_0000_0000
  }

  /** Signed comparison of two 32-bit operands. */
  predicate SignedLess32(x: bv64, y: bv64) {
    x ^ 0x8000_0000 < y ^ 0x8000_0000
  }

  predicate OperandLess(x: bv64, y: bv64, n: Size) {
    if n == 4 then SignedLess32(x, y) else SignedLess(x, y)
  }

  /** The new memory word of an AMO on operands of `n` bytes; None for a code the operation does not know. */
  function AmoResult(f: bv5, word: bv64, rhs: bv64, n: Size): Option<bv64> {
    if f == AMOSWAP then Some(rhs)
    else if f == AMOADD then Some(AmoSum(word, rhs, n))
    else if f == AMOXOR then Some(Differing(word, rhs))
    else if f == AMOAND then Some(Common(word, rhs))
    else if f == AMOOR then Some(Both(word, rhs))
    else if f == AMOMIN then Some(if OperandLess(word, rhs, n) then word else rhs)
    else if f == AMOMAX then Some(if OperandLess(rhs, word, n) then word else rhs)
    else if f == AMOMINU then Some(if word < rhs then word else rhs)
    else if f == AMOMAXU then Some(if word > rhs then word else rhs)
    else None
  }

  function AmoSum(word: bv64, rhs: bv64, n: Size): bv64 {
    if n == 4 then (word + rhs) & 0xFFFF_FFFF else word + rhs
  }

  /** The value an atomic of `n` bytes leaves in rd. */
  function AtomicValue(w: Word, n: Size): bv64 {
    if n == 4 then SignExtend(ToBits(w), 32) else ToBits(w)
  }

  predicate Misaligned(va: bv64, n: Size) {
    va & (if n == 4 then 3 else 7) != 0
  }

  /** Read, operate, write and leave the old word in rd. */
  ghost function AmoOn(s: State, d: AType, pa: int, rhs: bv64, n: Size, raw: bv32): Effect {
    match AmoResult(d.funct5, ToBits(GetValue(s, pa, n)), rhs, n)
    case None => IllegalInstruction(s, raw)
    case Some(result) => Done(AmoDone(s, d, pa, result, n))
  }

  ghost function AmoDone(s: State, d: AType, pa: int, result: bv64, n: Size): State {
    WriteReg(Put(s, pa, n, ToWord(result)), d.rd, AtomicValue(GetValue(s, pa, n), n))
  }

  ghost function AmoAt(walk: Walk, d: AType, va: bv64, rhs: bv64, n: Size, raw: bv32): Effect {
    match walk.t
    case Fault => Raise(walk.s, EXC_STORE_PAGE, va)
    case At(pa) => AmoOn(walk.s, d, pa, rhs, n, raw)
  }

  /** The operand of a word atomic is the low half of rs2. */
  function AmoOperand(v: bv64, n: Size): bv64 {
    if n == 4 then v & 0xFFFF_FFFF else v
  }

  ghost function ExecAmo(s: State, d: AType, raw: bv32, n: Size, core: Core): Effect {
    var va := ReadReg(s, d.rs1);
    if Misaligned(va, n) then Raise(s, EXC_STORE_MISALIGNED, va)
    else AmoAt(core.mmu(s, va, Store), d, va, AmoOperand(ReadReg(s, d.rs2), n), n, raw)
  }

  function LrOn(s: State, d: AType, pa: int, n: Size): State {
    WriteReg(s, d.rd, AtomicValue(GetValue(s, pa, n), n)).(reservation := Reservation(true, pa, n))
  }

  function LrAt(walk: Walk, d: AType, va: bv64, n: Size): Effect {
    match walk.t
    case Fault => Raise(walk.s, EXC_LOAD_PAGE, va)
    case At(pa) => Done(LrOn(walk.s, d, pa, n))
  }

  ghost function ExecLr(s: State, d: AType, raw: bv32, n: Size, core: Core): Effect {
    var va := ReadReg(s, d.rs1);
    if d.rs2 != 0 then IllegalInstruction(s, raw)
    else if Misaligned(va, n) then Raise(s, EXC_LOAD_MISALIGNED, va)
    else LrAt(core.mmu(s, va, Load), d, va, n)
  }

  /** The store-conditional succeeds exactly on a valid reservation of the same address and width. */
  predicate Reserves(r: Reservation, pa: int, n: nat) {
    r.valid && r.addr == pa && r.size == n
  }

  function Unreserved(s: State): State {
    s.(reservation := s.reservation.(valid := false))
  }

  ghost function ScOn(s: State, d: AType, pa: int, w: Word, n: Size): State {
    Unreserved(if Reserves(s.reservation, pa, n) then WriteReg(s.(bus := BusWrite(s.bus, pa, n, w)), d.rd, 0)
               else WriteReg(s, d.rd, 1))
  }

  ghost function ScAt(walk: Walk, d: AType, va: bv64, w: Word, n: Size): Effect {
    match walk.t
    case Fault => Raise(walk.s, EXC_STORE_PAGE, va)
    case At(pa) => Done(ScOn(walk.s, d, pa, w, n))
  }

  ghost function ExecSc(s: State, d: AType, n: Size, core: Core): Effect {
    var va := ReadReg(s, d.rs1);
    if Misaligned(va, n) then Raise(s, EXC_STORE_MISALIGNED, va)
    else ScAt(core.mmu(s, va, Store), d, va, StoreValue(ReadReg(s, d.rs2), n), n)
  }

  function AtomicWidth(d: AType): Size {
    if d.funct3 == 2 then 4 else 8
  }

  ghost function ExecAtomic(s: State, d: AType, raw: bv32, core: Core): Effect {
    var n := AtomicWidth(d);
    if d.funct3 != 2 && d.funct3 != 3 then IllegalInstruction(s, raw)
    else if IsAmo(d.funct5) then ExecAmo(s, d, raw, n, core)
    else if d.funct5 == LR then ExecLr(s, d, raw, n, core)
    else if d.funct5 == SC then ExecSc(s, d, n, core)
    else IllegalInstruction(s, raw)
  }

  // ----- system instructions

  function Ecall(s: State): Effect {
    Raise(s, if s.priv == M_MODE then EXC_ECALL_M else if s.priv == S_MODE then EXC_ECALL_S else EXC_ECALL_U, 0)
  }

  function SretStatus(m: bv64): bv64 {
    SetBit(SetBit(SetBit(m, 1, BitAt(m, 5)), 5, 1), 8, 0)
  }

  /** The mode SPP names. */
  function Spp(m: bv64): bv2 {
    if Bit(m, 8) then S_MODE else U_MODE
  }

  function Sret(s: State, raw: bv32): Effect {
    if s.priv == U_MODE then IllegalInstruction(s, raw)
    else
      var m := s.csrs[MSTATUS];
      Done(s.(priv := Spp(m), csrs := s.csrs[MSTATUS := SretStatus(m)],
              pc := s.csrs[SEPC], pcWritten := true))
  }

  function MretStatus(m: bv64): bv64 {
    SetBit(SetBit(SetBit(SetBit(m, 3, BitAt(m, 7)), 7, 1), 11, 0), 12, 0)
  }

  function Mret(s: State, raw: bv32): Effect {
    if s.priv != M_MODE then IllegalInstruction(s, raw)
    else
      var m := s.csrs[MSTATUS];
      Done(s.(priv := Mpp(m), csrs := s.csrs[MSTATUS := MretStatus(m)], pc := s.csrs[MEPC], pcWritten := true))
  }

  function SfenceVma(s: State, raw: bv32): Effect {
    if s.priv == U_MODE || (s.priv == S_MODE && Bit(s.csrs[MSTATUS], 20)) then IllegalInstruction(s, raw)
    else Done(s)
  }

  const TIME_ADDRESS: int := 0x200_BFF8

  function CurrentTime(s: State): bv64 {
    ToBits(BusRead(s.bus, TIME_ADDRESS, 8))
  }

  function Immediate(zimm: bv5): bv64 {
    zimm as bv64
  }

  /** The operand of a CSR instruction: rs1, or its field as a number in the immediate forms. */
  function CsrOperand(s: State, d: IType): bv64 {
    if d.funct3 < 4 then ReadReg(s, d.rs1) else Immediate(d.rs1)
  }

  /** 1 to write, 2 to set bits and 3 to clear bits; the other bit selects the immediate form. */
  function CsrKind(funct3: bv3): bv3 {
    funct3 & 3
  }

  function CsrNewValue(kind: bv3, word: bv64, operand: bv64): bv64 {
    if kind == 1 then operand else if kind == 2 then word | operand else word & !operand
  }

  /** The write half of a CSR instruction: store the new value and leave the old one in rd. */
  function CsrStore(s: State, d: IType, a: nat, word: bv64, value: bv64, raw: bv32): Effect {
    match CsrWrite(s.csrs, s.priv, a, value)
    case None => IllegalInstruction(s, raw)
    case Some(csrs') => Done(WriteReg(s.(csrs := csrs'), d.rd, word))
  }

  /** What the instruction reads first; a plain write to x0 reads nothing. */
  function CsrOldValue(s: State, d: IType, a: nat): Option<bv64> {
    if CsrKind(d.funct3) == 1 && d.rd == 0 then Some(0) else CsrRead(s.csrs, s.priv, a, CurrentTime(s))
  }

  /** CSRRW, CSRRS and CSRRC and their immediate forms (`kind` 1, 2 and 3) on CSR `a`. */
  function ExecCsr(s: State, d: IType, a: nat, raw: bv32): Effect {
    var kind := CsrKind(d.funct3);
    match CsrOldValue(s, d, a)
    case None => IllegalInstruction(s, raw)
    case Some(word) =>
      if kind != 1 && d.rs1 == 0 then Done(WriteReg(s, d.rd, word))
      else CsrStore(s, d, a, word, CsrNewValue(kind, word, CsrOperand(s, d)), raw)
  }

  function ExecPrivileged(s: State, d: IType, funct7: bv7, raw: bv32): Effect {
    if funct7 == 9 && d.rd == 0 then SfenceVma(s, raw)
    else if d.imm == 0x000 then Ecall(s)
    else if d.imm == 0x001 then Raise(s, EXC_BREAKPOINT, 0)
    else if d.imm == 0x102 then Sret(s, raw)
    else if d.imm == 0x302 then Mret(s, raw)
    else if d.imm == 0x105 then Done(s)
    else IllegalInstruction(s, raw)
  }

  function ExecSystem(s: State, d: IType, funct7: bv7, a: nat, raw: bv32): Effect {
    if d.funct3 == 0 then ExecPrivileged(s, d, funct7, raw)
    else if d.funct3 == 4 then IllegalInstruction(s, raw)
    else ExecCsr(s, d, a, raw)
  }

  // ----- everything else

  predicate BranchTaken(funct3: bv3, x: bv64, y: bv64) {
    if funct3 == 0 then x == y
    else if funct3 == 1 then x != y
    else if funct3 == 4 then SignedLess(x, y)
    else if funct3 == 5 then !SignedLess(x, y)
    else if funct3 == 6 then x < y
    else x >= y
  }

  function ExecBranch(s: State, d: BType, raw: bv32): Effect {
    if d.funct3 == 2 || d.funct3 == 3 then IllegalInstruction(s, raw)
    else if BranchTaken(d.funct3, ReadReg(s, d.rs1), ReadReg(s, d.rs2))
    then Done(s.(pc := Add(s.pc, d.imm), pcWritten := true))
    else Done(s)
  }

  function ExecJal(s: State, d: JType): Effect {
    Done(WriteReg(s, d.rd, Add(s.pc, 4)).(pc := Add(s.pc, d.imm), pcWritten := true))
  }

  function ExecJalr(s: State, d: IType): Effect {
    Done(WriteReg(s, d.rd, Add(s.pc, 4)).(pc := Align2(Add(d.imm, ReadReg(s, d.rs1))), pcWritten := true))
  }

  function ExecMiscMem(s: State, d: IType, raw: bv32): Effect {
    if d.funct3 == 0 || (d.funct3 == 1 && d.rd == 0 && d.rs1 == 0 && d.imm == 0) then Done(s)
    else IllegalInstruction(s, raw)
  }

  function ExecAlu(s: State, d: RType, raw: bv32, core: Core): Effect {
    match core.alu(raw, ReadReg(s, d.rs1), ReadReg(s, d.rs2), s.pc)
    case Illegal => IllegalInstruction(s, raw)
    case NoResult => Done(s)
    case Value(v) => Done(WriteReg(s, d.rd, v))
  }

  ghost function Exec(s: State, i: Instruction, raw: bv32, core: Core): Effect {
    match i
    case AluOp(d) => ExecAlu(s, d, raw, core)
    case Jal(d) => ExecJal(s, d)
    case Jalr(d) => ExecJalr(s, d)
    case LoadOp(d) => ExecLoad(s, d, raw, core)
    case StoreOp(d) => ExecStore(s, d, raw, core)
    case BranchOp(d) => ExecBranch(s, d, raw)
    case AtomicOp(d) => ExecAtomic(s, d, raw, core)
    case SystemOp(d, funct7, csr) => ExecSystem(s, d, funct7, csr, raw)
    case MiscMem(d) => ExecMiscMem(s, d, raw)
    case Unknown => IllegalInstruction(s, raw)
  }

  ghost function Dispatch(s: State, raw: bv32, core: Core): State {
    Apply(Exec(s, Decode(raw), raw, core))
  }

  // ----- the step

  function Begun(s: State): State {
    s.(trapTaken := false, csrs := s.csrs[MCYCLE := Add(s.csrs[MCYCLE], 1)])
  }

  /** After the instruction: the next pc, and one more instruction retired unless it trapped. */
  function Retired(s: State): State {
    if s.trapTaken then s
    else s.(pc := if s.pcWritten then s.pc else Add(s.pc, 4),
            csrs := s.csrs[MINSTRET := Add(s.csrs[MINSTRET], 1)])
  }

  function Finished(s: State): State {
    CheckInterrupts(s).(pcWritten := false)
  }

  function ToInstruction(w: Word): bv32 {
    (w % 0x1_0000_0000) as bv32
  }

  /** The instruction word at a physical address. */
  function InstructionAt(s: State, pa: int): bv32 {
    ToInstruction(GetValue(s, pa, 4))
  }

  ghost function StepFrom(walk: Walk, core: Core): State {
    match walk.t
    case Fault => RaiseException(walk.s, EXC_FETCH_PAGE, walk.s.pc)
    case At(pa) => Finished(Retired(Dispatch(walk.s, InstructionAt(walk.s, pa), core)))
  }

  ghost function Step(s: State, core: Core): State {
    StepFrom(core.mmu(Begun(s), s.pc, Fetch), core)
  }

  /** The machine: any integer unit, and the Sv39 translation unit. */
  ghost function Machine(alu: Alu): Core {
    Core(alu, Sv39Mmu())
  }

  /** An interrupt line raised or dropped. */
  function PendingSet(s: State, cause: Cause, on: bool): State {
    s.(csrs := s.csrs[MIP := SetBit(s.csrs[MIP], cause, if on then 1 else 0)])
  }

  predicate TimerDue(t: Timer) {
    t.mtime >= t.mtimecmp
  }

  /** The devices' side of time: the timer ticks and drives the two machine interrupt lines. */
  function Ticked(s: State): State {
    var t := TimerTicked(s.bus.timer);
    PendingSet(PendingSet(s.(bus := s.bus.(timer := t)), 3, t.msip % 2 == 1), 7, TimerDue(t))
  }

  /** A byte from the host may arrive at the UART between steps. */
  function HostInput(s: State, input: Option<bv8>): State {
    s.(bus := s.bus.(uart := UartSpec.AfterHostInput(s.bus.uart, input)))
  }
}
