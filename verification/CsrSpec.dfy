/** The control and status registers: which exist, who may touch them, and what a write stores. */
module CsrSpec {
  import opened Words

  type CsrFile = f: seq<bv64> | |f| == 4096 witness seq(4096, _ => 0)

  const SSTATUS: nat := 0x100
  const SIE: nat := 0x104
  const STVEC: nat := 0x105
  const SCOUNTEREN: nat := 0x106
  const SSCRATCH: nat := 0x140
  const SEPC: nat := 0x141
  const SCAUSE: nat := 0x142
  const STVAL: nat := 0x143
  const SIP: nat := 0x144
  const SATP: nat := 0x180

  const MSTATUS: nat := 0x300
  const MISA: nat := 0x301
  const MEDELEG: nat := 0x302
  const MIDELEG: nat := 0x303
  const MIE: nat := 0x304
  const MTVEC: nat := 0x305
  const MCOUNTEREN: nat := 0x306
  const MSCRATCH: nat := 0x340
  const MEPC: nat := 0x341
  const MCAUSE: nat := 0x342
  const MTVAL: nat := 0x343
  const MIP: nat := 0x344
  const MCYCLE: nat := 0xB00
  const MINSTRET: nat := 0xB02
  const MVENDORID: nat := 0xF11
  const MHARTID: nat := 0xF14

  const CYCLE: nat := 0xC00
  const TIME: nat := 0xC01
  const INSTRET: nat := 0xC02

  /** SIE, SPIE, SPP, SUM and MXR: the part of mstatus a supervisor sees. */
  const SSTATUS_MASK: bv64 := 0xC_0122

  /** SSI, STI, SEI and LCOFI. */
  const SUPERVISOR_INTERRUPTS: bv64 := 0x2222

  const ALL_BITS: bv64 := 0xFFFF_FFFF_FFFF_FFFF

  predicate Implemented(a: nat) {
    || SSTATUS == a || SIE <= a <= SCOUNTEREN || SSCRATCH <= a <= SIP || a == SATP
    || MSTATUS <= a <= MCOUNTEREN || MSCRATCH <= a <= MIP || a == MCYCLE || a == MINSTRET
    || MVENDORID <= a <= MHARTID || CYCLE <= a <= INSTRET
  }

  /** Address bits 11 and 10 both set mark a read-only register. */
  predicate ReadOnly(a: nat) {
    a / 1024 % 4 == 3
  }

  /** Address bits 9 and 8 give the least privilege that may access the register. */
  predicate Reachable(a: nat, priv: bv2) {
    a / 256 % 4 <= priv as int
  }

  predicate CanWrite(a: nat, priv: bv2) {
    !ReadOnly(a) && Reachable(a, priv)
  }

  predicate CanRead(f: CsrFile, a: nat, priv: bv2) {
    && Reachable(a, priv)
    && (CYCLE <= a <= INSTRET ==>
          var bit: bv64 := if a == CYCLE then 1 else if a == TIME then 2 else 4;
          && (priv == S_MODE ==> f[MCOUNTEREN] & bit != 0)
          && (priv == U_MODE ==> f[MCOUNTEREN] & bit != 0 && f[SCOUNTEREN] & bit != 0))
  }

  /** The supervisor interrupts that machine mode has delegated. */
  function DelegatedMask(f: CsrFile): bv64 {
    Common(SUPERVISOR_INTERRUPTS, f[MIDELEG])
  }

  /** What a permitted read returns; `time` is the timer's current value. */
  function ReadValue(f: CsrFile, a: nat, time: bv64): bv64
    requires a < 4096
  {
    if a == SSTATUS then (f[MSTATUS] & SSTATUS_MASK) | 0x2_0000_0000
    else if a == SIE then f[MIE] & f[MIDELEG] & SUPERVISOR_INTERRUPTS
    else if a == SIP then f[MIP] & f[MIDELEG] & SUPERVISOR_INTERRUPTS
    else if a == SEPC then Align4(f[SEPC])
    else if a == CYCLE then f[MCYCLE]
    else if a == INSTRET then f[MINSTRET]
    else if a == TIME then time
    else f[a]
  }

  /** The bits a plain write may change. */
  function WriteMask(a: nat): bv64 {
    if a == MSTATUS then 0x1E_19AA
    else if a == MIP then 0x22
    else if a == MIE then 0xAAA
    else if a == MEPC then !3
    else if a == MCOUNTEREN then 0x7
    else if a == SCOUNTEREN then 0xFFFF_FFFF
    else if a == MTVEC || a == STVEC then ALL_BITS
    else if MVENDORID <= a <= MHARTID || CYCLE <= a <= INSTRET then 0
    else ALL_BITS
  }

  /** The register file after a permitted write. */
  function Written(f: CsrFile, a: nat, value: bv64): CsrFile
    requires a < 4096
  {
    if a == MISA then f
    else if a == SSTATUS then f[MSTATUS := Masked(f[MSTATUS], value, SSTATUS_MASK)]
    else if a == SIE then f[MIE := Masked(f[MIE], value, DelegatedMask(f))]
    else if a == SIP then f[MIP := Masked(f[MIP], value, DelegatedMask(f))]
    else if a == MTVEC || a == STVEC then f[a := Align4(value)]
    else f[a := Masked(f[a], value, WriteMask(a))]
  }

  /** MISA describes RV64IMASU, MPP starts as machine mode, and traps go to the start of RAM. */
  function ResetValue(a: nat): bv64 {
    if a == MISA then 0x8000_0000_0014_1101
    else if a == MSTATUS then 0x1800
    else if a == MTVEC then 0x8000_0000
    else 0
  }

  function CsrRead(f: CsrFile, priv: bv2, a: nat, time: bv64): Option<bv64> {
    if a < 4096 && Implemented(a) && CanRead(f, a, priv) then Some(ReadValue(f, a, time)) else None
  }

  function CsrWrite(f: CsrFile, priv: bv2, a: nat, value: bv64): Option<CsrFile> {
    if a < 4096 && Implemented(a) && CanWrite(a, priv) then Some(Written(f, a, value)) else None
  }
}
