/** Instruction words and their fields. */
module Decoding {
  import opened Words

  const LOAD: bv32 := 0x03
  const MISC_MEM: bv32 := 0x0F
  const OP_IMM: bv32 := 0x13
  const AUIPC: bv32 := 0x17
  const OP_IMM_32: bv32 := 0x1B
  const STORE: bv32 := 0x23
  const AMO: bv32 := 0x2F
  const OP: bv32 := 0x33
  const LUI: bv32 := 0x37
  const OP_32: bv32 := 0x3B
  const BRANCH: bv32 := 0x63
  const JALR: bv32 := 0x67
  const JAL: bv32 := 0x6F
  const SYSTEM: bv32 := 0x73

  datatype RType = RType(rd: bv5, funct3: bv3, rs1: bv5, rs2: bv5, funct7: bv7, opcode: bv7)
  datatype IType = IType(rd: bv5, funct3: bv3, rs1: bv5, opcode: bv7, imm: bv64)
  datatype SType = SType(funct3: bv3, rs1: bv5, rs2: bv5, opcode: bv7, imm: bv64)
  datatype BType = BType(funct3: bv3, rs1: bv5, rs2: bv5, opcode: bv7, imm: bv64)
  datatype UType = UType(rd: bv5, opcode: bv7, imm: bv64)
  datatype JType = JType(rd: bv5, opcode: bv7, imm: bv64)
  datatype AType = AType(rd: bv5, funct3: bv3, rs1: bv5, rs2: bv5, rl: bv1, aq: bv1, funct5: bv5)

  function Rd(raw: bv32): bv5 { ((raw >> 7) & 0x1F) as bv5 }
  function Funct3(raw: bv32): bv3 { ((raw >> 12) & 0x7) as bv3 }
  function Rs1(raw: bv32): bv5 { ((raw >> 15) & 0x1F) as bv5 }
  function Rs2(raw: bv32): bv5 { ((raw >> 20) & 0x1F) as bv5 }
  function Funct7(raw: bv32): bv7 { ((raw >> 25) & 0x7F) as bv7 }
  function Opcode(raw: bv32): bv7 { (raw & 0x7F) as bv7 }

  /** The CSR address of a SYSTEM instruction. */
  function CsrField(raw: bv32): (a: nat)
    ensures a < 4096
  {
    ((raw >> 20) as bv12) as int
  }

  function DecodeR(raw: bv32): RType {
    RType(Rd(raw), Funct3(raw), Rs1(raw), Rs2(raw), Funct7(raw), Opcode(raw))
  }

  // The immediate of each format, gathered from its pieces.

  function ImmediateI(raw: bv32): bv64 {
    (raw >> 20) as bv64
  }

  function ImmediateS(raw: bv32): bv64 {
    (((raw >> 7) & 0x1F) | (((raw >> 25) & 0x7F) << 5)) as bv64
  }

  function ImmediateB(raw: bv32): bv64 {
    ((((raw >> 8) & 0xF) << 1) | (((raw >> 25) & 0x3F) << 5)
     | (((raw >> 7) & 0x1) << 11) | (((raw >> 31) & 0x1) << 12)) as bv64
  }

  function ImmediateU(raw: bv32): bv64 {
    (raw & 0xFFFF_F000) as bv64
  }

  function ImmediateJ(raw: bv32): bv64 {
    ((((raw >> 21) & 0x3FF) << 1) | (((raw >> 20) & 0x1) << 11)
     | (((raw >> 12) & 0xFF) << 12) | (((raw >> 31) & 0x1) << 20)) as bv64
  }

  function DecodeI(raw: bv32): IType {
    IType(Rd(raw), Funct3(raw), Rs1(raw), Opcode(raw), SignExtend(ImmediateI(raw), 12))
  }

  function DecodeS(raw: bv32): SType {
    SType(Funct3(raw), Rs1(raw), Rs2(raw), Opcode(raw), SignExtend(ImmediateS(raw), 12))
  }

  function DecodeB(raw: bv32): BType {
    BType(Funct3(raw), Rs1(raw), Rs2(raw), Opcode(raw), SignExtend(ImmediateB(raw), 13))
  }

  function DecodeU(raw: bv32): UType {
    UType(Rd(raw), Opcode(raw), SignExtend(ImmediateU(raw), 32))
  }

  function DecodeJ(raw: bv32): JType {
    JType(Rd(raw), Opcode(raw), SignExtend(ImmediateJ(raw), 21))
  }

  function DecodeA(raw: bv32): AType {
    AType(Rd(raw), Funct3(raw), Rs1(raw), Rs2(raw),
          ((raw >> 25) & 1) as bv1, ((raw >> 26) & 1) as bv1, ((raw >> 27) & 0x1F) as bv5)
  }

  /** An instruction by the format its opcode selects. */
  datatype Instruction =
    | AluOp(r: RType)
    | Jal(j: JType)
    | Jalr(i: IType)
    | LoadOp(i: IType)
    | StoreOp(s: SType)
    | BranchOp(b: BType)
    | AtomicOp(a: AType)
    | SystemOp(i: IType, funct7: bv7, csr: nat)
    | MiscMem(i: IType)
    | Unknown

  predicate UsesAlu(opcode: bv32) {
    || opcode == OP || opcode == OP_32 || opcode == OP_IMM || opcode == OP_IMM_32
    || opcode == LUI || opcode == AUIPC
  }

  function Decode(raw: bv32): Instruction {
    var opcode := raw & 0x7F;
    if UsesAlu(opcode) then AluOp(DecodeR(raw))
    else if opcode == JAL then Jal(DecodeJ(raw))
    else if opcode == JALR then Jalr(DecodeI(raw))
    else if opcode == LOAD then LoadOp(DecodeI(raw))
    else if opcode == STORE then StoreOp(DecodeS(raw))
    else if opcode == BRANCH then BranchOp(DecodeB(raw))
    else if opcode == AMO then AtomicOp(DecodeA(raw))
    else if opcode == SYSTEM then SystemOp(DecodeI(raw), Funct7(raw), CsrField(raw))
    else if opcode == MISC_MEM then MiscMem(DecodeI(raw))
    else Unknown
  }
}
