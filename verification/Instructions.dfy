/** Whole instruction words: the opcode selects the instruction, and every one can be put together again. */
module Instructions {
  import opened Decoding
  import opened Encoding

  // ----- what the opcode selects

  /** The seven low bits of the word. */
  function OpcodeOf(raw: bv32): bv32 {
    raw & 0x7F
  }

  /** Each opcode of RV64IMA selects its kind of instruction, read in its format. */
  lemma OpcodeSelects(raw: bv32)
    ensures OpcodeOf(raw) == 0x03 ==> Decode(raw) == LoadOp(DecodeI(raw))
    ensures OpcodeOf(raw) == 0x0F ==> Decode(raw) == MiscMem(DecodeI(raw))
    ensures OpcodeOf(raw) == 0x13 || OpcodeOf(raw) == 0x1B ==> Decode(raw) == AluOp(DecodeR(raw))
    ensures OpcodeOf(raw) == 0x17 || OpcodeOf(raw) == 0x37 ==> Decode(raw) == AluOp(DecodeR(raw))
    ensures OpcodeOf(raw) == 0x33 || OpcodeOf(raw) == 0x3B ==> Decode(raw) == AluOp(DecodeR(raw))
    ensures OpcodeOf(raw) == 0x23 ==> Decode(raw) == StoreOp(DecodeS(raw))
    ensures OpcodeOf(raw) == 0x2F ==> Decode(raw) == AtomicOp(DecodeA(raw))
    ensures OpcodeOf(raw) == 0x63 ==> Decode(raw) == BranchOp(DecodeB(raw))
    ensures OpcodeOf(raw) == 0x67 ==> Decode(raw) == Jalr(DecodeI(raw))
    ensures OpcodeOf(raw) == 0x6F ==> Decode(raw) == Jal(DecodeJ(raw))
    ensures OpcodeOf(raw) == 0x73 ==> Decode(raw) == SystemOp(DecodeI(raw), Funct7(raw), CsrField(raw))
  {
    var opcode := OpcodeOf(raw);
    assert opcode == raw & 0x7F;
  }

  // ----- formats R and A

  function AssembleR(rd: bv5, funct3: bv3, rs1: bv5, rs2: bv5, funct7: bv7, opcode: bv7): bv32 {
    Fields(rd, funct3, rs1, rs2, opcode) | ((funct7 as bv32) << 25)
  }

  function EncodeR(d: RType): bv32 {
    AssembleR(d.rd, d.funct3, d.rs1, d.rs2, d.funct7, d.opcode)
  }

  lemma FieldsOfR(rd: bv5, funct3: bv3, rs1: bv5, rs2: bv5, funct7: bv7, opcode: bv7)
    ensures var raw := AssembleR(rd, funct3, rs1, rs2, funct7, opcode);
            && Rd(raw) == rd && Funct3(raw) == funct3 && Rs1(raw) == rs1 && Rs2(raw) == rs2
            && Funct7(raw) == funct7 && Opcode(raw) == opcode
  {
  }

  lemma RRoundTrip(d: RType)
    ensures DecodeR(EncodeR(d)) == d
  {
    FieldsOfR(d.rd, d.funct3, d.rs1, d.rs2, d.funct7, d.opcode);
  }

  lemma RWordRoundTrip(raw: bv32)
    ensures EncodeR(DecodeR(raw)) == raw
  {
    ReassembleR(raw);
  }

  lemma ReassembleR(raw: bv32)
    ensures AssembleR(Rd(raw), Funct3(raw), Rs1(raw), Rs2(raw), Funct7(raw), Opcode(raw)) == raw
  {
  }

  /** The function code of an atomic above its two ordering bits. */
  function AssembleA(rd: bv5, funct3: bv3, rs1: bv5, rs2: bv5, rl: bv1, aq: bv1, funct5: bv5): bv32 {
    Fields(rd, funct3, rs1, rs2, 0x2F) | ((rl as bv32) << 25) | ((aq as bv32) << 26) | ((funct5 as bv32) << 27)
  }

  function EncodeA(d: AType): bv32 {
    AssembleA(d.rd, d.funct3, d.rs1, d.rs2, d.rl, d.aq, d.funct5)
  }

  lemma FieldsOfA(rd: bv5, funct3: bv3, rs1: bv5, rs2: bv5, rl: bv1, aq: bv1, funct5: bv5)
    ensures var raw := AssembleA(rd, funct3, rs1, rs2, rl, aq, funct5);
            && Rd(raw) == rd && Funct3(raw) == funct3 && Rs1(raw) == rs1 && Rs2(raw) == rs2 && OpcodeOf(raw) == 0x2F
  {
  }

  lemma CodeOfA(rd: bv5, funct3: bv3, rs1: bv5, rs2: bv5, rl: bv1, aq: bv1, funct5: bv5)
    ensures var raw := AssembleA(rd, funct3, rs1, rs2, rl, aq, funct5);
            && ((raw >> 25) & 1) as bv1 == rl && ((raw >> 26) & 1) as bv1 == aq && ((raw >> 27) & 0x1F) as bv5 == funct5
  {
  }

  lemma ARoundTrip(d: AType)
    ensures DecodeA(EncodeA(d)) == d && OpcodeOf(EncodeA(d)) == 0x2F
  {
    FieldsOfA(d.rd, d.funct3, d.rs1, d.rs2, d.rl, d.aq, d.funct5);
    CodeOfA(d.rd, d.funct3, d.rs1, d.rs2, d.rl, d.aq, d.funct5);
  }

  lemma ReassembleA(raw: bv32, rl: bv1, aq: bv1, funct5: bv5)
    requires OpcodeOf(raw) == 0x2F
    requires ((raw >> 25) & 1) as bv1 == rl && ((raw >> 26) & 1) as bv1 == aq && ((raw >> 27) & 0x1F) as bv5 == funct5
    ensures AssembleA(Rd(raw), Funct3(raw), Rs1(raw), Rs2(raw), rl, aq, funct5) == raw
  {
  }

  lemma AWordRoundTrip(raw: bv32)
    requires OpcodeOf(raw) == 0x2F
    ensures EncodeA(DecodeA(raw)) == raw
  {
    var d := DecodeA(raw);
    ReassembleA(raw, d.rl, d.aq, d.funct5);
  }

  // ----- whole instructions

  /** The fields of an instruction that a word can hold: its own opcode, and an immediate in range. A system
      instruction's immediate, function code and CSR address are the same twelve bits. */
  predicate Encodable(i: Instruction) {
    match i
    case AluOp(d) =>
      || d.opcode == 0x33 || d.opcode == 0x3B || d.opcode == 0x13
      || d.opcode == 0x1B || d.opcode == 0x37 || d.opcode == 0x17
    case Jal(d) => d.opcode == 0x6F && FitsSigned(d.imm, 21) && d.imm & 1 == 0
    case Jalr(d) => d.opcode == 0x67 && FitsSigned(d.imm, 12)
    case LoadOp(d) => d.opcode == 0x03 && FitsSigned(d.imm, 12)
    case StoreOp(d) => d.opcode == 0x23 && FitsSigned(d.imm, 12)
    case BranchOp(d) => d.opcode == 0x63 && FitsSigned(d.imm, 13) && d.imm & 1 == 0
    case AtomicOp(d) => true
    case SystemOp(d, funct7, csr) =>
      d.opcode == 0x73 && FitsSigned(d.imm, 12) && funct7 == Funct7(EncodeI(d)) && csr == CsrField(EncodeI(d))
    case MiscMem(d) => d.opcode == 0x0F && FitsSigned(d.imm, 12)
    case Unknown => false
  }

  function Assemble(i: Instruction): bv32
    requires Encodable(i)
  {
    match i
    case AluOp(d) => EncodeR(d)
    case Jal(d) => EncodeJ(d)
    case Jalr(d) => EncodeI(d)
    case LoadOp(d) => EncodeI(d)
    case StoreOp(d) => EncodeS(d)
    case BranchOp(d) => EncodeB(d)
    case AtomicOp(d) => EncodeA(d)
    case SystemOp(d, _, _) => EncodeI(d)
    case MiscMem(d) => EncodeI(d)
  }

  lemma OpcodeField(raw: bv32)
    ensures OpcodeOf(raw) == Opcode(raw) as bv32
  {
  }

  lemma ITrip(d: IType)
    requires FitsSigned(d.imm, 12)
    ensures DecodeI(EncodeI(d)) == d && OpcodeOf(EncodeI(d)) == d.opcode as bv32
  {
    IRoundTrip(d);
    OpcodeField(EncodeI(d));
  }

  lemma STrip(d: SType)
    requires FitsSigned(d.imm, 12)
    ensures DecodeS(EncodeS(d)) == d && OpcodeOf(EncodeS(d)) == d.opcode as bv32
  {
    SRoundTrip(d);
    OpcodeField(EncodeS(d));
  }

  lemma BTrip(d: BType)
    requires FitsSigned(d.imm, 13) && d.imm & 1 == 0
    ensures DecodeB(EncodeB(d)) == d && OpcodeOf(EncodeB(d)) == d.opcode as bv32
  {
    BRoundTrip(d);
    OpcodeField(EncodeB(d));
  }

  lemma JTrip(d: JType)
    requires FitsSigned(d.imm, 21) && d.imm & 1 == 0
    ensures DecodeJ(EncodeJ(d)) == d && OpcodeOf(EncodeJ(d)) == d.opcode as bv32
  {
    JRoundTrip(d);
    OpcodeField(EncodeJ(d));
  }

  lemma RTrip(d: RType)
    ensures DecodeR(EncodeR(d)) == d && OpcodeOf(EncodeR(d)) == d.opcode as bv32
  {
    RRoundTrip(d);
    OpcodeField(EncodeR(d));
  }

  /** Every instruction can be written as a word, which decodes to it: of any two instructions the words differ. */
  lemma InstructionRoundTrip(i: Instruction)
    requires Encodable(i)
    ensures Decode(Assemble(i)) == i
  {
    match i
    case AluOp(d) => RTrip(d); OpcodeSelects(EncodeR(d));
    case Jal(d) => JTrip(d); OpcodeSelects(EncodeJ(d));
    case Jalr(d) => ITrip(d); OpcodeSelects(EncodeI(d));
    case LoadOp(d) => ITrip(d); OpcodeSelects(EncodeI(d));
    case StoreOp(d) => STrip(d); OpcodeSelects(EncodeS(d));
    case BranchOp(d) => BTrip(d); OpcodeSelects(EncodeB(d));
    case AtomicOp(d) => ARoundTrip(d); OpcodeSelects(EncodeA(d));
    case SystemOp(d, _, _) => ITrip(d); OpcodeSelects(EncodeI(d));
    case MiscMem(d) => ITrip(d); OpcodeSelects(EncodeI(d));
  }

  /** The word has the opcode of the instruction, and its fields. */
  predicate ReadsAs(raw: bv32, i: Instruction) {
    var opcode := OpcodeOf(raw);
    match i
    case AluOp(d) =>
      d == DecodeR(raw) && (opcode == 0x33 || opcode == 0x3B || opcode == 0x13
                            || opcode == 0x1B || opcode == 0x37 || opcode == 0x17)
    case Jal(d) => d == DecodeJ(raw) && opcode == 0x6F
    case Jalr(d) => d == DecodeI(raw) && opcode == 0x67
    case LoadOp(d) => d == DecodeI(raw) && opcode == 0x03
    case StoreOp(d) => d == DecodeS(raw) && opcode == 0x23
    case BranchOp(d) => d == DecodeB(raw) && opcode == 0x63
    case AtomicOp(d) => d == DecodeA(raw) && opcode == 0x2F
    case SystemOp(d, funct7, csr) =>
      d == DecodeI(raw) && opcode == 0x73 && funct7 == Funct7(raw) && csr == CsrField(raw)
    case MiscMem(d) => d == DecodeI(raw) && opcode == 0x0F
    case Unknown => true
  }

  lemma KindShowsOpcode(raw: bv32)
    ensures ReadsAs(raw, Decode(raw))
  {
    var opcode := OpcodeOf(raw);
    assert opcode == raw & 0x7F;
  }

  /** The word an immediate format holds is all there is to it. */
  lemma IWhole(raw: bv32)
    ensures EncodeI(DecodeI(raw)) == raw && FitsSigned(DecodeI(raw).imm, 12)
    ensures OpcodeOf(raw) == DecodeI(raw).opcode as bv32
  {
    IWordRoundTrip(raw);
    OpcodeField(raw);
  }

  /** Every word but the unknown ones is that of the instruction it decodes to. */
  lemma WordRoundTrip(raw: bv32)
    requires Decode(raw) != Unknown
    ensures Encodable(Decode(raw)) && Assemble(Decode(raw)) == raw
  {
    KindShowsOpcode(raw);
    var i := Decode(raw);
    if i.Jalr? || i.LoadOp? || i.SystemOp? || i.MiscMem? {
      IWhole(raw);
    } else {
      OtherWordRoundTrip(raw, i);
    }
  }

  lemma OtherWordRoundTrip(raw: bv32, i: Instruction)
    requires ReadsAs(raw, i) && !(i.Jalr? || i.LoadOp? || i.SystemOp? || i.MiscMem? || i.Unknown?)
    ensures Encodable(i) && Assemble(i) == raw
  {
    OpcodeField(raw);
    match i
    case AluOp(d) => RWordRoundTrip(raw);
    case Jal(d) => JWordRoundTrip(raw);
    case StoreOp(d) => SWordRoundTrip(raw);
    case BranchOp(d) => BWordRoundTrip(raw);
    case AtomicOp(d) => AWordRoundTrip(raw);
  }
}
