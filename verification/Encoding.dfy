/** The instruction formats assembled: decoding undoes it, and it undoes decoding. */
module Encoding {
  import opened Words
  import opened Decoding

  /** `imm` is the two's complement of a number from -2^(bits-1) to 2^(bits-1) - 1. */
  predicate FitsSigned(imm: bv64, bits: bv64)
    requires 0 < bits < 64
  {
    imm + (1 << (bits - 1)) < 1 << bits
  }

  /** The sign bit of an immediate whose highest bit is bit `k`. */
  predicate Signed(imm: bv64, k: bv64)
    requires k < 64
  {
    (imm >> k) & 1 == 1
  }

  function Part(imm: bv64, mask: bv64): bv64 {
    imm & mask
  }

  lemma EvenPart13(imm: bv64)
    requires imm & 1 == 0
    ensures Part(imm, 0x1FFE) == Part(imm, 0x1FFF)
  {
  }

  lemma EvenPart21(imm: bv64)
    requires imm & 1 == 0
    ensures Part(imm, 0x1F_FFFE) == Part(imm, 0x1F_FFFF)
  {
  }

  lemma UpperPart(imm: bv64)
    requires imm & 0xFFF == 0
    ensures Part(imm, 0xFFFF_F000) == Part(imm, 0xFFFF_FFFF)
  {
  }

  // ----- sign extension is two's complement, at the four widths the formats use

  lemma Signed12(imm: bv64)
    requires FitsSigned(imm, 12)
    ensures SignExtend(Part(imm, 0xFFF), 12) == imm
  {
    if imm & 0x800 == 0 {
      assert imm >> 11 == 0;
    } else {
      assert imm >> 11 == 0x1F_FFFF_FFFF_FFFF;
    }
  }

  lemma Extended12(imm: bv64)
    requires imm <= 0xFFF
    ensures FitsSigned(SignExtend(imm, 12), 12)
  {
  }

  lemma Negative12(imm: bv64)
    requires Signed(imm, 11) && imm <= 0xFFF
    ensures Part(SignExtend(imm, 12), 0xFFF) == imm
  {
  }

  lemma Positive12(imm: bv64)
    requires !Signed(imm, 11) && imm <= 0xFFF
    ensures Part(SignExtend(imm, 12), 0xFFF) == imm
  {
  }

  lemma Kept12(imm: bv64)
    requires imm <= 0xFFF
    ensures Part(SignExtend(imm, 12), 0xFFF) == imm
  {
    if Signed(imm, 11) {
      Negative12(imm);
    } else {
      Positive12(imm);
    }
  }

  lemma Signed13(imm: bv64)
    requires FitsSigned(imm, 13)
    ensures SignExtend(Part(imm, 0x1FFF), 13) == imm
  {
    if imm & 0x1000 == 0 {
      assert imm >> 12 == 0;
    } else {
      assert imm >> 12 == 0xF_FFFF_FFFF_FFFF;
    }
  }

  lemma Extended13(imm: bv64)
    requires imm <= 0x1FFF
    ensures FitsSigned(SignExtend(imm, 13), 13)
  {
  }

  lemma Negative13(imm: bv64)
    requires Signed(imm, 12) && imm <= 0x1FFF
    ensures Part(SignExtend(imm, 13), 0x1FFF) == imm
  {
  }

  lemma Positive13(imm: bv64)
    requires !Signed(imm, 12) && imm <= 0x1FFF
    ensures Part(SignExtend(imm, 13), 0x1FFF) == imm
  {
  }

  lemma Kept13(imm: bv64)
    requires imm <= 0x1FFF
    ensures Part(SignExtend(imm, 13), 0x1FFF) == imm
  {
    if Signed(imm, 12) {
      Negative13(imm);
    } else {
      Positive13(imm);
    }
  }

  lemma Signed21(imm: bv64)
    requires FitsSigned(imm, 21)
    ensures SignExtend(Part(imm, 0x1F_FFFF), 21) == imm
  {
    if imm & 0x10_0000 == 0 {
      assert imm >> 20 == 0;
    } else {
      assert imm >> 20 == 0xFFF_FFFF_FFFF;
    }
  }

  lemma Extended21(imm: bv64)
    requires imm <= 0x1F_FFFF
    ensures FitsSigned(SignExtend(imm, 21), 21)
  {
  }

  lemma Negative21(imm: bv64)
    requires Signed(imm, 20) && imm <= 0x1F_FFFF
    ensures Part(SignExtend(imm, 21), 0x1F_FFFF) == imm
  {
  }

  lemma Positive21(imm: bv64)
    requires !Signed(imm, 20) && imm <= 0x1F_FFFF
    ensures Part(SignExtend(imm, 21), 0x1F_FFFF) == imm
  {
  }

  lemma Kept21(imm: bv64)
    requires imm <= 0x1F_FFFF
    ensures Part(SignExtend(imm, 21), 0x1F_FFFF) == imm
  {
    if Signed(imm, 20) {
      Negative21(imm);
    } else {
      Positive21(imm);
    }
  }

  lemma Signed32(imm: bv64)
    requires FitsSigned(imm, 32)
    ensures SignExtend(Part(imm, 0xFFFF_FFFF), 32) == imm
  {
    if imm & 0x8000_0000 == 0 {
      assert imm >> 31 == 0;
    } else {
      assert imm >> 31 == 0x1_FFFF_FFFF;
    }
  }

  lemma Extended32(imm: bv64)
    requires imm <= 0xFFFF_FFFF
    ensures FitsSigned(SignExtend(imm, 32), 32)
  {
  }

  lemma Negative32(imm: bv64)
    requires Signed(imm, 31) && imm <= 0xFFFF_FFFF
    ensures Part(SignExtend(imm, 32), 0xFFFF_FFFF) == imm
  {
  }

  lemma Positive32(imm: bv64)
    requires !Signed(imm, 31) && imm <= 0xFFFF_FFFF
    ensures Part(SignExtend(imm, 32), 0xFFFF_FFFF) == imm
  {
  }

  lemma Kept32(imm: bv64)
    requires imm <= 0xFFFF_FFFF
    ensures Part(SignExtend(imm, 32), 0xFFFF_FFFF) == imm
  {
    if Signed(imm, 31) {
      Negative32(imm);
    } else {
      Positive32(imm);
    }
  }

  // ----- assembling a word from its fields

  function Low32(x: bv64): bv32 {
    (x & 0xFFFF_FFFF) as bv32
  }

  /** The fields that sit at the same place in every format that has them. */
  function Fields(rd: bv5, funct3: bv3, rs1: bv5, rs2: bv5, opcode: bv7): bv32 {
    (opcode as bv32) | ((rd as bv32) << 7) | ((funct3 as bv32) << 12) | ((rs1 as bv32) << 15) | ((rs2 as bv32) << 20)
  }

  function PlacedI(imm: bv32): bv32 {
    (imm & 0xFFF) << 20
  }

  function PlacedS(imm: bv32): bv32 {
    ((imm & 0x1F) << 7) | ((imm & 0xFE0) << 20)
  }

  function PlacedB(imm: bv32): bv32 {
    ((imm & 0x800) >> 4) | ((imm & 0x1E) << 7) | ((imm & 0x7E0) << 20) | ((imm & 0x1000) << 19)
  }

  function PlacedU(imm: bv32): bv32 {
    imm & 0xFFFF_F000
  }

  function PlacedJ(imm: bv32): bv32 {
    (imm & 0xF_F000) | ((imm & 0x800) << 9) | ((imm & 0x7FE) << 20) | ((imm & 0x10_0000) << 11)
  }

  // ----- format I

  function AssembleI(rd: bv5, funct3: bv3, rs1: bv5, opcode: bv7, imm: bv32): bv32 {
    Fields(rd, funct3, rs1, 0, opcode) | PlacedI(imm)
  }

  function EncodeI(d: IType): bv32 {
    AssembleI(d.rd, d.funct3, d.rs1, d.opcode, Low32(d.imm))
  }

  lemma FieldsOfI(rd: bv5, funct3: bv3, rs1: bv5, opcode: bv7, imm: bv32)
    ensures var raw := AssembleI(rd, funct3, rs1, opcode, imm);
            Rd(raw) == rd && Funct3(raw) == funct3 && Rs1(raw) == rs1 && Opcode(raw) == opcode
  {
  }

  lemma ImmediateOfI(rd: bv5, funct3: bv3, rs1: bv5, opcode: bv7, imm: bv64)
    ensures ImmediateI(AssembleI(rd, funct3, rs1, opcode, Low32(imm))) == Part(imm, 0xFFF)
  {
  }

  lemma GatheredI(raw: bv32, d: IType)
    requires Rd(raw) == d.rd && Funct3(raw) == d.funct3 && Rs1(raw) == d.rs1 && Opcode(raw) == d.opcode
    requires SignExtend(ImmediateI(raw), 12) == d.imm
    ensures DecodeI(raw) == d
  {
  }

  lemma ReassembleI(raw: bv32, imm: bv64)
    requires imm & 0xFFF == ImmediateI(raw)
    ensures AssembleI(Rd(raw), Funct3(raw), Rs1(raw), Opcode(raw), Low32(imm)) == raw
  {
  }

  /** Every field set with an immediate in range survives: the sign is recovered, no field leaks into another. */
  lemma IRoundTrip(d: IType)
    requires FitsSigned(d.imm, 12)
    ensures DecodeI(EncodeI(d)) == d
  {
    FieldsOfI(d.rd, d.funct3, d.rs1, d.opcode, Low32(d.imm));
    ImmediateOfI(d.rd, d.funct3, d.rs1, d.opcode, d.imm);
    Signed12(d.imm);
    GatheredI(EncodeI(d), d);
  }

  /** No information is lost: the word can be put together again from what was decoded. */
  lemma IWordRoundTrip(raw: bv32)
    ensures EncodeI(DecodeI(raw)) == raw && FitsSigned(DecodeI(raw).imm, 12)
  {
    Extended12(ImmediateI(raw));
    Kept12(ImmediateI(raw));
    ReassembleI(raw, DecodeI(raw).imm);
  }

  // ----- format S

  function AssembleS(funct3: bv3, rs1: bv5, rs2: bv5, opcode: bv7, imm: bv32): bv32 {
    Fields(0, funct3, rs1, rs2, opcode) | PlacedS(imm)
  }

  function EncodeS(d: SType): bv32 {
    AssembleS(d.funct3, d.rs1, d.rs2, d.opcode, Low32(d.imm))
  }

  lemma FieldsOfS(funct3: bv3, rs1: bv5, rs2: bv5, opcode: bv7, imm: bv32)
    ensures var raw := AssembleS(funct3, rs1, rs2, opcode, imm);
            Funct3(raw) == funct3 && Rs1(raw) == rs1 && Rs2(raw) == rs2 && Opcode(raw) == opcode
  {
  }

  lemma ImmediateOfS(funct3: bv3, rs1: bv5, rs2: bv5, opcode: bv7, imm: bv64)
    ensures ImmediateS(AssembleS(funct3, rs1, rs2, opcode, Low32(imm))) == Part(imm, 0xFFF)
  {
  }

  lemma GatheredS(raw: bv32, d: SType)
    requires Funct3(raw) == d.funct3 && Rs1(raw) == d.rs1 && Rs2(raw) == d.rs2 && Opcode(raw) == d.opcode
    requires SignExtend(ImmediateS(raw), 12) == d.imm
    ensures DecodeS(raw) == d
  {
  }

  lemma ReassembleS(raw: bv32, imm: bv64)
    requires imm & 0xFFF == ImmediateS(raw)
    ensures AssembleS(Funct3(raw), Rs1(raw), Rs2(raw), Opcode(raw), Low32(imm)) == raw
  {
  }

  lemma SRoundTrip(d: SType)
    requires FitsSigned(d.imm, 12)
    ensures DecodeS(EncodeS(d)) == d
  {
    FieldsOfS(d.funct3, d.rs1, d.rs2, d.opcode, Low32(d.imm));
    ImmediateOfS(d.funct3, d.rs1, d.rs2, d.opcode, d.imm);
    Signed12(d.imm);
    GatheredS(EncodeS(d), d);
  }

  lemma SWordRoundTrip(raw: bv32)
    ensures EncodeS(DecodeS(raw)) == raw && FitsSigned(DecodeS(raw).imm, 12)
  {
    Extended12(ImmediateS(raw));
    Kept12(ImmediateS(raw));
    ReassembleS(raw, DecodeS(raw).imm);
  }

  // ----- format B

  function AssembleB(funct3: bv3, rs1: bv5, rs2: bv5, opcode: bv7, imm: bv32): bv32 {
    Fields(0, funct3, rs1, rs2, opcode) | PlacedB(imm)
  }

  function EncodeB(d: BType): bv32 {
    AssembleB(d.funct3, d.rs1, d.rs2, d.opcode, Low32(d.imm))
  }

  lemma FieldsOfB(funct3: bv3, rs1: bv5, rs2: bv5, opcode: bv7, imm: bv32)
    ensures var raw := AssembleB(funct3, rs1, rs2, opcode, imm);
            Funct3(raw) == funct3 && Rs1(raw) == rs1 && Rs2(raw) == rs2 && Opcode(raw) == opcode
  {
  }

  lemma ImmediateOfB(funct3: bv3, rs1: bv5, rs2: bv5, opcode: bv7, imm: bv64)
    ensures ImmediateB(AssembleB(funct3, rs1, rs2, opcode, Low32(imm))) == Part(imm, 0x1FFE)
  {
  }

  lemma GatheredB(raw: bv32, d: BType)
    requires Funct3(raw) == d.funct3 && Rs1(raw) == d.rs1 && Rs2(raw) == d.rs2 && Opcode(raw) == d.opcode
    requires SignExtend(ImmediateB(raw), 13) == d.imm
    ensures DecodeB(raw) == d
  {
  }

  lemma ReassembleB(raw: bv32, imm: bv64)
    requires imm & 0x1FFE == ImmediateB(raw)
    ensures AssembleB(Funct3(raw), Rs1(raw), Rs2(raw), Opcode(raw), Low32(imm)) == raw
  {
  }

  /** Branch offsets are even; the bit that would say so is not stored. */
  lemma BRoundTrip(d: BType)
    requires FitsSigned(d.imm, 13) && d.imm & 1 == 0
    ensures DecodeB(EncodeB(d)) == d
  {
    FieldsOfB(d.funct3, d.rs1, d.rs2, d.opcode, Low32(d.imm));
    ImmediateOfB(d.funct3, d.rs1, d.rs2, d.opcode, d.imm);
    Signed13(d.imm);
    EvenPart13(d.imm);
    GatheredB(EncodeB(d), d);
  }

  lemma BWordRoundTrip(raw: bv32)
    ensures EncodeB(DecodeB(raw)) == raw && FitsSigned(DecodeB(raw).imm, 13) && DecodeB(raw).imm & 1 == 0
  {
    Extended13(ImmediateB(raw));
    Kept13(ImmediateB(raw));
    ReassembleB(raw, DecodeB(raw).imm);
  }

  // ----- format U

  function AssembleU(rd: bv5, opcode: bv7, imm: bv32): bv32 {
    Fields(rd, 0, 0, 0, opcode) | PlacedU(imm)
  }

  function EncodeU(d: UType): bv32 {
    AssembleU(d.rd, d.opcode, Low32(d.imm))
  }

  lemma FieldsOfU(rd: bv5, opcode: bv7, imm: bv32)
    ensures var raw := AssembleU(rd, opcode, imm);
            Rd(raw) == rd && Opcode(raw) == opcode
  {
  }

  lemma ImmediateOfU(rd: bv5, opcode: bv7, imm: bv64)
    ensures ImmediateU(AssembleU(rd, opcode, Low32(imm))) == Part(imm, 0xFFFF_F000)
  {
  }

  lemma GatheredU(raw: bv32, d: UType)
    requires Rd(raw) == d.rd && Opcode(raw) == d.opcode
    requires SignExtend(ImmediateU(raw), 32) == d.imm
    ensures DecodeU(raw) == d
  {
  }

  lemma ReassembleU(raw: bv32, imm: bv64)
    requires imm & 0xFFFF_F000 == ImmediateU(raw)
    ensures AssembleU(Rd(raw), Opcode(raw), Low32(imm)) == raw
  {
  }

  /** An upper immediate has its low twelve bits clear. */
  lemma URoundTrip(d: UType)
    requires FitsSigned(d.imm, 32) && d.imm & 0xFFF == 0
    ensures DecodeU(EncodeU(d)) == d
  {
    FieldsOfU(d.rd, d.opcode, Low32(d.imm));
    ImmediateOfU(d.rd, d.opcode, d.imm);
    Signed32(d.imm);
    UpperPart(d.imm);
    GatheredU(EncodeU(d), d);
  }

  lemma UWordRoundTrip(raw: bv32)
    ensures EncodeU(DecodeU(raw)) == raw && FitsSigned(DecodeU(raw).imm, 32) && DecodeU(raw).imm & 0xFFF == 0
  {
    Extended32(ImmediateU(raw));
    Kept32(ImmediateU(raw));
    ReassembleU(raw, DecodeU(raw).imm);
  }

  // ----- format J

  function AssembleJ(rd: bv5, opcode: bv7, imm: bv32): bv32 {
    Fields(rd, 0, 0, 0, opcode) | PlacedJ(imm)
  }

  function EncodeJ(d: JType): bv32 {
    AssembleJ(d.rd, d.opcode, Low32(d.imm))
  }

  lemma FieldsOfJ(rd: bv5, opcode: bv7, imm: bv32)
    ensures var raw := AssembleJ(rd, opcode, imm);
            Rd(raw) == rd && Opcode(raw) == opcode
  {
  }

  lemma ImmediateOfJ(rd: bv5, opcode: bv7, imm: bv64)
    ensures ImmediateJ(AssembleJ(rd, opcode, Low32(imm))) == Part(imm, 0x1F_FFFE)
  {
  }

  lemma GatheredJ(raw: bv32, d: JType)
    requires Rd(raw) == d.rd && Opcode(raw) == d.opcode
    requires SignExtend(ImmediateJ(raw), 21) == d.imm
    ensures DecodeJ(raw) == d
  {
  }

  lemma ReassembleJ(raw: bv32, imm: bv64)
    requires imm & 0x1F_FFFE == ImmediateJ(raw)
    ensures AssembleJ(Rd(raw), Opcode(raw), Low32(imm)) == raw
  {
  }

  lemma JRoundTrip(d: JType)
    requires FitsSigned(d.imm, 21) && d.imm & 1 == 0
    ensures DecodeJ(EncodeJ(d)) == d
  {
    FieldsOfJ(d.rd, d.opcode, Low32(d.imm));
    ImmediateOfJ(d.rd, d.opcode, d.imm);
    Signed21(d.imm);
    EvenPart21(d.imm);
    GatheredJ(EncodeJ(d), d);
  }

  lemma JWordRoundTrip(raw: bv32)
    ensures EncodeJ(DecodeJ(raw)) == raw && FitsSigned(DecodeJ(raw).imm, 21) && DecodeJ(raw).imm & 1 == 0
  {
    Extended21(ImmediateJ(raw));
    Kept21(ImmediateJ(raw));
    ReassembleJ(raw, DecodeJ(raw).imm);
  }
}
