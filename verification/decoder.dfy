/**
 * `decode_instruction`: classify a word by its low seven bits and pull out the raw fields of
 * the matching record shape. Immediates are kept exactly as extracted: unsigned, not
 * sign-extended, and (for B, U and J) not shifted back into place.
 */
module Decoder {
  import opened Options
  import opened Bits
  import opened InstructionTypes
  import Rv32i

  /**
   * Decoding fails (no record) exactly for opcodes without a record shape. Otherwise the
   * record has the shape its opcode calls for, holds `inst & 0x7f` as its opcode, and is
   * well-formed (`EncodeDecoded` shows that it also keeps every bit of `inst`).
   */
  function Decode(inst: bv32): (r: Option<Instr>)
    ensures r.Some? <==> ShapeOfOpcode(inst & 0x7F).Some?
    ensures r.Some? ==> r.value.opcode == inst & 0x7F
    ensures r.Some? ==> WellFormed(r.value)
  {
    var opcode := inst & 0x7F;
    if opcode == 0x33 then
      Some(RType(opcode, (inst >> 7) & 0x1F, (inst >> 12) & 0x7, (inst >> 15) & 0x1F,
                 (inst >> 20) & 0x1F, (inst >> 25) & 0x7F))
    else if opcode == 0x13 || opcode == 0x03 then
      Some(IType(opcode, (inst >> 7) & 0x1F, (inst >> 12) & 0x7, (inst >> 15) & 0x1F,
                 inst >> 20))
    else if opcode == 0x23 then
      Some(SType(opcode, (inst >> 12) & 0x7, (inst >> 15) & 0x1F, (inst >> 20) & 0x1F,
                 ((inst >> 7) & 0x1F) | (((inst >> 25) & 0x7F) << 5)))
    else if opcode == 0x63 then
      Some(BType(opcode, (inst >> 12) & 0x7, (inst >> 15) & 0x1F, (inst >> 20) & 0x1F,
                 ((inst >> 8) & 0xF)
                 | (((inst >> 25) & 0x3F) << 4)
                 | (((inst >> 7) & 0x1) << 10)
                 | ((inst >> 31) << 11)))
    else if opcode == 0x37 || opcode == 0x17 then
      Some(UType(opcode, (inst >> 7) & 0x1F, (inst >> 12) & 0xF_FFFF))
    else if opcode == 0x6F then
      Some(JType(opcode, (inst >> 7) & 0x1F,
                 ((inst >> 21) & 0x3FF)
                 | (((inst >> 20) & 0x1) << 10)
                 | (((inst >> 12) & 0xFF) << 11)
                 | ((inst >> 31) << 19)))
    else
      None
  }

  /**
   * Re-packs a record into an instruction word, putting every field back where the decoder
   * took it from. This is the inverse of `Decode` on well-formed records.
   */
  function Encode(d: Instr): bv32
  {
    match d
    case RType(opcode, rd, funct3, rs1, rs2, funct7) =>
      (funct7 << 25) | (rs2 << 20) | (rs1 << 15) | (funct3 << 12) | (rd << 7) | opcode
    case IType(opcode, rd, funct3, rs1, imm) =>
      (imm << 20) | (rs1 << 15) | (funct3 << 12) | (rd << 7) | opcode
    case SType(opcode, funct3, rs1, rs2, imm) =>
      ((imm >> 5) << 25) | (rs2 << 20) | (rs1 << 15) | (funct3 << 12)
      | ((imm & 0x1F) << 7) | opcode
    case BType(opcode, funct3, rs1, rs2, imm) =>
      (((imm >> 11) & 1) << 31) | (((imm >> 4) & 0x3F) << 25) | (rs2 << 20) | (rs1 << 15)
      | (funct3 << 12) | ((imm & 0xF) << 8) | (((imm >> 10) & 1) << 7) | opcode
    case UType(opcode, rd, imm) =>
      (imm << 12) | (rd << 7) | opcode
    case JType(opcode, rd, imm) =>
      (((imm >> 19) & 1) << 31) | ((imm & 0x3FF) << 21) | (((imm >> 10) & 1) << 20)
      | (((imm >> 11) & 0xFF) << 12) | (rd << 7) | opcode
  }

  /** The decoded fields together cover all 32 bits: re-packing them gives back the word. */
  lemma EncodeDecoded(inst: bv32)
    requires Decode(inst).Some?
    ensures Encode(Decode(inst).value) == inst
  {
    match Decode(inst).value.Shape()
    case R => DecodeR(inst); RepackR(inst);
    case I => DecodeI(inst); RepackI(inst);
    case S => DecodeS(inst); RepackS(inst);
    case B => DecodeB(inst); RepackB(inst);
    case U => DecodeU(inst); RepackU(inst);
    case J => DecodeJ(inst); RepackJ(inst);
  }

  // Re-packing the fields of each shape, one shape per lemma.

  lemma RepackR(inst: bv32)
    ensures Encode(RType(Rv32i.Opcode(inst), Rv32i.Rd(inst), Rv32i.Funct3(inst),
                         Rv32i.Rs1(inst), Rv32i.Rs2(inst), Rv32i.Funct7(inst))) == inst
  {
  }

  lemma RepackI(inst: bv32)
    ensures Encode(IType(Rv32i.Opcode(inst), Rv32i.Rd(inst), Rv32i.Funct3(inst),
                         Rv32i.Rs1(inst), Field(inst, 31, 20))) == inst
  {
  }

  lemma RepackS(inst: bv32)
    ensures Encode(SType(Rv32i.Opcode(inst), Rv32i.Funct3(inst), Rv32i.Rs1(inst), Rv32i.Rs2(inst),
                         (Field(inst, 31, 25) << 5) | Field(inst, 11, 7))) == inst
  {
  }

  lemma RepackB(inst: bv32)
    ensures Encode(BType(Rv32i.Opcode(inst), Rv32i.Funct3(inst), Rv32i.Rs1(inst), Rv32i.Rs2(inst),
                         (Field(inst, 31, 31) << 11) | (Field(inst, 7, 7) << 10)
                         | (Field(inst, 30, 25) << 4) | Field(inst, 11, 8))) == inst
  {
  }

  lemma RepackU(inst: bv32)
    ensures Encode(UType(Rv32i.Opcode(inst), Rv32i.Rd(inst), Field(inst, 31, 12))) == inst
  {
  }

  lemma RepackJ(inst: bv32)
    ensures Encode(JType(Rv32i.Opcode(inst), Rv32i.Rd(inst),
                         (Field(inst, 31, 31) << 19) | (Field(inst, 19, 12) << 11)
                         | (Field(inst, 20, 20) << 10) | Field(inst, 30, 21))) == inst
  {
  }

  /** Every well-formed record is the decoding of its own encoding. */
  lemma DecodeEncode(d: Instr)
    requires WellFormed(d)
    ensures Decode(Encode(d)) == Some(d)
  {
    match d
    case RType(opcode, rd, funct3, rs1, rs2, funct7) => RoundTripR(opcode, rd, funct3, rs1, rs2, funct7);
    case IType(opcode, rd, funct3, rs1, imm) => RoundTripI(opcode, rd, funct3, rs1, imm);
    case SType(opcode, funct3, rs1, rs2, imm) => RoundTripS(opcode, funct3, rs1, rs2, imm);
    case BType(opcode, funct3, rs1, rs2, imm) => RoundTripB(opcode, funct3, rs1, rs2, imm);
    case UType(opcode, rd, imm) => RoundTripU(opcode, rd, imm);
    case JType(opcode, rd, imm) => RoundTripJ(opcode, rd, imm);
  }

  // The round trip for each shape, one shape per lemma.

  lemma RoundTripR(opcode: bv32, rd: bv32, funct3: bv32, rs1: bv32, rs2: bv32, funct7: bv32)
    requires opcode == 0x33 && rd < 32 && funct3 < 8 && rs1 < 32 && rs2 < 32 && funct7 < 128
    ensures Decode(Encode(RType(opcode, rd, funct3, rs1, rs2, funct7)))
            == Some(RType(opcode, rd, funct3, rs1, rs2, funct7))
  {
  }

  lemma RoundTripI(opcode: bv32, rd: bv32, funct3: bv32, rs1: bv32, imm: bv32)
    requires opcode == 0x13 || opcode == 0x03
    requires rd < 32 && funct3 < 8 && rs1 < 32 && imm < 0x1000
    ensures Decode(Encode(IType(opcode, rd, funct3, rs1, imm)))
            == Some(IType(opcode, rd, funct3, rs1, imm))
  {
  }

  lemma RoundTripS(opcode: bv32, funct3: bv32, rs1: bv32, rs2: bv32, imm: bv32)
    requires opcode == 0x23 && funct3 < 8 && rs1 < 32 && rs2 < 32 && imm < 0x1000
    ensures Decode(Encode(SType(opcode, funct3, rs1, rs2, imm)))
            == Some(SType(opcode, funct3, rs1, rs2, imm))
  {
  }

  lemma RoundTripB(opcode: bv32, funct3: bv32, rs1: bv32, rs2: bv32, imm: bv32)
    requires opcode == 0x63 && funct3 < 8 && rs1 < 32 && rs2 < 32 && imm < 0x1000
    ensures Decode(Encode(BType(opcode, funct3, rs1, rs2, imm)))
            == Some(BType(opcode, funct3, rs1, rs2, imm))
  {
  }

  lemma RoundTripU(opcode: bv32, rd: bv32, imm: bv32)
    requires opcode == 0x37 || opcode == 0x17
    requires rd < 32 && imm < 0x10_0000
    ensures Decode(Encode(UType(opcode, rd, imm))) == Some(UType(opcode, rd, imm))
  {
  }

  lemma RoundTripJ(opcode: bv32, rd: bv32, imm: bv32)
    requires opcode == 0x6F && rd < 32 && imm < 0x10_0000
    ensures Decode(Encode(JType(opcode, rd, imm))) == Some(JType(opcode, rd, imm))
  {
  }

  /** Two words with the same low seven bits decode to records of the same shape, or both fail. */
  lemma ShapeDependsOnlyOnOpcode(a: bv32, b: bv32)
    requires a & 0x7F == b & 0x7F
    ensures Decode(a).Some? <==> Decode(b).Some?
    ensures Decode(a).Some? ==> Decode(a).value.Shape() == Decode(b).value.Shape()
  {
  }

  // Each lemma below pins down the record decoded for one shape, field by field, in terms
  // of the instruction-word fields of sections 2.2 and 2.3 of the RISC-V Unprivileged ISA.

  /** R-type: opcode, rd, funct3, rs1, rs2 and funct7 are the ISA's fields; no immediate. */
  lemma DecodeR(inst: bv32)
    requires ShapeOfOpcode(inst & 0x7F) == Some(R)
    ensures Decode(inst) == Some(RType(Rv32i.Opcode(inst), Rv32i.Rd(inst), Rv32i.Funct3(inst),
                                       Rv32i.Rs1(inst), Rv32i.Rs2(inst), Rv32i.Funct7(inst)))
  {
  }

  /** I-type: the immediate is the raw twelve bits `inst[31:20]`, not sign-extended. */
  lemma DecodeI(inst: bv32)
    requires ShapeOfOpcode(inst & 0x7F) == Some(I)
    ensures Decode(inst) == Some(IType(Rv32i.Opcode(inst), Rv32i.Rd(inst), Rv32i.Funct3(inst),
                                       Rv32i.Rs1(inst), Field(inst, 31, 20)))
  {
  }

  /** S-type: no rd; the immediate joins `inst[31:25]` above `inst[11:7]`, not sign-extended. */
  lemma DecodeS(inst: bv32)
    requires ShapeOfOpcode(inst & 0x7F) == Some(S)
    ensures Decode(inst) == Some(SType(Rv32i.Opcode(inst), Rv32i.Funct3(inst), Rv32i.Rs1(inst),
                                       Rv32i.Rs2(inst),
                                       (Field(inst, 31, 25) << 5) | Field(inst, 11, 7)))
  {
    assert inst & 0x7F == 0x23;
    ImmediateFieldS(inst);
  }

  /** The S-type immediate extraction of `Decode` against the ISA's layout. */
  lemma ImmediateFieldS(inst: bv32)
    ensures ((inst >> 7) & 0x1F) | (((inst >> 25) & 0x7F) << 5)
              == (Field(inst, 31, 25) << 5) | Field(inst, 11, 7)
  {
  }

  /**
   * B-type: no rd; the twelve-bit immediate holds offset bits 12..1 in order:
   * `inst[31]`, `inst[7]`, `inst[30:25]`, `inst[11:8]`.
   */
  lemma DecodeB(inst: bv32)
    requires ShapeOfOpcode(inst & 0x7F) == Some(B)
    ensures Decode(inst) == Some(BType(Rv32i.Opcode(inst), Rv32i.Funct3(inst), Rv32i.Rs1(inst),
                                       Rv32i.Rs2(inst),
                                       (Field(inst, 31, 31) << 11) | (Field(inst, 7, 7) << 10)
                                       | (Field(inst, 30, 25) << 4) | Field(inst, 11, 8)))
  {
  }

  /** U-type: only rd and the twenty bits `inst[31:12]`, left where they are (not shifted). */
  lemma DecodeU(inst: bv32)
    requires ShapeOfOpcode(inst & 0x7F) == Some(U)
    ensures Decode(inst) == Some(UType(Rv32i.Opcode(inst), Rv32i.Rd(inst), Field(inst, 31, 12)))
  {
  }

  /**
   * J-type: only rd and a twenty-bit immediate holding offset bits 20..1 in order:
   * `inst[31]`, `inst[19:12]`, `inst[20]`, `inst[30:21]`.
   */
  lemma DecodeJ(inst: bv32)
    requires ShapeOfOpcode(inst & 0x7F) == Some(J)
    ensures Decode(inst) == Some(JType(Rv32i.Opcode(inst), Rv32i.Rd(inst),
                                       (Field(inst, 31, 31) << 19) | (Field(inst, 19, 12) << 11)
                                       | (Field(inst, 20, 20) << 10) | Field(inst, 30, 21)))
  {
  }

  /**
   * The raw immediates against the ISA's immediates: I and S immediates become the ISA's once
   * passed through `SignExtend12` (as the executor does); the B and J immediates are the
   * ISA's branch and jump offsets before sign extension, shifted right by one; the U
   * immediate is the ISA's U-immediate shifted right by 12.
   */
  lemma ImmediateI(inst: bv32)
    requires ShapeOfOpcode(inst & 0x7F) == Some(I)
    ensures SignExtend12(Decode(inst).value.imm) == Rv32i.ImmI(inst)
  {
    DecodeI(inst);
    IsaImmediateI(inst);
  }

  lemma ImmediateS(inst: bv32)
    requires ShapeOfOpcode(inst & 0x7F) == Some(S)
    ensures SignExtend12(Decode(inst).value.imm) == Rv32i.ImmS(inst)
  {
    DecodeS(inst);
    IsaImmediateS(inst);
  }

  lemma ImmediateB(inst: bv32)
    requires ShapeOfOpcode(inst & 0x7F) == Some(B)
    ensures Decode(inst).value.imm << 1 == Rv32i.OffsetB(inst)
  {
    DecodeB(inst);
  }

  lemma ImmediateJ(inst: bv32)
    requires ShapeOfOpcode(inst & 0x7F) == Some(J)
    ensures Decode(inst).value.imm << 1 == Rv32i.OffsetJ(inst)
  {
    DecodeJ(inst);
  }

  lemma ImmediateU(inst: bv32)
    requires ShapeOfOpcode(inst & 0x7F) == Some(U)
    ensures Decode(inst) == Some(UType(Rv32i.Opcode(inst), Rv32i.Rd(inst), Rv32i.ImmU(inst) >> 12))
  {
    DecodeU(inst);
    IsaImmediateU(inst);
  }

  lemma IsaImmediateU(inst: bv32)
    ensures Rv32i.ImmU(inst) >> 12 == Field(inst, 31, 12)
  {
  }

  // The ISA's immediates against the decoder's field layout, one bit-vector identity per
  // lemma so that each solver query stays small.

  lemma IsaImmediateI(inst: bv32)
    ensures SignExtend12(Field(inst, 31, 20)) == Rv32i.ImmI(inst)
  {
    if Field(inst, 31, 31) == 0 {
      IsaImmediateIClear(inst);
    } else {
      IsaImmediateISet(inst);
    }
  }

  lemma IsaImmediateIClear(inst: bv32)
    requires Field(inst, 31, 31) == 0
    ensures Field(inst, 31, 20) & 0x800 == 0 && Rv32i.ImmI(inst) == Field(inst, 31, 20)
  {
  }

  lemma IsaImmediateISet(inst: bv32)
    requires Field(inst, 31, 31) == 1
    ensures Field(inst, 31, 20) & 0x800 != 0 && Field(inst, 31, 20) < 0x1000
    ensures Rv32i.ImmI(inst) == Field(inst, 31, 20) | 0xFFFF_F000
  {
  }

  lemma IsaImmediateS(inst: bv32)
    ensures SignExtend12((Field(inst, 31, 25) << 5) | Field(inst, 11, 7)) == Rv32i.ImmS(inst)
  {
    if Field(inst, 31, 31) == 0 {
      IsaImmediateSClear(inst);
    } else {
      IsaImmediateSSet(inst);
    }
  }

  lemma IsaImmediateSClear(inst: bv32)
    requires Field(inst, 31, 31) == 0
    ensures var imm := (Field(inst, 31, 25) << 5) | Field(inst, 11, 7);
      imm & 0x800 == 0 && Rv32i.ImmS(inst) == imm
  {
  }

  lemma IsaImmediateSSet(inst: bv32)
    requires Field(inst, 31, 31) == 1
    ensures var imm := (Field(inst, 31, 25) << 5) | Field(inst, 11, 7);
      imm & 0x800 != 0 && imm < 0x1000 && Rv32i.ImmS(inst) == imm | 0xFFFF_F000
  {
  }
}
