/**
 * The base instruction formats of the RISC-V Unprivileged ISA (sections 2.2 and 2.3, RV32I):
 * where each field sits in an instruction word and which immediate each format denotes.
 * This is the reference the decoder's raw fields are compared against; the interpreter itself
 * never calls it. The last few functions give the meaning section 2.4 assigns to the
 * immediate-ALU instructions and section 2.6 to the store address, for comparison with the
 * executor.
 */
module Rv32i {
  import opened Bits

  function Opcode(inst: bv32): bv32 { Field(inst, 6, 0) }
  function Rd(inst: bv32): bv32 { Field(inst, 11, 7) }
  function Funct3(inst: bv32): bv32 { Field(inst, 14, 12) }
  function Rs1(inst: bv32): bv32 { Field(inst, 19, 15) }
  function Rs2(inst: bv32): bv32 { Field(inst, 24, 20) }
  function Funct7(inst: bv32): bv32 { Field(inst, 31, 25) }

  /** All bits from `from` upwards set when `sign` is 1: the sign fill of an immediate. */
  function SignFill(sign: bv32, from: bv32): bv32
    requires from < 32
  {
    if sign == 1 then 0xFFFF_FFFF << from else 0
  }

  /** I-immediate: inst[31] fills bits 31..11, inst[30:20] gives bits 10..0. */
  function ImmI(inst: bv32): bv32
  {
    SignFill(Field(inst, 31, 31), 11) | Field(inst, 30, 20)
  }

  /** S-immediate: inst[31] fills bits 31..11, inst[30:25] gives 10..5, inst[11:7] gives 4..0. */
  function ImmS(inst: bv32): bv32
  {
    SignFill(Field(inst, 31, 31), 11) | (Field(inst, 30, 25) << 5) | Field(inst, 11, 7)
  }

  /**
   * B-type branch offset before sign extension (a multiple of 2): inst[31] gives bit 12,
   * inst[7] gives 11, inst[30:25] give 10..5, inst[11:8] give 4..1; bit 0 is zero.
   */
  function OffsetB(inst: bv32): bv32
  {
    (Field(inst, 31, 31) << 12) | (Field(inst, 7, 7) << 11)
    | (Field(inst, 30, 25) << 5) | (Field(inst, 11, 8) << 1)
  }

  /** U-immediate: inst[31:12] gives bits 31..12; the low 12 bits are zero. */
  function ImmU(inst: bv32): bv32
  {
    Field(inst, 31, 12) << 12
  }

  /**
   * J-type jump offset before sign extension (a multiple of 2): inst[31] gives bit 20,
   * inst[19:12] give 19..12, inst[20] gives 11, inst[30:21] give 10..1; bit 0 is zero.
   */
  function OffsetJ(inst: bv32): bv32
  {
    (Field(inst, 31, 31) << 20) | (Field(inst, 19, 12) << 12)
    | (Field(inst, 20, 20) << 11) | (Field(inst, 30, 21) << 1)
  }

  /**
   * Signed less-than on two's-complement words: flipping the sign bit of both maps the signed
   * order onto the unsigned one.
   */
  predicate SignedLess(a: bv32, b: bv32)
  {
    (a ^ 0x8000_0000) < (b ^ 0x8000_0000)
  }

  /** ADDI: `rs1` plus the I-immediate, overflow ignored. */
  function Addi(a: bv32, inst: bv32): bv32
  {
    a + ImmI(inst)
  }

  /** SLTI: 1 when `rs1` is less than the I-immediate, both read as signed numbers. */
  function Slti(a: bv32, inst: bv32): bv32
  {
    if SignedLess(a, ImmI(inst)) then 1 else 0
  }

  /** SLTIU: the I-immediate is sign-extended first and then compared as unsigned. */
  function Sltiu(a: bv32, inst: bv32): bv32
  {
    if a < ImmI(inst) then 1 else 0
  }

  /** The SW target address: `rs1` plus the S-immediate. */
  function StoreTarget(a: bv32, inst: bv32): bv32
  {
    a + ImmS(inst)
  }
}
