/**
 * The executor's immediate-ALU and store arms against the meaning the RISC-V Unprivileged ISA
 * gives the same instruction words (sections 2.4 and 2.6). ADDI and the SW address agree
 * with the ISA on every word. SLTI and SLTIU agree only on part of their inputs: SLTI
 * compares unsigned where the ISA compares signed, and SLTIU compares against the raw
 * immediate where the ISA sign-extends it first. For each of the two, one lemma states where
 * they agree and one exhibits a word and a register value where they do not.
 */
module Conformance {
  import opened Options
  import opened Bits
  import opened InstructionTypes
  import opened Decoder
  import opened Executor
  import Rv32i

  /**
   * ADDI computes the ISA's sum for every word. The raw immediate is `inst[31:20]`, as
   * `DecodeI` states of every I-type word.
   */
  lemma AddiConforms(inst: bv32, a: bv32)
    ensures ImmediateResult(0, a, Field(inst, 31, 20)) == WriteValue(Rv32i.Addi(a, inst))
  {
    IsaImmediateI(inst);
    AddsImmediate(a, Field(inst, 31, 20), Rv32i.ImmI(inst));
    IsaAddiIsSum(a, inst);
  }

  lemma IsaAddiIsSum(a: bv32, inst: bv32)
    ensures Rv32i.Addi(a, inst) == a + Rv32i.ImmI(inst)
  {
  }

  lemma AddsImmediate(a: bv32, imm: bv32, isa: bv32)
    requires imm < 0x1000 && SignExtend12(imm) == isa
    ensures ImmediateResult(0, a, imm) == WriteValue(a + isa)
  {
    AddiAddsSignExtended(a, imm);
  }

  lemma AddiAddsSignExtended(a: bv32, imm: bv32)
    requires imm < 0x1000
    ensures ImmediateResult(0, a, imm) == WriteValue(a + SignExtend12(imm))
  {
  }

  /** When the register and the immediate have the same sign, SLTI gives the ISA's answer. */
  lemma SltiConformsOnSameSign(inst: bv32, a: bv32)
    requires ShapeOfOpcode(inst & 0x7F) == Some(I)
    requires (a ^ Rv32i.ImmI(inst)) & 0x8000_0000 == 0
    ensures ImmediateResult(2, a, Decode(inst).value.imm) == WriteValue(Rv32i.Slti(a, inst))
  {
    ImmediateI(inst);
    var isa := Rv32i.ImmI(inst);
    ComparesSameSign(a, Decode(inst).value.imm, isa);
    assert Rv32i.Slti(a, inst) == if Rv32i.SignedLess(a, isa) then 1 else 0;
  }

  lemma ComparesSameSign(a: bv32, imm: bv32, isa: bv32)
    requires imm < 0x1000 && SignExtend12(imm) == isa && (a ^ isa) & 0x8000_0000 == 0
    ensures ImmediateResult(2, a, imm) == WriteValue(if Rv32i.SignedLess(a, isa) then 1 else 0)
  {
    SameSignOrder(a, isa);
  }

  /** On operands of the same sign, signed and unsigned order agree. */
  lemma SameSignOrder(a: bv32, b: bv32)
    requires (a ^ b) & 0x8000_0000 == 0
    ensures Rv32i.SignedLess(a, b) <==> a < b
  {
  }

  /**
   * `slti x2, x2, 0` with x2 = 0xFFFFFFFF (-1): the ISA sets x2 to 1 since -1 < 0, the
   * executor computes 0.
   */
  lemma SltiDiffersOnNegativeRegister()
    ensures Decode(0x0001_2113) == Some(IType(0x13, 2, 2, 2, 0))
    ensures Rv32i.Slti(0xFFFF_FFFF, 0x0001_2113) == 1
    ensures ImmediateResult(2, 0xFFFF_FFFF, 0) == WriteValue(0)
  {
  }

  /** For a non-negative immediate (bit 11 clear), SLTIU gives the ISA's answer. */
  lemma SltiuConformsOnNonNegativeImmediate(inst: bv32, a: bv32)
    requires ShapeOfOpcode(inst & 0x7F) == Some(I)
    requires Field(inst, 31, 31) == 0
    ensures ImmediateResult(3, a, Decode(inst).value.imm) == WriteValue(Rv32i.Sltiu(a, inst))
  {
    ImmediateI(inst);
    DecodeI(inst);
    assert SignExtend12(Decode(inst).value.imm) == Decode(inst).value.imm;
  }

  /**
   * `sltiu x2, x2, -1` with x2 = 0x1000: the ISA compares against 0xFFFFFFFF and sets 1, the
   * executor compares against the raw 0xFFF and computes 0.
   */
  lemma SltiuDiffersOnNegativeImmediate()
    ensures Decode(0xFFF1_3113) == Some(IType(0x13, 2, 3, 2, 0xFFF))
    ensures Rv32i.Sltiu(0x1000, 0xFFF1_3113) == 1
    ensures ImmediateResult(3, 0x1000, 0xFFF) == WriteValue(0)
  {
  }

  /**
   * SW writes at the address the ISA names: `rs1` plus the S-immediate, modulo 2^32. The
   * record is the one `DecodeS` states every S-type word decodes to.
   */
  lemma StoreAddressConforms(inst: bv32, regs: seq<bv32>)
    requires |regs| == 32
    ensures Rv32i.Rs1(inst) < 32
    ensures var d := SType(Rv32i.Opcode(inst), Rv32i.Funct3(inst), Rv32i.Rs1(inst), Rv32i.Rs2(inst),
                           (Field(inst, 31, 25) << 5) | Field(inst, 11, 7));
      StoreAddress(d, regs) == ToAddress(Rv32i.StoreTarget(regs[Index(Rv32i.Rs1(inst))], inst))
  {
    RegisterFieldFits(inst);
    var d := SType(Rv32i.Opcode(inst), Rv32i.Funct3(inst), Rv32i.Rs1(inst), Rv32i.Rs2(inst),
                   (Field(inst, 31, 25) << 5) | Field(inst, 11, 7));
    var base := regs[Index(d.rs1)];
    IsaImmediateS(inst);
    AddsSame(base, SignExtend12(d.imm), Rv32i.ImmS(inst));
    IsaStoreTargetIsSum(base, inst);
    StoreSumAddsImmediate(d, regs);
    StoreAddressOfSum(d, regs);
  }

  lemma RegisterFieldFits(inst: bv32)
    ensures Rv32i.Rs1(inst) < 32
  {
  }

  lemma AddsSame(base: bv32, x: bv32, y: bv32)
    requires x == y
    ensures base + x == base + y
  {
  }

  lemma IsaStoreTargetIsSum(a: bv32, inst: bv32)
    ensures Rv32i.StoreTarget(a, inst) == a + Rv32i.ImmS(inst)
  {
  }
}
