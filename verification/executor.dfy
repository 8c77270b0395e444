/**
 * `execute`: run one decoded record against the register file, the memory and the pc.
 * Only the register-register arm (opcode 0x33), the immediate-ALU arm (0x13) and the store
 * arm (0x23) do anything; every other opcode only advances the pc. After every record the
 * pc moves on by 4 (wrapping as a `uint32_t`) and register 0 is forced back to zero.
 */
module Executor {
  import opened Options
  import opened Bits
  import opened Memory
  import opened InstructionTypes

  /** The interpreter's whole state: `regs`, `memory` and `pc`. */
  datatype Machine = Machine(regs: seq<bv32>, mem: seq<bv8>, pc: Address)

  /** Thirty-two registers and `MEM_SIZE` bytes of memory. */
  predicate Valid(m: Machine)
  {
    |m.regs| == 32 && |m.mem| == MEM_SIZE
  }

  /**
   * What an ALU arm does to its destination register: nothing, or write a value. (Kept apart
   * from the generic `Option` so that the solver reasons about the bit-vector value directly.)
   */
  datatype Write = NoWrite | WriteValue(value: bv32)

  /** `REG_ZERO`. */
  const REG_ZERO: nat := 0

  /**
   * The value the register-register arm computes from `a = regs[rs1]` and `b = regs[rs2]`,
   * if any: funct3 0 is ADD when funct7 is 0 and SUB when funct7 is 0x20; funct3 7, 6 and 4
   * are AND, OR and XOR whatever funct7 holds. Sums and differences wrap modulo 2^32. Any
   * other funct3/funct7 combination computes nothing.
   */
  function RegisterResult(funct3: bv32, funct7: bv32, a: bv32, b: bv32): (v: Write)
    ensures v.WriteValue? <==> (funct3 == 0 && (funct7 == 0 || funct7 == 0x20)) || funct3 in {4, 6, 7}
    ensures funct3 == 0 && funct7 == 0 ==> v == WriteValue(a + b)
    ensures funct3 == 0 && funct7 == 0x20 ==> v == WriteValue(a - b)
    ensures funct3 == 7 ==> v == WriteValue(a & b)
    ensures funct3 == 6 ==> v == WriteValue(a | b)
    ensures funct3 == 4 ==> v == WriteValue(a ^ b)
  {
    if funct3 == 0 then
      if funct7 == 0 then WriteValue(a + b)
      else if funct7 == 0x20 then WriteValue(a - b)
      else NoWrite
    else if funct3 == 7 then WriteValue(a & b)
    else if funct3 == 6 then WriteValue(a | b)
    else if funct3 == 4 then WriteValue(a ^ b)
    else NoWrite
  }

  /**
   * The register-register arm: writes `RegisterResult` of `regs[rs1]` and `regs[rs2]` into
   * `rd`, and nothing at all when that computes nothing. No other register changes.
   */
  function ExecuteR(d: Instr, regs: seq<bv32>): (r: seq<bv32>)
    requires d.RType? && WellFormed(d) && |regs| == 32
    ensures |r| == 32
    ensures forall k :: 0 <= k < 32 && k != Index(d.rd) ==> r[k] == regs[k]
    ensures var v := RegisterResult(d.funct3, d.funct7, regs[Index(d.rs1)], regs[Index(d.rs2)]);
      && (v.WriteValue? ==> r[Index(d.rd)] == v.value)
      && (v.NoWrite? ==> r == regs)
  {
    match RegisterResult(d.funct3, d.funct7, regs[Index(d.rs1)], regs[Index(d.rs2)])
    case WriteValue(v) => regs[Index(d.rd) := v]
    case NoWrite => regs
  }

  /**
   * The value the immediate-ALU arm computes from `a = regs[rs1]` and the raw immediate, if
   * any: ADDI (funct3 0), SLTI (funct3 2) and SLTIU (funct3 3) compute a value, the last two
   * 1 or 0; any other funct3 computes nothing. What each value is, `AddiResult`,
   * `SltiResult` and `SltiuResult` state.
   */
  function ImmediateResult(funct3: bv32, a: bv32, imm: bv32): (v: Write)
    requires imm < 0x1000
    ensures v.WriteValue? <==> funct3 in {0, 2, 3}
    ensures funct3 == 2 || funct3 == 3 ==> v == WriteValue(0) || v == WriteValue(1)
  {
    if funct3 == 0 then WriteValue(a + SignExtend12(imm))
    else if funct3 == 2 then WriteValue(if a < SignExtend12(imm) then 1 else 0)
    else if funct3 == 3 then WriteValue(if a < imm then 1 else 0)
    else NoWrite
  }

  /**
   * ADDI adds the twelve-bit immediate as a signed number, modulo 2^32: it adds `imm` below
   * 0x800 and subtracts `4096 - imm` from 0x800 on.
   */
  lemma AddiResult(a: bv32, imm: bv32)
    requires imm < 0x1000
    ensures imm < 0x800 ==> ImmediateResult(0, a, imm) == WriteValue(a + imm)
    ensures imm >= 0x800 ==> ImmediateResult(0, a, imm) == WriteValue(a - (0x1000 - imm))
  {
    var sum := a + SignExtend12(imm);
    assert ImmediateResult(0, a, imm) == WriteValue(sum);
    AddSignExtended(a, imm);
  }

  /**
   * SLTI compares UNSIGNED against the sign-extended immediate (the C comparison converts
   * the signed immediate to `uint32_t`): a negative immediate turns into a value of at least
   * 0xFFFFF800, which nearly every register value is below.
   */
  lemma SltiResult(a: bv32, imm: bv32)
    requires imm < 0x1000
    ensures imm < 0x800 ==> (ImmediateResult(2, a, imm) == WriteValue(1) <==> a < imm)
    ensures imm >= 0x800 ==>
              (ImmediateResult(2, a, imm) == WriteValue(1) <==> a < imm | 0xFFFF_F000)
  {
  }

  /** SLTIU compares unsigned against the raw, zero-extended immediate. */
  lemma SltiuResult(a: bv32, imm: bv32)
    requires imm < 0x1000
    ensures ImmediateResult(3, a, imm) == WriteValue(1) <==> a < imm
    ensures imm == 1 ==> (ImmediateResult(3, a, imm) == WriteValue(1) <==> a == 0)
  {
  }

  /**
   * The immediate-ALU arm: writes `ImmediateResult` of `regs[rs1]` and the immediate into
   * `rd`, and nothing at all when that computes nothing. No other register changes.
   */
  function ExecuteI(d: Instr, regs: seq<bv32>): (r: seq<bv32>)
    requires d.IType? && WellFormed(d) && |regs| == 32
    ensures |r| == 32
    ensures forall k :: 0 <= k < 32 && k != Index(d.rd) ==> r[k] == regs[k]
    ensures var v := ImmediateResult(d.funct3, regs[Index(d.rs1)], d.imm);
      && (v.WriteValue? ==> r[Index(d.rd)] == v.value)
      && (v.NoWrite? ==> r == regs)
  {
    match ImmediateResult(d.funct3, regs[Index(d.rs1)], d.imm)
    case WriteValue(v) => regs[Index(d.rd) := v]
    case NoWrite => regs
  }

  /** Adding a sign-extended negative 12-bit immediate subtracts its magnitude. */
  lemma AddSignExtended(a: bv32, imm: bv32)
    requires imm < 0x1000
    ensures imm < 0x800 ==> a + SignExtend12(imm) == a + imm
    ensures imm >= 0x800 ==> a + SignExtend12(imm) == a - (0x1000 - imm)
  {
    if imm >= 0x800 {
      assert SignExtend12(imm) == imm - 0x1000;
      WrappingSubtract(a, imm);
    }
  }

  lemma WrappingSubtract(a: bv32, imm: bv32)
    ensures a + (imm - 0x1000) == a - (0x1000 - imm)
  {
  }

  /** The address SW writes to: `regs[rs1]` plus the sign-extended immediate, modulo 2^32. */
  function StoreAddress(d: Instr, regs: seq<bv32>): Address
    requires d.SType? && d.rs1 < 32 && |regs| == 32
  {
    ToAddress(StoreSum(d, regs))
  }

  /** The `uint32_t` sum SW computes as its address. */
  function StoreSum(d: Instr, regs: seq<bv32>): bv32
    requires d.SType? && d.rs1 < 32 && |regs| == 32
  {
    regs[Index(d.rs1)] + SignExtend12(d.imm)
  }

  lemma StoreAddressOfSum(d: Instr, regs: seq<bv32>)
    requires d.SType? && d.rs1 < 32 && |regs| == 32
    ensures StoreAddress(d, regs) == ToAddress(StoreSum(d, regs))
  {
  }

  lemma StoreSumAddsImmediate(d: Instr, regs: seq<bv32>)
    requires d.SType? && d.rs1 < 32 && |regs| == 32
    ensures StoreSum(d, regs) == regs[Index(d.rs1)] + SignExtend12(d.imm)
  {
  }

  /**
   * The SW target lies inside memory. `store_word` does not guard against it; a store outside
   * memory is undefined behaviour in the source, so the model never executes one.
   */
  predicate StoreInBounds(d: Instr, m: Machine)
    requires d.SType? && WellFormed(d) && Valid(m)
  {
    WordInBounds(m.mem, StoreAddress(d, m.regs))
  }

  /**
   * The store arm (SW whatever funct3 holds): `regs[rs2]` is written little-endian at the
   * store address; loading that word back gives `regs[rs2]` and no other byte changes.
   */
  function ExecuteS(d: Instr, m: Machine): (mem: seq<bv8>)
    requires d.SType? && WellFormed(d) && Valid(m) && StoreInBounds(d, m)
    ensures |mem| == MEM_SIZE
    ensures LoadWord(mem, StoreAddress(d, m.regs)) == m.regs[Index(d.rs2)]
    ensures forall i :: 0 <= i < MEM_SIZE && !(StoreAddress(d, m.regs) <= i < StoreAddress(d, m.regs) + 4)
              ==> mem[i] == m.mem[i]
  {
    StoreWord(m.mem, StoreAddress(d, m.regs), m.regs[Index(d.rs2)])
  }

  /**
   * `pc += 4` on the `uint32_t` pc: 4 further on, wrapping past 2^32 back to the bottom of
   * the address space. Either way the alignment modulo 4 is kept.
   */
  function NextPc(pc: Address): (n: Address)
    ensures n == (pc + 4) % WORD_MODULUS
    ensures n % 4 == pc % 4
  {
    if pc + 4 < WORD_MODULUS then pc + 4 else pc + 4 - WORD_MODULUS
  }

  /** The register an arm may write: `rd` of an R-type or I-type ALU record, none otherwise. */
  function Destination(d: Instr): (k: Option<nat>)
    requires WellFormed(d)
    ensures k.Some? ==> k.value < 32
  {
    if d.opcode == 0x33 || d.opcode == 0x13 then Some(Index(d.rd)) else None
  }

  /**
   * `execute`. Whatever the record, the pc keeps its alignment and moves on by 4 (unless that
   * would pass 2^32, where it wraps), register 0 ends as zero, memory changes only for the
   * store opcode 0x23, and no register but the arm's destination (and register 0) changes.
   * The register-register, immediate-ALU and store arms are the ones above; every other
   * opcode (0x03, 0x63, 0x37, 0x17, 0x6f) leaves registers and memory as they were.
   */
  function Execute(d: Instr, m: Machine): (r: Machine)
    requires Valid(m) && WellFormed(d)
    requires d.opcode == 0x23 ==> StoreInBounds(d, m)
    ensures Valid(r)
    ensures r.pc == NextPc(m.pc)
    ensures r.regs[REG_ZERO] == 0
    ensures d.opcode != 0x23 ==> r.mem == m.mem
    ensures forall k :: 0 < k < 32 && Destination(d) != Some(k) ==> r.regs[k] == m.regs[k]
    ensures d.opcode == 0x33 ==> forall k :: 0 < k < 32 ==> r.regs[k] == ExecuteR(d, m.regs)[k]
    ensures d.opcode == 0x13 ==> forall k :: 0 < k < 32 ==> r.regs[k] == ExecuteI(d, m.regs)[k]
    ensures d.opcode == 0x23 ==> r.mem == ExecuteS(d, m)
    ensures d.opcode !in {0x33, 0x13, 0x23} ==> r.mem == m.mem && r.regs == m.regs[REG_ZERO := 0]
  {
    var opcode := d.opcode & 0x7F;
    var (regs, mem) :=
      if opcode == 0x33 then (ExecuteR(d, m.regs), m.mem)
      else if opcode == 0x13 then (ExecuteI(d, m.regs), m.mem)
      else if opcode == 0x23 then (m.regs, ExecuteS(d, m))
      else (m.regs, m.mem);
    Machine(regs[REG_ZERO := 0], mem, NextPc(m.pc))
  }
}
