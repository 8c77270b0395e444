/**
 * The six decoded-instruction record shapes. Every shape starts with `opcode`, which holds
 * the low seven bits of the instruction word; the other fields are the raw, unsigned bit
 * fields the decoder extracted (immediates are neither sign-extended nor shifted).
 */
module InstructionTypes {
  import opened Options

  /** Which of the six record shapes an instruction has. */
  datatype Shape = R | I | S | B | U | J

  datatype Instr =
    | RType(opcode: bv32, rd: bv32, funct3: bv32, rs1: bv32, rs2: bv32, funct7: bv32)
    | IType(opcode: bv32, rd: bv32, funct3: bv32, rs1: bv32, imm: bv32)
    | SType(opcode: bv32, funct3: bv32, rs1: bv32, rs2: bv32, imm: bv32)
    | BType(opcode: bv32, funct3: bv32, rs1: bv32, rs2: bv32, imm: bv32)
    | UType(opcode: bv32, rd: bv32, imm: bv32)
    | JType(opcode: bv32, rd: bv32, imm: bv32)
  {
    function Shape(): Shape
    {
      match this
      case RType(_, _, _, _, _, _) => R
      case IType(_, _, _, _, _) => I
      case SType(_, _, _, _, _) => S
      case BType(_, _, _, _, _) => B
      case UType(_, _, _) => U
      case JType(_, _, _) => J
    }
  }

  /**
   * The record shape allocated for each opcode; every other opcode has none.
   * R: 0x33; I: 0x13 (ALU) and 0x03 (loads); S: 0x23; B: 0x63; U: 0x37 (LUI) and 0x17 (AUIPC);
   * J: 0x6f (JAL).
   */
  function ShapeOfOpcode(opcode: bv32): (s: Option<Shape>)
    ensures s == Some(R) <==> opcode == 0x33
    ensures s == Some(I) <==> opcode == 0x13 || opcode == 0x03
    ensures s == Some(S) <==> opcode == 0x23
    ensures s == Some(B) <==> opcode == 0x63
    ensures s == Some(U) <==> opcode == 0x37 || opcode == 0x17
    ensures s == Some(J) <==> opcode == 0x6f
  {
    match opcode
    case 0x33 => Some(R)
    case 0x13 => Some(I)
    case 0x03 => Some(I)
    case 0x23 => Some(S)
    case 0x63 => Some(B)
    case 0x37 => Some(U)
    case 0x17 => Some(U)
    case 0x6f => Some(J)
    case _ => None
  }

  /**
   * A record the decoder can produce: its shape is the one its opcode calls for, register
   * indices are below 32, funct3 below 8, funct7 below 128, and each immediate fits its
   * raw width (12 bits for I, S and B; 20 bits for U and J).
   */
  predicate WellFormed(d: Instr)
  {
    && ShapeOfOpcode(d.opcode) == Some(d.Shape())
    && match d
       case RType(_, rd, funct3, rs1, rs2, funct7) =>
         rd < 32 && funct3 < 8 && rs1 < 32 && rs2 < 32 && funct7 < 128
       case IType(_, rd, funct3, rs1, imm) =>
         rd < 32 && funct3 < 8 && rs1 < 32 && imm < 0x1000
       case SType(_, funct3, rs1, rs2, imm) =>
         funct3 < 8 && rs1 < 32 && rs2 < 32 && imm < 0x1000
       case BType(_, funct3, rs1, rs2, imm) =>
         funct3 < 8 && rs1 < 32 && rs2 < 32 && imm < 0x1000
       case UType(_, rd, imm) =>
         rd < 32 && imm < 0x10_0000
       case JType(_, rd, imm) =>
         rd < 32 && imm < 0x10_0000
  }
}
