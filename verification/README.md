# RV32I interpreter core, modelled in Dafny

This project models the fetch/decode/execute core of a small C interpreter for the RV32I
instruction set (`main.c` and `instruction_types.h`). The interpreter's state is 32
`uint32_t` registers, a 1 MiB byte-addressable memory and a `uint32_t` pc. Its main loop
works like this:

- Fetch the little-endian word at the pc, and halt on the all-zero word.
- Decode the word into one of six record shapes (R, I, S, B, U, J), chosen by its low seven
  bits.
- Execute the record. Only ADD/SUB/AND/OR/XOR, ADDI/SLTI/SLTIU and SW change state.
- Advance the pc by 4 and force register 0 back to zero.

The model is functional. A `Machine` holds `regs: seq<bv32>`, `mem: seq<bv8>` and an
integer pc below 2^32. Each step is a pure function. The loop runs on a fuel budget and
reports why it stopped.

Files, one Dafny module each:

- `options.dfy`: `Option` and `Result`.
- `bits.dfy`: bit fields, `sign_extend` for 12 bits, and conversions.
- `memory.dfy`: `load_word` and `store_word` over a byte sequence.
- `instruction_types.dfy`: the six record shapes as one datatype, plus the opcode-to-shape
  table.
- `rv32i.dfy`: an independent reference. It gives the instruction fields and immediates as
  sections 2.2 and 2.3 of the RISC-V Unprivileged ISA define them. It also gives the meaning
  sections 2.4 and 2.6 assign to ADDI, SLTI, SLTIU and the SW address. The decoder and
  executor are proved against it.
- `decoder.dfy`: `decode_instruction`, its inverse `Encode`, and both round trips.
- `executor.dfy`: `execute`, arm by arm.
- `interpreter.dfy`: `fetch`, one pass of the loop, and the loop itself.
- `conformance.dfy`: the executor against that reference. It says where the two agree, and
  gives concrete words on which SLTI and SLTIU do not.
- `sample_program.dfy`: the four-instruction program `main` loads and runs, proved to halt
  with the expected registers.

The model follows the code wherever it differs from the ISA or from the header comments:

- Decoded immediates are raw, unsigned and unshifted. The I/S immediate is 12 bits. The B
  and J immediates are the branch or jump offset shifted right by one. The U immediate is
  bits 31..12, not shifted left.
- SLTI compares UNSIGNED against the sign-extended immediate. C converts the `int32_t` to
  `uint32_t` in `regs[rs1] < sign_extend(imm, 12)`.
- SLTIU compares against the zero-extended raw immediate. The ISA compares against the
  sign-extended one.
- Opcodes 0x03 (loads), 0x63 (branches), 0x37/0x17 (LUI/AUIPC) and 0x6f (JAL) are decoded
  but only advance the pc.
- SW falls through into the `default` arm, which only prints.
- The fourth program word encodes `sub x4, x1, x2`, whatever its comment says. So x4 ends as
  10 - 15, the bit pattern 0xFFFFFFFB.

## Model

| member | source | states |
|---|---|---|
| Memory.LoadWord | main.c:14-20 | For an address whose four bytes lie in memory, byte k of the loaded word (k = 0..3, least significant first) is the memory byte at address + k: the word is read little-endian |
| Memory.StoreWord | main.c:22-28 | Storing keeps the memory size, puts the low byte of the value at the address itself, makes a load of that word return exactly the stored value, and leaves every byte outside the four written ones unchanged |
| Memory.LoadStoreDisjoint | main.c:14-28 | A store leaves every word load that does not overlap the four written bytes unchanged |
| Memory.StoreLoadIdentity | main.c:14-28 | Storing back the word just loaded from an address leaves memory unchanged |
| Bits.SignExtend12 | main.c:35-38 | The xor-and-subtract trick for 12 bits: a value with bit 11 clear is unchanged; a 12-bit value with bit 11 set gets its upper 20 bits filled with ones, which is the value minus 4096 modulo 2^32 |
| Bits.SignExtendExamples | main.c:35-38 | sign_extend(0xFFF, 12) is the pattern 0xFFFFFFFF, i.e. -1, sign_extend(0x800, 12) is -2048 and sign_extend(0x7FF, 12) is 2047 |
| Bits.SignExtendValue | main.c:35-38 | For every 12-bit val, the int32_t that sign_extend(val, 12) returns is val when val < 2048 and val - 4096 otherwise |
| InstructionTypes.ShapeOfOpcode | main.c:178-198 | Each record shape is allocated for exactly its opcodes: R for 0x33, I for 0x13 and 0x03, S for 0x23, B for 0x63, U for 0x37 and 0x17, J for 0x6f; every other opcode gets no record |
| Decoder.Decode | main.c:40-106 | A word decodes to a record exactly when its low seven bits are one of the eight opcodes; the record's opcode field holds inst & 0x7f, its shape is the one that opcode calls for, register indices are below 32, funct3 below 8, funct7 below 128, and immediates fit their raw widths (12 or 20 bits) |
| Decoder.ShapeDependsOnlyOnOpcode | main.c:42-101 | Two words with the same low seven bits are both decodable or both not, and decode to records of the same shape |
| Decoder.EncodeDecoded | main.c:42-101 | The fields of every decoded shape together cover all 32 bits: re-packing the decoded record gives back the original word |
| Decoder.DecodeEncode | instruction_types.h:7-55 | Every well-formed record of each of the six shapes, carrying exactly the fields its struct declares, is what decoding its packed word gives back |
| Decoder.DecodeR | main.c:45-53 | An R-type word decodes to rd = bits 11..7, funct3 = bits 14..12, rs1 = bits 19..15, rs2 = bits 24..20 and funct7 = bits 31..25, as the ISA places them |
| Decoder.DecodeI | main.c:55-62 | An I-type word (0x13 or 0x03) decodes to the ISA's rd, funct3 and rs1 and to the raw 12-bit immediate bits 31..20 (inst >> 20) |
| Decoder.DecodeS | main.c:64-72 | An S-type word decodes to the ISA's funct3, rs1 and rs2 and to the 12-bit immediate made of bits 31..25 above bits 11..7 |
| Decoder.DecodeB | main.c:74-84 | A B-type word decodes to the ISA's funct3, rs1 and rs2 and to the 12-bit immediate bit 31, bit 7, bits 30..25, bits 11..8 (high to low) |
| Decoder.DecodeU | main.c:86-91 | A U-type word (0x37 or 0x17) decodes to rd and to the raw 20-bit immediate bits 31..12, not shifted |
| Decoder.DecodeJ | main.c:93-101 | A J-type word decodes to rd and to the 20-bit immediate bit 31, bits 19..12, bit 20, bits 30..21 (high to low) |
| Decoder.ImmediateI | main.c:61 | Sign-extending the raw I immediate from 12 bits gives the ISA's I-immediate |
| Decoder.ImmediateS | main.c:70-71 | Sign-extending the raw S immediate from 12 bits gives the ISA's S-immediate |
| Decoder.ImmediateB | main.c:80-83 | The raw B immediate is the ISA's 13-bit branch offset shifted right by one: shifted left once it gives that offset |
| Decoder.ImmediateJ | main.c:97-100 | The raw J immediate is the ISA's 21-bit jump offset shifted right by one: shifted left once it gives that offset |
| Decoder.ImmediateU | main.c:90 | A U-type word decodes to a record whose raw immediate is the ISA's U-immediate shifted right by 12 |
| Executor.RegisterResult | main.c:117-141 | The register-register arm computes ADD (funct3 0, funct7 0), SUB (funct3 0, funct7 0x20), AND (7), OR (6) and XOR (4) modulo 2^32, whatever funct7 holds for the last three; it writes a value exactly for those combinations and nothing otherwise |
| Executor.ExecuteR | main.c:113-143 | The arm writes the computed value into rd and changes no other register; when nothing is computed the registers are unchanged |
| Executor.ImmediateResult | main.c:148-159 | The immediate-ALU arm computes a value exactly for ADDI (funct3 0), SLTI (2) and SLTIU (3), and SLTI and SLTIU compute 0 or 1 |
| Executor.AddiResult | main.c:149 | ADDI adds the immediate as a signed 12-bit number modulo 2^32: it adds imm when imm < 0x800 and subtracts 4096 - imm otherwise |
| Executor.SltiResult | main.c:153 | SLTI yields 1 exactly when regs[rs1] is unsigned-below imm (imm < 0x800), or unsigned-below imm with its upper 20 bits set (imm >= 0x800) |
| Executor.SltiuResult | main.c:157 | SLTIU yields 1 exactly when regs[rs1] is unsigned-below the zero-extended raw immediate; with immediate 1 that means regs[rs1] == 0 |
| Conformance.AddiConforms | main.c:149 | For every word, ADDI on the raw immediate inst[31:20] computes the ISA's ADDI: rs1 plus the sign-extended I-immediate, modulo 2^32 |
| Conformance.SltiConformsOnSameSign | main.c:153 | For an I-type word whose sign-extended immediate has the same sign as regs[rs1], the executor's SLTI gives the ISA's signed comparison |
| Conformance.SltiDiffersOnNegativeRegister | main.c:153 | `slti x2, x2, 0` (0x00012113) with x2 = 0xFFFFFFFF: the ISA yields 1, the executor yields 0 |
| Conformance.SltiuConformsOnNonNegativeImmediate | main.c:157 | For an I-type word with inst[31] clear, the executor's SLTIU gives the ISA's result |
| Conformance.SltiuDiffersOnNegativeImmediate | main.c:157 | `sltiu x2, x2, -1` (0xFFF13113) with x2 = 0x1000: the ISA compares against 0xFFFFFFFF and yields 1, the executor compares against 0xFFF and yields 0 |
| Conformance.StoreAddressConforms | main.c:166 | For every word, the S record `Decoder.DecodeS` shows an S-type word decodes to makes SW write at the ISA's address: regs[rs1] plus the S-immediate, modulo 2^32 |
| Executor.ExecuteI | main.c:144-161 | The arm writes the computed value into rd and changes no other register; when nothing is computed the registers are unchanged |
| Executor.ExecuteS | main.c:162-167 | SW writes regs[rs2] at regs[rs1] + sign_extend(imm, 12) modulo 2^32: loading that word back yields regs[rs2], and no other byte of memory changes |
| Executor.NextPc | main.c:173 | pc += 4 on a uint32_t: the new pc is (pc + 4) mod 2^32, with the same remainder modulo 4 |
| Executor.Execute | main.c:108-176 | Whatever the record, the pc becomes pc + 4 modulo 2^32, register 0 ends as zero, memory changes only for opcode 0x23 and then exactly as the store arm says, and no register other than the ALU arm's rd changes; for 0x33 and 0x13 registers 1..31 are what the arm computes; for every other opcode registers and memory stay as they were, apart from register 0 being forced to zero |
| Interpreter.Fetch | main.c:30-33 | For an aligned pc inside memory, the fetched word is the little-endian word at the pc: its byte k (k = 0..3, least significant first) is the memory byte at pc + k; it is zero exactly when those four bytes are all zero |
| Interpreter.Cycle | main.c:220-232 | A pass that succeeds started inside memory and leaves a machine with an aligned pc 4 further on and register 0 zero; a pass never reports running out of fuel |
| Interpreter.CycleOutcome | main.c:220-232 | A pass stops with PcOutOfRange exactly when pc >= MEM_SIZE, with ZeroWord exactly when the fetched word is 0, with UnknownOpcode exactly when its opcode has no record, and otherwise succeeds with the machine execute produces, unless an SW targets bytes outside memory |
| Interpreter.Loop | main.c:220-232 | The loop keeps the machine ready and register 0 zero, and when it stops on its own, one more pass on its last machine fails for the reason it reports |
| Interpreter.LoopOutOfFuel | main.c:220-232 | A loop that exhausts its fuel has advanced the pc exactly 4 per pass and never beyond MEM_SIZE |
| Interpreter.LoopMoreFuel | main.c:220-232 | Once the loop stops on its own, any larger fuel gives the same result |
| Interpreter.Run | main.c:220-232 | The interpreter's loop keeps the machine ready and register 0 zero, and its exits are exactly the failing passes of the loop body |
| Interpreter.RunAlwaysStops | main.c:220 | Since no executed instruction moves the pc backwards, the loop always ends on its own within MEM_SIZE / 4 + 1 passes |
| Interpreter.RunMoreFuel | main.c:220-232 | Once the interpreter's loop stops on its own, more fuel changes nothing |
| SampleProgram.LoadProgram | main.c:212-218 | The loading loop stores program word i little-endian at address 4i (loading it back gives the word) and leaves every other byte unchanged |
| SampleProgram.SampleRun | main.c:205-232 | Loaded into zero memory and run with at least five passes of fuel, the program halts on the zero word at pc 16 with x1 = 10, x2 = 15, x3 = 25 and x4 = 0xFFFFFFFB, printed as -5 |

## Left out

- Console tracing (`puts`, `printf`) only observes and is not modelled.
- `allocate_instruction`, `malloc` and `free` are not modelled. A record is a datatype value
  instead. `InstructionTypes.ShapeOfOpcode` keeps the opcode-to-shape table they encode.
- Undefined behaviour in the C program becomes an explicit stop of the loop, because the C
  program has no defined behaviour to follow there:
  - an opcode with no record, where `execute` dereferences the null record
    (`UnknownOpcode`);
  - an SW whose four target bytes are not all inside memory, which `store_word` writes out of
    bounds (`StoreOutOfRange`).
- Other C undefined-behaviour details are not modelled, and all arithmetic is `bv32`
  wrap-around:
  - the `int` shift `memory[addr + 3] << 24` in `load_word`;
  - the signed overflow of the `int32_t` sum in ADDI;
  - `sign_extend` with other widths (only the 12-bit use is modelled).
- Branches, LUI, AUIPC, JAL and loads are decoded but, as in the source, not executed. No
  semantics for them is invented.
- The header comments on `imm` ("sign-extended", "shifted left by 12") are not modelled; the
  decoder stores raw fields, and the model follows the decoder.
- The loop runs on fuel: `Run` with too little fuel stops with `OutOfFuel`.
  `Interpreter.RunAlwaysStops` shows that MEM_SIZE / 4 + 1 passes always suffice, so the fuel
  leaves nothing of the C loop unmodelled.
- Decoder.ImmediateB: relates the raw B immediate to the ISA's branch offset bits before
  sign extension (`Rv32i.OffsetB`), not to the sign-extended B-immediate. The source never
  sign-extends it and never executes a branch, so the model does not define the
  sign-extended B-immediate. Decoder.ImmediateJ does the same for J.
