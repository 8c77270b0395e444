/**
 * The program `main` loads and runs: ADDI x1, x0, 10; ADDI x2, x0, 15; ADD x3, x1, x2;
 * SUB x4, x1, x2, stored little-endian from address 0 into otherwise zero memory. The run
 * executes the four words, fetches the zero word at address 16 and halts with x1 = 10,
 * x2 = 15, x3 = 25 and x4 = 10 - 15 = 0xFFFFFFFB (-5).
 */
module SampleProgram {
  import opened Options
  import opened Bits
  import opened Memory
  import opened InstructionTypes
  import opened Decoder
  import opened Executor
  import opened Interpreter

  /** The four instruction words, in program order. */
  const PROGRAM: seq<bv32> := [0x00A0_0093, 0x00F0_0113, 0x0020_81B3, 0x4020_8233]

  /**
   * The loading loop: word `i` of `words` goes little-endian to `at + 4 * i`; every byte
   * outside those words keeps its value.
   */
  function LoadProgram(mem: seq<bv8>, words: seq<bv32>, at: nat): (r: seq<bv8>)
    requires |mem| == MEM_SIZE && at + 4 * |words| <= MEM_SIZE
    ensures |r| == MEM_SIZE
    ensures forall i :: 0 <= i < |words| ==> LoadWord(r, at + 4 * i) == words[i]
    ensures forall j :: 0 <= j < MEM_SIZE && !(at <= j < at + 4 * |words|) ==> r[j] == mem[j]
    decreases |words|
  {
    if words == [] then mem
    else
      var stored := StoreWord(mem, at, words[0]);
      var r := LoadProgram(stored, words[1..], at + 4);
      LoadSurvives(stored, r, at);
      r
  }

  /** A word whose four bytes are the same in two memories loads the same from both. */
  lemma LoadSurvives(mem: seq<bv8>, r: seq<bv8>, at: Address)
    requires WordInBounds(mem, at) && |r| == |mem|
    requires forall j :: at <= j < at + 4 ==> r[j] == mem[j]
    ensures LoadWord(r, at) == LoadWord(mem, at)
  {
    assert r[at] == mem[at] && r[at + 1] == mem[at + 1];
    assert r[at + 2] == mem[at + 2] && r[at + 3] == mem[at + 3];
    BytesDetermineWord(LoadWord(r, at), LoadWord(mem, at));
  }

  /** The machine `main` starts the loop with: zero registers, the program loaded, pc 0. */
  function Boot(): (m: Machine)
    ensures Ready(m) && m.pc == 0
  {
    Machine(seq(32, _ => 0), BootMemory(), 0)
  }

  function BootMemory(): (mem: seq<bv8>)
    ensures |mem| == MEM_SIZE
  {
    LoadProgram(seq(MEM_SIZE, _ => 0), PROGRAM, 0)
  }

  /** Which registers the program has set so far, at which pc, with the program in memory. */
  predicate After(m: Machine, pc: int, x1: bv32, x2: bv32, x3: bv32, x4: bv32)
  {
    && Ready(m) && m.mem == BootMemory() && m.pc == pc
    && m.regs[0] == 0 && m.regs[1] == x1 && m.regs[2] == x2 && m.regs[3] == x3 && m.regs[4] == x4
  }

  /** The word at `4 * i` is program word `i`. */
  lemma FetchProgram(m: Machine, i: nat)
    requires Ready(m) && m.mem == BootMemory() && i < |PROGRAM| && m.pc == 4 * i
    ensures Fetch(m) == PROGRAM[i]
  {
  }

  lemma StepAddiX1(m: Machine)
    requires After(m, 0, 0, 0, 0, 0)
    ensures Cycle(m).Success? && After(Cycle(m).value, 4, 10, 0, 0, 0)
  {
    FetchProgram(m, 0);
    var d := IType(0x13, 1, 0, 0, 10);
    assert Fetched(m) == Some(d);
    assert Cycle(m) == Success(Execute(d, m));
    AddiResult(0, 10);
    assert ExecuteI(d, m.regs)[1] == 10;
  }

  lemma StepAddiX2(m: Machine)
    requires After(m, 4, 10, 0, 0, 0)
    ensures Cycle(m).Success? && After(Cycle(m).value, 8, 10, 15, 0, 0)
  {
    FetchProgram(m, 1);
    var d := IType(0x13, 2, 0, 0, 15);
    assert Fetched(m) == Some(d);
    assert Cycle(m) == Success(Execute(d, m));
    AddiResult(0, 15);
    assert ExecuteI(d, m.regs)[2] == 15;
  }

  lemma StepAdd(m: Machine)
    requires After(m, 8, 10, 15, 0, 0)
    ensures Cycle(m).Success? && After(Cycle(m).value, 12, 10, 15, 25, 0)
  {
    FetchProgram(m, 2);
    var d := RType(0x33, 3, 0, 1, 2, 0);
    assert Fetched(m) == Some(d);
    assert Cycle(m) == Success(Execute(d, m));
    assert ExecuteR(d, m.regs)[3] == 25;
  }

  lemma StepSub(m: Machine)
    requires After(m, 12, 10, 15, 25, 0)
    ensures Cycle(m).Success? && After(Cycle(m).value, 16, 10, 15, 25, 0xFFFF_FFFB)
  {
    FetchProgram(m, 3);
    var d := RType(0x33, 4, 0, 1, 2, 0x20);
    assert Fetched(m) == Some(d);
    assert Cycle(m) == Success(Execute(d, m));
    assert ExecuteR(d, m.regs)[4] == 0xFFFF_FFFB;
  }

  lemma StepHalt(m: Machine)
    requires Ready(m) && m.mem == BootMemory() && m.pc == 16
    ensures Cycle(m) == Failure(ZeroWord)
  {
  }

  /**
   * The run `main` performs: given at least five passes of fuel, the loop halts on the zero
   * word at address 16 with x1 = 10, x2 = 15, x3 = 25 and x4 = 0xFFFFFFFB, the 32-bit
   * pattern of -5.
   */
  lemma SampleRun(fuel: nat)
    requires fuel >= 5
    ensures var (m, stop) := Run(Boot(), fuel);
      && stop == ZeroWord && m.pc == 16
      && m.regs[1] == 10 && m.regs[2] == 15 && m.regs[3] == 25 && m.regs[4] == 0xFFFF_FFFB
      && ToSigned(m.regs[4]) == -5
  {
    var m0 := Boot();
    StepAddiX1(m0);
    var m1 := Cycle(m0).value;
    StepAddiX2(m1);
    var m2 := Cycle(m1).value;
    StepAdd(m2);
    var m3 := Cycle(m2).value;
    StepSub(m3);
    var m4 := Cycle(m3).value;
    StepHalt(m4);
    assert Run(m4, 1) == (m4, ZeroWord);
    assert Run(m0, 5) == (m4, ZeroWord);
    RunMoreFuel(m0, 5, fuel);
  }
}
