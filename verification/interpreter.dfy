/**
 * The main loop: while the pc lies inside memory, fetch the word at the pc, stop on the
 * all-zero word, otherwise decode and execute it. The model runs the loop on a fuel budget
 * and names why it stopped; the stops the C program reaches only through undefined
 * behaviour (an opcode no record exists for, a store outside memory) are stops here too.
 */
module Interpreter {
  import opened Options
  import opened Bits
  import opened Memory
  import opened InstructionTypes
  import opened Decoder
  import opened Executor

  /** Why a run ended. */
  datatype Stop =
    | PcOutOfRange     // the loop condition `pc < MEM_SIZE` failed
    | ZeroWord         // the fetched word was 0, the halt condition
    | UnknownOpcode    // no record exists for the opcode; the C program executes a null record
    | StoreOutOfRange  // SW would write outside memory; the C program writes out of bounds
    | OutOfFuel        // the model's budget of cycles ran out

  /** A machine the loop can run: valid and with a word-aligned pc. */
  predicate Ready(m: Machine)
  {
    Valid(m) && m.pc % 4 == 0
  }

  /** An aligned pc inside memory leaves room for a whole word. */
  lemma AlignedPcHasRoom(pc: int)
    requires 0 <= pc < MEM_SIZE && pc % 4 == 0
    ensures pc + 3 < MEM_SIZE
  {
  }

  /**
   * `fetch`: the little-endian word at the pc, byte k of the word being the memory byte at
   * pc + k. It is zero exactly when its four bytes are.
   */
  function Fetch(m: Machine): (w: bv32)
    requires Ready(m) && m.pc < MEM_SIZE
    ensures forall k :: 0 <= k < 4 ==> ByteOf(w, k) == m.mem[m.pc + k]
    ensures w == 0 <==> forall i :: m.pc <= i < m.pc + 4 ==> m.mem[i] == 0
  {
    AlignedPcHasRoom(m.pc);
    var w := LoadWord(m.mem, m.pc);
    ZeroWordHasZeroBytes(w);
    w
  }

  /** A word is zero exactly when each of its four bytes is. */
  lemma ZeroWordHasZeroBytes(w: bv32)
    ensures w == 0 <==> forall k :: 0 <= k < 4 ==> ByteOf(w, k) == 0
  {
    if forall k :: 0 <= k < 4 ==> ByteOf(w, k) == 0 {
      assert ByteOf(0, 0) == 0 && ByteOf(0, 1) == 0 && ByteOf(0, 2) == 0 && ByteOf(0, 3) == 0;
      BytesDetermineWord(w, 0);
    }
  }

  /** The record the word at the pc decodes to, if any. */
  function Fetched(m: Machine): Option<Instr>
    requires Ready(m) && m.pc < MEM_SIZE
  {
    Decode(Fetch(m))
  }

  /**
   * One pass of the loop body: stop when the pc has left memory or the word there is zero;
   * otherwise decode it and execute the record. A successful pass leaves a ready machine
   * whose pc is 4 further on and whose register 0 holds zero; a failed one never reports
   * `OutOfFuel`. When each outcome happens, `CycleOutcome` states.
   */
  function Cycle(m: Machine): (r: Result<Machine, Stop>)
    requires Ready(m)
    ensures r != Failure(OutOfFuel)
    ensures r.Success? ==> m.pc < MEM_SIZE
    ensures r.Success? ==> Ready(r.value) && r.value.pc == m.pc + 4 && r.value.regs[REG_ZERO] == 0
  {
    if m.pc >= MEM_SIZE then Failure(PcOutOfRange)
    else if Fetch(m) == 0 then Failure(ZeroWord)
    else match Fetched(m)
      case None => Failure(UnknownOpcode)
      case Some(d) =>
        if d.opcode == 0x23 && !StoreInBounds(d, m) then Failure(StoreOutOfRange)
        else Success(Execute(d, m))
  }

  /**
   * The outcome of a pass: `PcOutOfRange` exactly when the pc is at or past `MEM_SIZE`;
   * inside memory, `ZeroWord` exactly when the fetched word is zero; for a non-zero word,
   * `UnknownOpcode` exactly when its opcode has no record shape; and success exactly when
   * the word decodes and, for SW, the target lies in memory, the successor being what
   * `execute` makes of the record.
   */
  lemma CycleOutcome(m: Machine)
    requires Ready(m)
    ensures Cycle(m) == Failure(PcOutOfRange) <==> m.pc >= MEM_SIZE
    ensures m.pc < MEM_SIZE ==> (Cycle(m) == Failure(ZeroWord) <==> Fetch(m) == 0)
    ensures m.pc < MEM_SIZE && Fetch(m) != 0 ==>
              (Cycle(m) == Failure(UnknownOpcode) <==> ShapeOfOpcode(Fetch(m) & 0x7F).None?)
    ensures Cycle(m).Success? <==>
              && m.pc < MEM_SIZE && Fetch(m) != 0 && Fetched(m).Some?
              && (Fetched(m).value.opcode == 0x23 ==> StoreInBounds(Fetched(m).value, m))
    ensures Cycle(m).Success? ==> Cycle(m).value == Execute(Fetched(m).value, m)
  {
  }

  /** A candidate loop body: a partial function from machines to the outcome of one pass. */
  type Body = Machine --> Result<Machine, Stop>

  /**
   * What the loop relies on in its body, as `Cycle` provides it: on a ready machine it is
   * defined and never reports `OutOfFuel`, and a successful pass starts inside memory and
   * leaves a ready machine 4 bytes further on whose register 0 holds zero.
   */
  ghost predicate LoopBody(body: Body)
  {
    forall m :: Ready(m) ==>
      && body.requires(m)
      && body(m) != Failure(OutOfFuel)
      && (body(m).Success? ==>
            && m.pc < MEM_SIZE && Ready(body(m).value)
            && body(m).value.pc == m.pc + 4 && body(m).value.regs[REG_ZERO] == 0)
  }

  /** `Cycle` is such a body. */
  lemma CycleIsLoopBody()
    ensures LoopBody(Cycle)
  {
  }

  /**
   * The loop over `body`, for at most `fuel` passes. It returns the last machine and why it
   * stopped; the loop's own exits leave a machine on which one more pass fails for that
   * reason.
   */
  function Loop(body: Body, m: Machine, fuel: nat): (r: (Machine, Stop))
    requires LoopBody(body) && Ready(m)
    ensures Ready(r.0)
    ensures r.1 != OutOfFuel ==> body(r.0) == Failure(r.1)
    ensures m.regs[REG_ZERO] == 0 ==> r.0.regs[REG_ZERO] == 0
    decreases fuel
  {
    if fuel == 0 then (m, OutOfFuel)
    else match body(m)
      case Failure(stop) => (m, stop)
      case Success(next) => Loop(body, next, fuel - 1)
  }

  /**
   * A loop that uses up its fuel has moved the pc exactly 4 bytes per pass, and never past
   * the end of memory, since every pass it made started inside memory.
   */
  lemma {:induction false} LoopOutOfFuel(body: Body, m: Machine, fuel: nat)
    requires LoopBody(body) && Ready(m) && Loop(body, m, fuel).1 == OutOfFuel
    ensures Loop(body, m, fuel).0.pc == m.pc + 4 * fuel
    ensures fuel > 0 ==> Loop(body, m, fuel).0.pc <= MEM_SIZE
    decreases fuel
  {
    if fuel > 0 {
      var next := body(m).value;
      LoopOutOfFuel(body, next, fuel - 1);
    }
  }

  /** Once a loop has stopped on its own, more fuel changes nothing. */
  lemma {:induction false} LoopMoreFuel(body: Body, m: Machine, fuel: nat, more: nat)
    requires LoopBody(body) && Ready(m) && fuel <= more && Loop(body, m, fuel).1 != OutOfFuel
    ensures Loop(body, m, more) == Loop(body, m, fuel)
    decreases fuel
  {
    if fuel > 0 && body(m).Success? {
      LoopMoreFuel(body, body(m).value, fuel - 1, more - 1);
    }
  }

  /** The interpreter's main loop: `Loop` with `Cycle` as its body. */
  function Run(m: Machine, fuel: nat): (r: (Machine, Stop))
    requires Ready(m)
    ensures Ready(r.0)
    ensures r.1 != OutOfFuel ==> Cycle(r.0) == Failure(r.1)
    ensures m.regs[REG_ZERO] == 0 ==> r.0.regs[REG_ZERO] == 0
  {
    CycleIsLoopBody();
    Loop(Cycle, m, fuel)
  }

  /**
   * The loop always ends on its own: no executed instruction moves the pc backwards (branches
   * and jumps are decoded but not executed), so after `MEM_SIZE / 4 + 1` passes at the
   * latest the pc has left memory or an exit was taken earlier.
   */
  lemma RunAlwaysStops(m: Machine, fuel: nat)
    requires Ready(m) && fuel > MEM_SIZE / 4
    ensures Run(m, fuel).1 != OutOfFuel
  {
    CycleIsLoopBody();
    if Run(m, fuel).1 == OutOfFuel {
      LoopOutOfFuel(Cycle, m, fuel);
    }
  }

  /** Once a run has stopped on its own, more fuel changes nothing. */
  lemma RunMoreFuel(m: Machine, fuel: nat, more: nat)
    requires Ready(m) && fuel <= more && Run(m, fuel).1 != OutOfFuel
    ensures Run(m, more) == Run(m, fuel)
  {
    CycleIsLoopBody();
    LoopMoreFuel(Cycle, m, fuel, more);
  }
}
