// Pure semantics of the LS-8 machine as implemented by ls8/cpu.py: the machine
// state as a value, the ALU, one iteration of the fetch/decode/execute loop,
// and a run of the loop bounded by a fuel parameter.
//
// Python integers are unbounded and the source masks nothing but the stack
// pointer, so every memory cell and register holds a `nat`. No operation can
// produce a negative value (binary literals, sums, products and a masked stack
// pointer are all non-negative), so Python's negative list indices never arise
// and an index is in range exactly when it is below the list's length.
module Semantics {

  const MemSize: nat := 256
  const RegCount: nat := 8
  /** Register 7 is the stack pointer. */
  const SP: nat := 7
  const InitialSP: nat := 0xF4

  // Opcodes recognised by `run`.
  const LDI: nat := 0x82
  const PRN: nat := 0x47
  const HLT: nat := 0x01
  const MUL: nat := 0xA2
  const POP: nat := 0x46
  const PUSH: nat := 0x45

  /** The exceptions that end a run of the Python program. */
  datatype Fault =
    | IndexError                                      // a list index out of range
    | UnknownInstruction(opcode: nat, address: nat)   // the `else` branch of `run`
    | UnsupportedAluOp                                // `alu` with an unknown selector

  datatype Result<T> = Ok(value: T) | Err(fault: Fault)

  /** The ALU selector; the source passes a string, `Other` stands for any string but "ADD" and "MUL". */
  datatype AluOp = Add | Mul | Other

  datatype Machine = Machine(ram: seq<nat>, reg: seq<nat>, pc: nat)

  ghost predicate Shaped(m: Machine) {
    |m.ram| == MemSize && |m.reg| == RegCount
  }

  /** The state `CPU.__init__` builds. */
  function Initial(): (m: Machine)
    ensures Shaped(m) && m.pc == 0
    ensures forall i :: 0 <= i < MemSize ==> m.ram[i] == 0
    ensures forall i :: 0 <= i < RegCount && i != SP ==> m.reg[i] == 0
    ensures m.reg[SP] == InitialSP
  {
    Machine(seq(MemSize, _ => 0), seq(RegCount, i => if i == SP then InitialSP else 0), 0)
  }

  /** Python's `x & 0xff` on a (possibly negative) int is the Euclidean remainder modulo 256. */
  function Mask8(x: int): (r: nat)
    ensures r < 256 && (0 <= x < 256 ==> r == x)
  {
    x % 256
  }

  /**
   * `alu(op, reg_a, reg_b)` on the register file `reg`: the new register file,
   * or the exception it raises. The selector is tested before any register is
   * read; no result is masked.
   */
  function AluSpec(op: AluOp, reg: seq<nat>, a: nat, b: nat): (r: Result<seq<nat>>)
    ensures r.Ok? <==> op != Other && a < |reg| && b < |reg|
    ensures r.Err? ==> r.fault == if op == Other then UnsupportedAluOp else IndexError
    ensures r.Ok? ==> |r.value| == |reg| && forall i :: 0 <= i < |reg| && i != a ==> r.value[i] == reg[i]
    ensures r.Ok? && op == Add ==> r.value[a] == reg[a] + reg[b]
    ensures r.Ok? && op == Mul ==> r.value[a] == reg[a] * reg[b]
  {
    match op
    case Other => Err(UnsupportedAluOp)
    case Add => if a >= |reg| || b >= |reg| then Err(IndexError) else Ok(reg[a := reg[a] + reg[b]])
    case Mul => if a >= |reg| || b >= |reg| then Err(IndexError) else Ok(reg[a := reg[a] * reg[b]])
  }

  /** How one iteration of the `while running` loop ends. */
  datatype Status = Continue | Halt | Crash(fault: Fault)

  /**
   * The state after one iteration (for a crash, the state at the moment the
   * exception is raised), the values PRN printed, and how the iteration ended.
   */
  datatype Effect = Effect(next: Machine, printed: seq<nat>, status: Status)

  /**
   * The branch of `run` for opcode `ir` with operand bytes `a` and `b`, taken
   * once all three bytes have been fetched.
   */
  function ExecOp(m: Machine, ir: nat, a: nat, b: nat): (e: Effect)
    requires Shaped(m) && m.pc + 2 < MemSize
    ensures Shaped(e.next)
    ensures |e.printed| <= 1
    ensures e.status.Continue? ==> m.pc + 2 <= e.next.pc <= m.pc + 3 <= MemSize
    ensures e.status.Halt? ==> e.next == m.(pc := m.pc + 1) && e.printed == []
    ensures e.status.Crash? ==> e.printed == [] && e.next.pc == m.pc && e.next.ram == m.ram
    ensures !e.status.Continue? ==> e.next.reg[..SP] == m.reg[..SP]
  {
    if ir == LDI then
      if a < RegCount then Effect(m.(reg := m.reg[a := b], pc := m.pc + 3), [], Continue)
      else Effect(m, [], Crash(IndexError))
    else if ir == PRN then
      if a < RegCount then Effect(m.(pc := m.pc + 2), [m.reg[a]], Continue)
      else Effect(m, [], Crash(IndexError))
    else if ir == HLT then
      Effect(m.(pc := m.pc + 1), [], Halt)
    else if ir == MUL then
      match AluSpec(Mul, m.reg, a, b)
      case Ok(regs) => Effect(m.(reg := regs, pc := m.pc + 3), [], Continue)
      case Err(f) => Effect(m, [], Crash(f))
    else if ir == PUSH then
      // the stack pointer is decremented before the operand register is read
      var regs := m.reg[SP := Mask8(m.reg[SP] as int - 1)];
      if a < RegCount then Effect(Machine(m.ram[regs[SP] := regs[a]], regs, m.pc + 2), [], Continue)
      else Effect(m.(reg := regs), [], Crash(IndexError))
    else if ir == POP then
      // `ram[reg[7]]` is read before the target register is indexed
      if m.reg[SP] >= MemSize || a >= RegCount then Effect(m, [], Crash(IndexError))
      else
        var regs := m.reg[a := m.ram[m.reg[SP]]];
        Effect(m.(reg := regs[SP := Mask8(regs[SP] + 1)], pc := m.pc + 2), [], Continue)
    else
      Effect(m, [], Crash(UnknownInstruction(ir, m.pc)))
  }

  /**
   * One iteration of `run`: fetch the opcode at pc and, before dispatching,
   * the two bytes after it; then execute the opcode's branch.
   */
  function Exec(m: Machine): (e: Effect)
    requires Shaped(m)
    ensures Shaped(e.next)
  {
    if m.pc + 2 >= MemSize then
      // `ram[pc]`, `ram_read(pc + 1)` or `ram_read(pc + 2)` is out of range
      Effect(m, [], Crash(IndexError))
    else
      ExecOp(m, m.ram[m.pc], m.ram[m.pc + 1], m.ram[m.pc + 2])
  }

  datatype Outcome = Halted | Faulted(fault: Fault) | OutOfFuel

  /** The final state, everything PRN printed, and how the run ended. */
  datatype Trace = Trace(final: Machine, out: seq<nat>, outcome: Outcome)

  /**
   * `run` for at most `fuel` iterations. Every iteration that does not end
   * the loop moves pc forward by at least 2 and pc + 2 must stay below 256,
   * so the loop can never go on for long (see Properties.RunAlwaysEnds).
   */
  function Execute(m: Machine, fuel: nat): (t: Trace)
    requires Shaped(m)
    ensures Shaped(t.final)
    ensures |t.out| <= fuel
    ensures t.final.pc >= m.pc
    ensures t.outcome == OutOfFuel ==> t.final.pc >= m.pc + 2 * fuel
    ensures t.outcome == OutOfFuel && fuel > 0 ==> t.final.pc <= MemSize
    decreases fuel, 1
  {
    if fuel == 0 then Trace(m, [], OutOfFuel) else Continued(m, fuel - 1)
  }

  /** A run from `m` with fuel for one iteration and `fuel` more. */
  function Continued(m: Machine, fuel: nat): (t: Trace)
    requires Shaped(m)
    ensures Shaped(t.final)
    ensures |t.out| <= fuel + 1
    ensures t.final.pc >= m.pc
    ensures t.outcome == OutOfFuel ==> t.final.pc >= m.pc + 2 * (fuel + 1)
    ensures t.outcome == OutOfFuel ==> t.final.pc <= MemSize
    decreases fuel + 1, 0
  {
    var e := Exec(m);
    match e.status
    case Halt => Trace(e.next, e.printed, Halted)
    case Crash(f) => Trace(e.next, e.printed, Faulted(f))
    case Continue =>
      var t := Execute(e.next, fuel);
      Trace(t.final, e.printed + t.out, t.outcome)
  }

  /** A run that continues after `printed` has already been printed. */
  function Resumed(printed: seq<nat>, t: Trace): Trace {
    t.(out := printed + t.out)
  }

  lemma ResumedTwice(p: seq<nat>, q: seq<nat>, t: Trace)
    ensures Resumed(p, Resumed(q, t)) == Resumed(p + q, t)
  {
    assert p + (q + t.out) == (p + q) + t.out;
  }

  /** One iteration of a run with fuel left, unfolded. */
  lemma ExecuteStep(m: Machine, fuel: nat)
    requires Shaped(m) && fuel > 0
    ensures var e := Exec(m);
            match e.status
            case Continue => Execute(m, fuel) == Resumed(e.printed, Execute(e.next, fuel - 1))
            case Halt => Execute(m, fuel) == Trace(e.next, e.printed, Halted)
            case Crash(f) => Execute(m, fuel) == Trace(e.next, e.printed, Faulted(f))
  {
  }

  /** The loop of `run` after one more iteration: how the rest of the run continues. */
  lemma ResumeAfterStep(m: Machine, fuel: nat, printed: seq<nat>)
    requires Shaped(m) && fuel > 0
    ensures var e := Exec(m);
            var t := Resumed(printed, Execute(m, fuel));
            if e.status.Continue? then t == Resumed(printed + e.printed, Execute(e.next, fuel - 1))
            else t == Trace(e.next, printed + e.printed, if e.status.Halt? then Halted else Faulted(e.status.fault))
  {
    ExecuteStep(m, fuel);
    var e := Exec(m);
    if e.status.Continue? {
      ResumedTwice(printed, e.printed, Execute(e.next, fuel - 1));
    }
  }
}
