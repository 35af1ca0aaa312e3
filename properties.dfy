// What one iteration of `run` does for each opcode it handles, the stack
// discipline of PUSH and POP, and facts about whole runs.
module Properties {
  import opened Semantics

  /** The machine is about to execute the opcode `op` with first operand byte `a`. */
  ghost predicate At(m: Machine, op: nat, a: nat)
    requires Shaped(m)
  {
    m.pc + 2 < MemSize && m.ram[m.pc] == op && m.ram[m.pc + 1] == a
  }

  /** Registers `r` and `s` agree everywhere except at index `i`. */
  ghost predicate SameRegsExcept(r: seq<nat>, s: seq<nat>, i: nat)
    requires |r| == |s| == RegCount
  {
    forall j :: 0 <= j < RegCount && j != i ==> r[j] == s[j]
  }

  /**
   * LDI Ra, v sets register a to the byte after it and moves pc past the
   * three bytes of the instruction; no other register and no memory cell
   * changes. A register number of 8 or more raises IndexError with nothing
   * changed.
   */
  lemma LdiSetsRegister(m: Machine, a: nat)
    requires Shaped(m) && At(m, LDI, a)
    ensures var e := Exec(m);
            e.printed == [] && e.next.ram == m.ram &&
            if a < RegCount then
              e.status == Continue && e.next.pc == m.pc + 3 &&
              e.next.reg[a] == m.ram[m.pc + 2] && SameRegsExcept(e.next.reg, m.reg, a)
            else e.status == Crash(IndexError) && e.next == m
  {
  }

  /**
   * PRN Ra prints register a and moves pc by 2, changing nothing else; a
   * register number of 8 or more raises IndexError before anything is printed.
   */
  lemma PrnPrintsRegister(m: Machine, a: nat)
    requires Shaped(m) && At(m, PRN, a)
    ensures var e := Exec(m);
            if a < RegCount then
              e.status == Continue && e.printed == [m.reg[a]] && e.next == m.(pc := m.pc + 2)
            else e.status == Crash(IndexError) && e.printed == [] && e.next == m
  {
  }

  /** HLT ends the loop after moving pc by exactly 1; nothing else changes. */
  lemma HltStops(m: Machine)
    requires Shaped(m) && m.pc + 2 < MemSize && m.ram[m.pc] == HLT
    ensures Exec(m) == Effect(m.(pc := m.pc + 1), [], Halt)
  {
  }

  /**
   * Whatever opcode sits in one of the last two cells (HLT included), the
   * operand prefetch reads past the end of memory before it is dispatched.
   */
  lemma PrefetchPastEndFaults(m: Machine)
    requires Shaped(m) && m.pc + 2 >= MemSize
    ensures Exec(m) == Effect(m, [], Crash(IndexError))
  {
  }

  /**
   * MUL Ra, Rb multiplies register a by register b in place, with no
   * wrap-around, and moves pc by 3; only register a changes.
   */
  lemma MulMultiplies(m: Machine, a: nat)
    requires Shaped(m) && At(m, MUL, a)
    ensures var b := m.ram[m.pc + 2];
            var e := Exec(m);
            e.printed == [] && e.next.ram == m.ram &&
            if a < RegCount && b < RegCount then
              e.status == Continue && e.next.pc == m.pc + 3 &&
              e.next.reg[a] == m.reg[a] * m.reg[b] && SameRegsExcept(e.next.reg, m.reg, a)
            else e.status == Crash(IndexError) && e.next == m
  {
  }

  /**
   * PUSH Ra first moves the stack pointer down by one, modulo 256, then
   * stores register a (read after that move) at the new top of the stack,
   * and moves pc by 2. If a is not a register number the stack pointer has
   * already moved when IndexError is raised.
   */
  lemma PushStores(m: Machine, a: nat)
    requires Shaped(m) && At(m, PUSH, a)
    ensures var sp := (m.reg[SP] as int - 1) % 256;
            var e := Exec(m);
            e.printed == [] && e.next.reg[SP] == sp && SameRegsExcept(e.next.reg, m.reg, SP) &&
            if a < RegCount then
              e.status == Continue && e.next.pc == m.pc + 2 &&
              e.next.ram == m.ram[sp := if a == SP then sp else m.reg[a]]
            else e.status == Crash(IndexError) && e.next.ram == m.ram && e.next.pc == m.pc
  {
  }

  /**
   * POP Ra loads the top of the stack into register a, then moves the stack
   * pointer (as it is after that load) up by one, modulo 256, and moves pc by
   * 2; memory is untouched. A stack pointer past the end of memory, or a
   * register number of 8 or more, raises IndexError with nothing changed.
   */
  lemma PopLoads(m: Machine, a: nat)
    requires Shaped(m) && At(m, POP, a)
    ensures var e := Exec(m);
            e.printed == [] && e.next.ram == m.ram &&
            if m.reg[SP] < MemSize && a < RegCount then
              var top := m.ram[m.reg[SP]];
              e.status == Continue && e.next.pc == m.pc + 2 &&
              e.next.reg[SP] == (if a == SP then top + 1 else m.reg[SP] + 1) % 256 &&
              (a != SP ==> e.next.reg[a] == top && SameRegsExcept(e.next.reg, m.reg[a := top], SP)) &&
              (a == SP ==> SameRegsExcept(e.next.reg, m.reg, SP))
            else e.status == Crash(IndexError) && e.next == m
  {
  }

  /** After a PUSH or a POP that completes, the stack pointer is a valid address. */
  lemma StackPointerStaysInMemory(m: Machine, op: nat, a: nat)
    requires Shaped(m) && (op == PUSH || op == POP) && At(m, op, a)
    requires Exec(m).status.Continue?
    ensures Exec(m).next.reg[SP] < MemSize
  {
  }

  /**
   * PUSH Rx followed by POP Ry, with y not the stack pointer, copies the
   * pushed value into register y and leaves the stack pointer where it was
   * (reduced modulo 256), provided the pushed value does not land on the POP
   * instruction itself. The pushed value is register x, or the lowered stack
   * pointer when x is the stack pointer.
   */
  lemma PushThenPop(m: Machine, x: nat, y: nat)
    requires Shaped(m) && At(m, PUSH, x) && x < RegCount && y < RegCount && y != SP
    requires m.pc + 4 < MemSize && m.ram[m.pc + 2] == POP && m.ram[m.pc + 3] == y
    requires (m.reg[SP] as int - 1) % 256 != m.pc + 2 && (m.reg[SP] as int - 1) % 256 != m.pc + 3
    ensures var first := Exec(m);
            var second := Exec(first.next);
            first.status == Continue && second.status == Continue &&
            first.printed + second.printed == [] &&
            second.next.pc == m.pc + 4 &&
            second.next.reg[y] == (if x == SP then (m.reg[SP] as int - 1) % 256 else m.reg[x]) &&
            second.next.reg[SP] == m.reg[SP] % 256 &&
            (forall j :: 0 <= j < RegCount && j != y && j != SP ==> second.next.reg[j] == m.reg[j])
  {
    var sp := (m.reg[SP] as int - 1) % 256;
    var first := Exec(m);
    PushStores(m, x);
    assert first.next.ram[m.pc + 2] == POP && first.next.ram[m.pc + 3] == y;
    assert first.next.reg[SP] == sp;
    PopLoads(first.next, y);
    assert first.next.ram[sp] == (if x == SP then sp else m.reg[x]);
    assert (sp + 1) % 256 == m.reg[SP] % 256;
  }

  /**
   * Any byte other than the six opcodes stops the run with a fault that
   * names the byte and its address; nothing is printed and no register,
   * memory cell or pc changes.
   */
  lemma UnknownOpcodeFaults(m: Machine)
    requires Shaped(m) && m.pc + 2 < MemSize
    requires m.ram[m.pc] !in {LDI, PRN, HLT, MUL, PUSH, POP}
    ensures Exec(m) == Effect(m, [], Crash(UnknownInstruction(m.ram[m.pc], m.pc)))
  {
  }

  /**
   * A run that has ended (HLT or an exception) within `fuel` iterations is
   * not changed by allowing more iterations.
   */
  lemma {:induction false} MoreFuelSameRun(m: Machine, fuel: nat, more: nat)
    requires Shaped(m) && Execute(m, fuel).outcome != OutOfFuel
    ensures Execute(m, fuel + more) == Execute(m, fuel)
    decreases fuel
  {
    ExecuteStep(m, fuel);
    ExecuteStep(m, fuel + more);
    var e := Exec(m);
    if e.status.Continue? {
      MoreFuelSameRun(e.next, fuel - 1, more);
      assert fuel + more - 1 == fuel - 1 + more;
    }
  }

  /**
   * `run` always ends: with no jump instruction, pc only moves forward, by
   * at least 2 per iteration, and an iteration can only go on from below 254,
   * so within 129 iterations HLT or an exception has stopped the loop.
   */
  lemma RunAlwaysEnds(m: Machine, fuel: nat)
    requires Shaped(m) && fuel >= 129
    ensures Execute(m, fuel).outcome != OutOfFuel
  {
  }

  /** So 129 iterations are as good as any larger number of them. */
  lemma RunIsFinite(m: Machine, fuel: nat, more: nat)
    requires Shaped(m) && fuel >= 129
    ensures Execute(m, fuel + more) == Execute(m, fuel)
  {
    RunAlwaysEnds(m, fuel);
    MoreFuelSameRun(m, fuel, more);
  }

  /** Memory holding `program` at addresses 0.. and zeros after it, in the initial machine. */
  function Booted(program: seq<nat>): (m: Machine)
    requires |program| <= MemSize
    ensures Shaped(m) && m.ram[..|program|] == program
  {
    Initial().(ram := program + seq(MemSize - |program|, _ => 0))
  }

  /**
   * The program LDI R0,8; PRN R0; HLT, given at least three iterations,
   * prints 8 and halts with pc one past the HLT byte and 8 in register 0.
   */
  lemma PrintEight(fuel: nat)
    requires fuel >= 3
    ensures var t := Execute(Booted([LDI, 0, 8, PRN, 0, HLT]), fuel);
            t.out == [8] && t.outcome == Halted && t.final.pc == 6 && t.final.reg[0] == 8
  {
    var m0 := Booted([LDI, 0, 8, PRN, 0, HLT]);
    assert m0.ram[..6] == [LDI, 0, 8, PRN, 0, HLT];
    assert m0.ram[0] == LDI && m0.ram[1] == 0 && m0.ram[2] == 8;
    ExecuteStep(m0, fuel);
    var m1 := m0.(reg := m0.reg[0 := 8], pc := 3);
    assert Exec(m0) == Effect(m1, [], Continue);
    assert m1.ram[3] == PRN && m1.ram[4] == 0;
    ExecuteStep(m1, fuel - 1);
    var m2 := m1.(pc := 5);
    assert Exec(m1) == Effect(m2, [8], Continue);
    assert m2.ram[5] == HLT;
    ExecuteStep(m2, fuel - 2);
    assert Exec(m2) == Effect(m2.(pc := 6), [], Halt);
  }

  /**
   * The byte 0xFF at address 0 faults at once with UnknownInstruction naming
   * 0xFF and address 0; nothing is printed and nothing else happens.
   */
  lemma UnknownByteAtZero(program: seq<nat>, fuel: nat)
    requires 1 <= |program| <= MemSize && program[0] == 0xFF && fuel > 0
    ensures Execute(Booted(program), fuel) == Trace(Booted(program), [], Faulted(UnknownInstruction(0xFF, 0)))
  {
    ExecuteStep(Booted(program), fuel);
  }
}
