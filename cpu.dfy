// The `CPU` class of ls8/cpu.py: memory and registers as arrays updated in
// place, and the methods `ram_read`, `ram_write`, `load`, `alu` and `run`.
// Each method is proved against the pure semantics in module Semantics (and
// the line rule in module ProgramText), about which the properties are proved.
module Ls8 {
  import opened Semantics
  import opened ProgramText

  /** Storing the next value after a loaded prefix extends the prefix by that value. */
  lemma StoreExtends(done: seq<nat>, init: seq<nat>, v: nat)
    requires |done| < |init|
    ensures (done + init[|done|..])[|done| := v] == (done + [v]) + init[|done| + 1..]
  {
    var n := |done|;
    var stored, extended := (done + init[n..])[n := v], (done + [v]) + init[n + 1..];
    forall k | 0 <= k < |init|
      ensures stored[k] == extended[k]
    {
      if k > n {
        assert (done + init[n..])[k] == init[k];
      }
    }
  }

  class CPU {
    var ram: array<nat>
    var reg: array<nat>
    /** The program counter. */
    var pc: nat
    /** Every value PRN has printed, in order (the program's output). */
    var output: seq<nat>

    ghost predicate Valid()
      reads this
    {
      ram.Length == MemSize && reg.Length == RegCount && ram != reg
    }

    /** The machine state as a value. */
    ghost function State(): (m: Machine)
      reads this, ram, reg
      requires Valid()
      ensures Shaped(m)
    {
      Machine(ram[..], reg[..], pc)
    }

    /** `__init__`: memory and registers cleared, the stack pointer at 0xF4, pc at 0. */
    constructor ()
      ensures Valid() && fresh(ram) && fresh(reg)
      ensures State() == Initial() && output == []
    {
      ram := new nat[MemSize](_ => 0);
      reg := new nat[RegCount](_ => 0);
      pc := 0;
      output := [];
      new;
      reg[SP] := InitialSP;
    }

    /** `ram_read(mar)`: the cell at `mar`, or IndexError past the end of memory. */
    method RamRead(mar: nat) returns (r: Result<nat>)
      requires Valid()
      ensures r.Ok? <==> mar < MemSize
      ensures r.Ok? ==> r.value == ram[mar]
      ensures r.Err? ==> r.fault == IndexError
    {
      if mar >= MemSize {
        return Err(IndexError);
      }
      return Ok(ram[mar]);
    }

    /** `ram_write(mar, mdr)`: store `mdr` at `mar`, or IndexError past the end of memory. */
    method RamWrite(mar: nat, mdr: nat) returns (r: Result<()>)
      requires Valid()
      modifies ram
      ensures r == if mar < MemSize then Ok(()) else Err(IndexError)
      ensures ram[..] == if mar < MemSize then old(ram[..])[mar := mdr] else old(ram[..])
    {
      if mar >= MemSize {
        return Err(IndexError);
      }
      ram[mar] := mdr;
      return Ok(());
    }

    /**
     * The line loop of `load`: clean each line, skip the empty ones, parse
     * the others as base 2 and store them at consecutive addresses from 0.
     */
    method Load(lines: seq<string>) returns (r: LoadOutcome)
      requires Valid()
      modifies ram
      ensures ram[..] == LoadedMemory(old(ram[..]), lines)
      ensures r == LoadResult(lines)
    {
      ghost var texts := Cleaned(lines);
      ghost var done: seq<nat> := [];
      var address := 0;
      var i := 0;
      assert texts[0..] == texts;
      while i < |lines|
        invariant 0 <= i <= |lines|
        invariant address == |done| <= MemSize
        invariant ram[..] == done + old(ram[..])[address..]
        invariant ScannedUpTo(texts, i, done)
      {
        var value := Clean(lines[i]);
        if value == [] {
          ScanSkip(texts, i, done);
          i := i + 1;
          continue;
        }
        var v := ParseBinary(value);
        if v.None? {
          ScanBad(texts, i, done);
          LoadStops(old(ram[..]), lines, done, Some(i));
          return Failed(BadLiteral(i));
        }
        ScanTake(texts, i, done, v.value);
        if address >= MemSize {
          LoadOverflows(old(ram[..]), lines, i, done);
          return Failed(TooLong);
        }
        ghost var before := ram[..];
        ram[address] := v.value;
        assert ram[..] == before[address := v.value];
        StoreExtends(done, old(ram[..]), v.value);
        done := done + [v.value];
        address := address + 1;
        i := i + 1;
      }
      ScanEnd(texts, done);
      LoadStops(old(ram[..]), lines, done, None);
      return Loaded(address);
    }

    /** `alu(op, reg_a, reg_b)`: ADD and MUL update `reg_a` in place, with no masking. */
    method Alu(op: AluOp, a: nat, b: nat) returns (r: Result<()>)
      requires Valid()
      modifies reg
      ensures match AluSpec(op, old(reg[..]), a, b)
              case Ok(regs) => r == Ok(()) && reg[..] == regs
              case Err(f) => r == Err(f) && reg[..] == old(reg[..])
    {
      match op {
        case Add =>
          if a >= RegCount || b >= RegCount {
            return Err(IndexError);
          }
          reg[a] := reg[a] + reg[b];
        case Mul =>
          if a >= RegCount || b >= RegCount {
            return Err(IndexError);
          }
          reg[a] := reg[a] * reg[b];
        case Other =>
          return Err(UnsupportedAluOp);
      }
      return Ok(());
    }

    /** One iteration of the `while running` loop of `run`. */
    method Step() returns (status: Status)
      requires Valid()
      modifies this, ram, reg
      ensures Valid() && ram == old(ram) && reg == old(reg)
      ensures State() == Exec(old(State())).next
      ensures output == old(output) + Exec(old(State())).printed
      ensures status == Exec(old(State())).status
    {
      ghost var m := State();
      if pc >= MemSize {
        return Crash(IndexError);
      }
      var ir := ram[pc];
      var fetchA := RamRead(pc + 1);
      var fetchB := RamRead(pc + 2);
      if fetchA.Err? || fetchB.Err? {
        return Crash(IndexError);
      }
      var a, b := fetchA.value, fetchB.value;
      assert Exec(m) == ExecOp(m, ir, a, b);
      if ir == LDI {
        if a >= RegCount {
          return Crash(IndexError);
        }
        reg[a] := b;
        pc := pc + 3;
      } else if ir == PRN {
        if a >= RegCount {
          return Crash(IndexError);
        }
        output := output + [reg[a]];
        pc := pc + 2;
      } else if ir == HLT {
        pc := pc + 1;
        return Halt;
      } else if ir == MUL {
        var r := Alu(Mul, a, b);
        if r.Err? {
          return Crash(r.fault);
        }
        pc := pc + 3;
      } else if ir == PUSH {
        reg[SP] := Mask8(reg[SP] as int - 1);
        ghost var regs := reg[..];
        if a >= RegCount {
          return Crash(IndexError);
        }
        ram[reg[SP]] := reg[a];
        assert ram[..] == m.ram[regs[SP] := regs[a]];
        pc := pc + 2;
      } else if ir == POP {
        if reg[SP] >= MemSize || a >= RegCount {
          return Crash(IndexError);
        }
        reg[a] := ram[reg[SP]];
        ghost var regs := reg[..];
        reg[SP] := Mask8(reg[SP] + 1);
        assert reg[..] == regs[SP := Mask8(regs[SP] + 1)];
        pc := pc + 2;
      } else {
        return Crash(UnknownInstruction(ir, pc));
      }
      return Continue;
    }

    /**
     * `run`: iterate until HLT or an exception, for at most `fuel`
     * iterations (Properties.RunAlwaysEnds shows 129 always suffice).
     */
    method Run(fuel: nat) returns (outcome: Outcome)
      requires Valid()
      modifies this, ram, reg
      ensures Valid() && ram == old(ram) && reg == old(reg)
      ensures State() == Execute(old(State()), fuel).final
      ensures output == old(output) + Execute(old(State()), fuel).out
      ensures outcome == Execute(old(State()), fuel).outcome
    {
      ghost var start := State();
      ghost var printed: seq<nat> := [];
      var running := true;
      var left := fuel;
      outcome := OutOfFuel;
      while running && left > 0
        invariant Valid() && ram == old(ram) && reg == old(reg)
        invariant output == old(output) + printed
        invariant running ==> outcome == OutOfFuel
        invariant running ==> Execute(start, fuel) == Resumed(printed, Execute(State(), left))
        invariant !running ==> Execute(start, fuel) == Trace(State(), printed, outcome)
        decreases left
      {
        ghost var before := State();
        ResumeAfterStep(before, left, printed);
        var status := Step();
        printed := printed + Exec(before).printed;
        match status {
          case Continue =>
          case Halt =>
            running := false;
            outcome := Halted;
          case Crash(f) =>
            running := false;
            outcome := Faulted(f);
        }
        left := left - 1;
      }
    }
  }
}
