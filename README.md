# LS-8 emulator core in Dafny

This project models the `CPU` class of the LS-8 emulator (`ls8/cpu.py`). The
class emulates a small 8-bit machine. It has 256 memory cells, eight
registers and a program counter. Register 7 is the stack pointer, and it
starts at 0xF4. `load` reads a program text and puts one value per line into
memory from address 0. `run` then fetches, decodes and executes instructions
until HLT or an exception. It handles six opcodes: LDI, PRN, HLT, MUL, PUSH
and POP.

The project has four modules:

- `Semantics` (machine.dfy) holds the pure semantics. A `Machine` value holds
  memory, registers and pc. `AluSpec` is the ALU. `Exec` is one iteration of
  the `while running` loop, and `ExecOp` is its dispatch on the opcode.
  `Execute` runs that loop for at most `fuel` iterations.
- `ProgramText` (program_text.dfy) holds the line-to-value rule of `load`.
  Each line is cut at its first `#`, stripped, skipped when empty, and read
  in base 2. The module also says what memory holds after a load.
- `Ls8` (cpu.dfy) holds the class `CPU`. Its `ram` and `reg` are arrays
  updated in place. Each method is proved against the functions above.
- `Properties` (properties.dfy) holds what each opcode does, the stack
  discipline of PUSH and POP, and facts about whole runs.

Some details of the model:

- Values are unbounded `nat`s, as Python ints are. ADD and MUL do not wrap
  around. Only the stack pointer is reduced: `& 0xff` on a Python int is the
  remainder modulo 256, as `Mask8` states.
- An exception is a `Fault`. A list index out of range is `IndexError`, an
  unknown opcode is `UnknownInstruction(opcode, address)`, and an ALU
  selector other than "ADD" and "MUL" is `UnsupportedAluOp`. Where the source
  has already changed state before raising, the model keeps that change. For
  example, PUSH lowers the stack pointer before it reads the operand
  register.
- Every iteration reads the two bytes after the opcode before dispatching.
  So any instruction whose opcode sits in one of the last two cells raises
  IndexError, HLT included (`PrefetchPastEndFaults`).
- No opcode in this file jumps, so pc moves forward by at least 2 on every
  iteration that goes on. Every run therefore ends within 129 iterations
  (`RunAlwaysEnds`), and a larger fuel changes nothing (`RunIsFinite`).

Three consequences of the code that a reader of an 8-bit machine might not
expect:

- ADD and MUL results are not masked (ls8/cpu.py:72, 74), so a register can
  exceed 255. A literal with a 1 before its last eight digits, such as
  `100000000`, loads a value above 255 (ls8/cpu.py:42-43).
- `run` dispatches only six opcodes (ls8/cpu.py:111-148). There is no jump,
  compare, call or return, and no flags register. Only `alu` itself handles
  "ADD".
- An unknown opcode is reported with its address (ls8/cpu.py:150) only when
  it is not in the last two cells. In those cells the operand prefetch
  (ls8/cpu.py:106-108) raises IndexError first.

## Model

| member | source | states |
|---|---|---|
| `Semantics.Initial` | ls8/cpu.py:8-20 | the initial state has every memory cell 0, registers 0 to 6 at 0, the stack pointer at 0xF4 and pc 0 |
| `Ls8.CPU.constructor` | ls8/cpu.py:8-20 | a new CPU has fresh arrays of 256 and 8 cells, no output, and the initial state |
| `Ls8.CPU.RamRead` | ls8/cpu.py:22-23 | succeeds exactly when the address is below 256, and then returns that cell; otherwise IndexError |
| `Ls8.CPU.RamWrite` | ls8/cpu.py:25-26 | stores the value at an address below 256 and changes no other cell; past the end it raises IndexError and memory is unchanged |
| `ProgramText.BeforeHash` | ls8/cpu.py:39 | `split("#")[0]` is the longest '#'-free prefix of the line, followed by a '#' when it is not the whole line |
| `ProgramText.Strip` | ls8/cpu.py:39 | what `strip` keeps is no longer than the text and neither starts nor ends with whitespace |
| `ProgramText.Clean` | ls8/cpu.py:39 | a cleaned line holds no '#' and neither starts nor ends with whitespace |
| `ProgramText.ParseBinary` | ls8/cpu.py:42 | a literal parses exactly when it is a non-empty string of binary digits, and its value is below 2 to the power of its length |
| `ProgramText.CommentIgnored` | ls8/cpu.py:39 | a line holds the same text whatever comment follows its first '#' |
| `ProgramText.StripRemovesOnlySpace` | ls8/cpu.py:39 | `strip` keeps a slice that neither starts nor ends with whitespace, and everything it removes is whitespace |
| `ProgramText.BinaryRoundTrip` | ls8/cpu.py:42 | parsing the base-2 digits of any number gives that number back |
| `ProgramText.LeadingZero` | ls8/cpu.py:42 | a leading zero keeps a literal well formed and does not change its value |
| `ProgramText.PaddedRoundTrip` | ls8/cpu.py:42 | parsing the base-2 digits of any number, padded on the left with any number of zeros, gives that number back |
| `ProgramText.BinaryValueBound` | ls8/cpu.py:42 | a literal of k digits is below 2^k, so a literal of at most 8 digits is a byte |
| `ProgramText.Scan` | ls8/cpu.py:38-44 | at most one value per line is read, and a malformed line index lies within the file |
| `ProgramText.ScanRetained` | ls8/cpu.py:38-44 | with no malformed line there is one value per retained line, in order, each the base-2 value of its line; a line is malformed exactly when some retained line does not parse |
| `ProgramText.ScanStopsAtBad` | ls8/cpu.py:39-43 | the first malformed line is non-empty after cleaning and does not parse, and the values read are exactly those of the lines before it |
| `ProgramText.LoadResult` | ls8/cpu.py:30-44 | a successful load reports at most 256 values |
| `ProgramText.LoadPlacesRetained` | ls8/cpu.py:30-44 | after a successful load the k-th retained line's value is at address k, one per retained line, and every later cell keeps its value |
| `ProgramText.LoadedMemory` | ls8/cpu.py:38-44 | memory after `load` keeps its size; cell k holds the k-th value read when there is one and its old contents otherwise |
| `Ls8.CPU.Load` | ls8/cpu.py:28-44 | memory afterwards holds the values read at addresses 0 onwards and the old contents elsewhere; the result is the count, a malformed line's index, or too many values |
| `Semantics.AluSpec` | ls8/cpu.py:68-76 | ADD and MUL succeed exactly when both register numbers are valid; register a becomes the unmasked sum or product and no other register changes; any other selector fails before any register is read |
| `Ls8.CPU.Alu` | ls8/cpu.py:68-76 | the register array afterwards is the ALU result, or is unchanged when the ALU raises |
| `Semantics.ExecOp` | ls8/cpu.py:110-151 | a branch that goes on moves pc forward by 2 or 3, to at most 256 (one past the last cell); HLT moves pc by exactly 1 and changes nothing else; a fault leaves pc, memory and output alone; a branch that halts or faults leaves registers 0 to 6 as they were; at most one value is printed |
| `Semantics.Exec` | ls8/cpu.py:101-108 | an iteration keeps 256 memory cells and 8 registers |
| `Ls8.CPU.Step` | ls8/cpu.py:101-151 | one iteration on the arrays gives the state, output and status that `Exec` gives |
| `Semantics.Execute` | ls8/cpu.py:98-151 | a run of n iterations prints at most n values and never moves pc backward; a run that is still going after n iterations has moved pc forward by at least 2n and no further than address 256 |
| `Semantics.Continued` | ls8/cpu.py:101-151 | the rest of a run after one more iteration keeps the bounds of `Execute` for one iteration more |
| `Ls8.CPU.Run` | ls8/cpu.py:98-151 | the loop on the arrays ends in the state, output and outcome that `Execute` gives |
| `Semantics.Mask8` | ls8/cpu.py:137-147 | masking with 0xff gives a value below 256 and leaves a byte as it is |
| `Properties.LdiSetsRegister` | ls8/cpu.py:111-118 | LDI sets register a to the next byte and moves pc by 3; no other register or cell changes; an invalid register number raises IndexError and changes nothing |
| `Properties.PrnPrintsRegister` | ls8/cpu.py:121-124 | PRN prints register a and moves pc by 2, changing nothing else; an invalid register number raises IndexError before printing |
| `Properties.HltStops` | ls8/cpu.py:126-129 | HLT ends the loop with pc moved by exactly 1 and nothing else changed |
| `Properties.PrefetchPastEndFaults` | ls8/cpu.py:103-108 | with the opcode in one of the last two cells, the operand prefetch raises IndexError and nothing changes |
| `Properties.MulMultiplies` | ls8/cpu.py:131-133 | MUL sets register a to the unbounded product of registers a and b and moves pc by 3; only register a changes |
| `Properties.PushStores` | ls8/cpu.py:135-141 | PUSH lowers the stack pointer modulo 256, then stores register a, read after that, at the new top, and moves pc by 2; with an invalid register the stack pointer has already moved |
| `Properties.PopLoads` | ls8/cpu.py:144-148 | POP loads the top of the stack into register a, then raises the stack pointer by one modulo 256, and moves pc by 2; memory is untouched; an out-of-range stack pointer or register raises IndexError |
| `Properties.StackPointerStaysInMemory` | ls8/cpu.py:135-148 | after a PUSH or POP that completes, the stack pointer is below 256 |
| `Properties.PushThenPop` | ls8/cpu.py:135-148 | PUSH Rx then POP Ry, with y not register 7, copies the pushed value into register y and restores the stack pointer modulo 256; no other register changes |
| `Properties.UnknownOpcodeFaults` | ls8/cpu.py:149-151 | any other byte faults with that byte and its address, prints nothing and changes nothing |
| `Properties.UnknownByteAtZero` | ls8/cpu.py:149-151 | the byte 0xFF at address 0 stops the run at once with UnknownInstruction(0xFF, 0) and no output |
| `Properties.MoreFuelSameRun` | ls8/cpu.py:99-101 | a run that has ended is not changed by allowing more iterations |
| `Properties.RunAlwaysEnds` | ls8/cpu.py:98-151 | with fuel for 129 iterations or more, every run halts or faults |
| `Properties.RunIsFinite` | ls8/cpu.py:98-151 | once the fuel is at least 129, more fuel gives the same run |
| `Properties.PrintEight` | ls8/cpu.py:110-129 | LDI R0,8; PRN R0; HLT, given three iterations or more, prints 8 and halts with pc 6 and 8 in register 0 |

## Left out

- Command-line and file handling in `load` (ls8/cpu.py:32-37, 45-47) is not modelled. `Load` takes the file's lines as a sequence of strings.
- `ParseBinary` accepts only non-empty strings of '0' and '1'. Python's `int(value, 2)` also accepts a `0b` prefix, underscores, a sign and non-ASCII Unicode decimal digits that are 0 or 1 (for example Arabic-Indic digits). The model treats those lines as malformed (`BadLiteral`).
- `trace` (ls8/cpu.py:78-96) is debug printing and is not modelled.
- The `print(self.reg)` in the LDI branch (ls8/cpu.py:117) is diagnostic output and is not modelled.
- PRN output is a sequence of numbers, not printed text. The message printed for an unknown instruction is not modelled beyond the opcode and address in the fault.
- The commented-out hard-coded program (ls8/cpu.py:49-65) is dead code.
- The `running` attribute set in `__init__` (ls8/cpu.py:13) is never read, so it is not a field. The opcode attributes (ls8/cpu.py:14-19) are module constants.
- `sys.exit` after an unknown instruction, and an uncaught exception, end the process. The model ends the run with a `Faulted` outcome instead.
- `Run` takes a fuel bound. `RunIsFinite` shows that 129 iterations always suffice, so no run is cut short.
- Python's negative list indices are not modelled. Every value the machine can hold is non-negative, so no index is ever negative.
