# BitLang VM in Dafny

This project models the `BitLangVM` class of `BitFuckDLL.cpp`. The class is a
small Brainfuck-style interpreter over a tape of `int` cells that normally hold
0 or 1. Its `run` operation works in three phases:

1. **Macro expansion** (`expand_macros`). The program text is rewritten until
   nothing changes. Each pass walks the macro table. For every entry, it
   replaces the first occurrence of the entry's name with its body.
2. **Loop index.** One stack-based scan pairs every `[` with its `]`. A bracket
   without a partner abandons the run before any instruction executes.
3. **Execution.** The interpreter runs `i d r l o e [ ]` against the tape and
   the pointer. Every other character does nothing.

Around `run` sit the constructor, `define_macro`, `get_memory` and
`reset_memory`.

The VM is modelled as an immutable value,
`Vm(memory, pointer, macros, hasOutput)`. Every operation is a pure function.
Both expansion and execution may loop forever in the original. The model
therefore runs them under a `fuel` bound and answers `None` when the bound is
exhausted.

Modules:

- `Wrappers` (`wrappers.dfy`): the `Option` type.
- `Macros` (`macros.dfy`): the macro table as a sequence of `Macro(name, body)`
  entries with distinct names. It also holds `std::string::find` as `Find`, the
  single replacement, one expansion pass, and fuel-bounded expansion to a fixed
  point.
- `Loops` (`loops.dfy`): the loop-index pre-pass as `Scan`/`BuildLoops`. It is
  specified against a nesting-depth reference definition, `Balanced` and
  `Matched`.
- `Machine` (`machine.dfy`): the VM state, the single instruction `Step`, the
  execution loop `Run`, the VM operations, `RunCode` (the whole of `run`), and
  a few worked runs.

Jump target: after a taken `[` or `]` jump, the code assigns the partner's
position to the loop index `i`. The `for` loop's `i++` then moves past that
position. So execution resumes just after the partner bracket, not on it. A
description of the language that has the jump land on the partner bracket
itself disagrees with the code here. The model follows the code: `Step` sets
`pc := loops[pc] + 1`.

Callbacks:

- The output hook is modelled as a trace of the `int` values `cell + '0'`. The
  trace grows only while `hasOutput` holds, which records that a hook is
  registered.
- The input hook is either `NoInput`, or an oracle whose `k`-th call within
  one run returns `next(k)`. `Exec.calls` counts the calls made so far.

## Model

| member | source | states |
|---|---|---|
| Macros.Define | BitFuckDLL.cpp:22-24 | After storing `body` under `name`, looking up `name` gives `body` and every other name looks up as before. The set of names gains exactly `name`, names stay distinct, and the table grows by one entry only when the name was new. |
| Macros.LookupFindsEntries | BitFuckDLL.cpp:17 | A lookup answers exactly for the names in the table. With distinct names it answers with the body stored beside the name. |
| Machine.DefineMacro | BitFuckDLL.cpp:22-24 | `define_macro` overwrites the entry for `name`. It leaves every other entry, the tape, the pointer and the output hook unchanged. |
| Macros.FindFrom | BitFuckDLL.cpp:32 | The result is the lowest occurrence of the pattern at or after `from`. When no occurrence exists at or after `from`, the result is `None`. |
| Macros.Find | BitFuckDLL.cpp:32 | `find` succeeds exactly when the pattern occurs, and then returns its first occurrence. |
| Macros.ReplaceFirst | BitFuckDLL.cpp:32-35 | The replacement reports a change exactly when the name occurs. Otherwise the text is unchanged. |
| Macros.ReplaceFirstSplices | BitFuckDLL.cpp:32-34 | When the name occurs, the replacement is the text before its first occurrence, then the body, then the text after the occurrence. |
| Macros.Pass | BitFuckDLL.cpp:30-37 | One pass reports no change exactly when no table name occurs in the text. In that case it returns the text unchanged. |
| Macros.FixedPointMeansNoName | BitFuckDLL.cpp:29-38 | The loop's exit condition (a pass without a `find` hit) holds exactly when no entry's name occurs in the text. |
| Macros.Expand | BitFuckDLL.cpp:26-39 | A finished expansion contains no macro name. A text that already contains none comes back as it is. |
| Macros.ExpandIdempotent | BitFuckDLL.cpp:26-39 | Expanding an expansion's result again gives that result back. |
| Macros.ExpandFuelMonotone | BitFuckDLL.cpp:29-38 | Once expansion finishes, more passes give the same text, so the answer does not depend on the bound. |
| Macros.EmptyNameDiverges | BitFuckDLL.cpp:32-35 | An entry with the empty name makes expansion run forever, because `find("")` always succeeds. |
| Macros.SelfReferenceDiverges | BitFuckDLL.cpp:29-38 | A single macro whose body contains its own name never settles once that name occurs in the text. |
| Loops.ScanCorrect | BitFuckDLL.cpp:48-57 | From a state with a correct stack and correct pairs so far, the scan succeeds exactly when the rest of the text keeps depth ≥ 0 and ends at depth 0. On success, the map it returns is a correct loop index. |
| Loops.BuildLoops | BitFuckDLL.cpp:44-57 | The pre-pass succeeds exactly when the program is balanced. A `]` with an empty stack or a leftover `[` fails it. On success, the keys are exactly the bracket positions, the map is its own inverse, and each `[` maps to its matching `]` further right. |
| Loops.MatchedUnique | BitFuckDLL.cpp:53-54 | A bracket has at most one matching partner. |
| Machine.Step | BitFuckDLL.cpp:60-71 | One instruction and its `i++`. See the effects listed after this table. |
| Machine.Run | BitFuckDLL.cpp:60-72 | Execution of a program already at its end changes nothing. A finished run ends at the program's end with the pointer on the tape. The tape has not shrunk, and the output only grew, and only with an output hook. |
| Machine.RunFuelMonotone | BitFuckDLL.cpp:60-72 | Once execution finishes, more fuel gives the same final state. |
| Machine.RunKeepsBinary | BitFuckDLL.cpp:63-68 | With a 0/1 tape and 0/1 input, the tape stays 0/1, and every emitted character is `'0'` or `'1'`. |
| Machine.StraightLineTerminates | BitFuckDLL.cpp:60-71 | A program without brackets finishes within one step per remaining character. |
| Machine.LeftMovesClamp | BitFuckDLL.cpp:66 | A run of `l` leaves the tape alone and lowers the pointer by the number of moves, but never below 0. |
| Machine.RightStep | BitFuckDLL.cpp:65 | One `r` moves the pointer one cell right. It appends one zero cell exactly when the pointer passes the end. |
| Machine.RightMovesGrow | BitFuckDLL.cpp:65 | A run of `r` moves the pointer right once per instruction. The tape grows with zeros just enough to hold the pointer. |
| Machine.TightLoopDiverges | BitFuckDLL.cpp:69-70 | `i[]` never finishes. |
| Machine.Init | BitFuckDLL.cpp:20 | A new VM has 1000 zero cells, pointer 0, no macros and no output hook. |
| Machine.GetMemory | BitFuckDLL.cpp:75 | The read answers the cell's value for an index on the tape and 0 for any other index. |
| Machine.ResetMemory | BitFuckDLL.cpp:76 | The tape and pointer become those of a new VM. The macros and the output hook are kept. |
| Machine.ResetReadsZero | BitFuckDLL.cpp:75-76 | After a reset, every read answers 0. |
| Machine.RunCode | BitFuckDLL.cpp:42-73 | `run` fails to finish if expansion does not finish. An unbalanced expansion result returns the VM untouched and emits nothing. A finished run keeps the pointer on a tape that has not shrunk, and keeps the macros and the hook. Without an output hook it emits nothing. |
| Machine.RunCodeFinishes | BitFuckDLL.cpp:42-72 | When all three phases finish, the VM takes the tape and pointer that execution left, and the output is what execution emitted. |
| Machine.UnmatchedCloseAborts | BitFuckDLL.cpp:51 | `ir]` is abandoned at its `]` before `i` or `r` executes. The VM is unchanged and nothing is emitted. |
| Machine.LoopRunsOnce | BitFuckDLL.cpp:63-70 | `i[do]` enters its loop once, clears the cell and emits `'0'`, and then falls out of the loop. |
| Machine.MacroExpandsOnce | BitFuckDLL.cpp:26-39 | With `X` defined as `ir`, `iXo` expands to `iiro`. |
| Machine.MacroScenario | BitFuckDLL.cpp:20-76 | On a new VM with `X` defined as `ir` and an output hook, running `iXo` sets cell 0, leaves the pointer at 1 and emits `'0'`. |

Effects stated by `Machine.Step`:

- Every instruction:
  - The pointer stays on the tape.
  - The tape grows by at most one cell, and an appended cell is 0.
  - No cell other than the current one changes.
- `i` writes 1 to the current cell and `d` writes 0.
- `e` writes the hook's next answer, or 0 without a hook, and counts one hook
  call.
- Cell writes keep the pointer and the tape length.
- `r` moves the pointer right, appending a cell exactly at the end of the
  tape. `l` moves it left, clamped at 0.
- `o` emits `cell + '0'` only when there is an output hook.
- Control flow:
  - A `[` on a zero cell resumes just after its matching `]`.
  - A `]` on a nonzero cell resumes just after its matching `[`.
  - Otherwise execution moves to the next position.

## Left out

- The DLL export functions and the static global VM (BitFuckDLL.cpp:79-105).
  They only forward to the class. The model passes the VM as an explicit
  value.
- The greeting that `bitlang_set_output_callback` emits when a hook is
  registered (BitFuckDLL.cpp:83-89). This is output plumbing. Registering a
  hook is the `hasOutput` flag.
- BitFuck.py is not part of this model. It is a foreign-function wrapper with
  file loading and plain string replacement, and contains no VM logic.
- Raw function-pointer callbacks. Output is an `int` trace. Input is an oracle
  indexed by the number of calls made in the current run.
- Machine.Step: does not model the truncation of `cell + '0'` to a `char` when
  it is passed to the output hook. Cells are unbounded `int`s.
- Machine.Run: does not model overflow of the `int` pointer or of the `size_t`
  loop index, nor the signed/unsigned comparison in `r`. All integers are
  unbounded.
- Macros.Pass: the original's hash-map iteration order is unspecified. The
  table is a sequence in a fixed order, and no property depends on a
  particular order.
- Machine.Step: indexing the loop map inserts a default entry when the key is
  missing. After a successful pre-pass every bracket is a key, so this never
  happens, and the model reads the map directly.
- Macros.Expand and Machine.Run: a computation that does not finish within
  `fuel` answers `None`. The original runs forever instead. The divergence
  lemmas show `None` for every fuel.
- Macros.ReplaceFirst: its contract states only whether a change happened.
  The splice is stated separately, by `Macros.ReplaceFirstSplices`.
