/** The BitLang VM of BitFuckDLL.cpp as an explicit state value: the tape,
    the pointer, the macro table and whether an output hook is registered;
    `RunCode` chains expansion, the loop pre-pass and execution as `run`
    does. */
module Machine {
  import opened Wrappers
  import opened Macros
  import opened Loops

  /** Length of the tape after construction and after a reset. */
  const TapeSize: nat := 1000

  /** The character code of `'0'`, added to a cell when it is output. */
  const ZeroChar: int := '0' as int

  /** The VM instance. `hasOutput` records whether an output hook has been
      registered; registration itself belongs to the export layer. */
  datatype Vm = Vm(memory: seq<int>, pointer: int, macros: Table, hasOutput: bool)

  /** The pointer is always a valid tape index. */
  predicate Valid(vm: Vm) {
    0 <= vm.pointer < |vm.memory|
  }

  /** The input hook of one run: absent, or an oracle whose `k`-th call
      (counting from 0 within the run) returns `next(k)`. */
  datatype Input = NoInput | Oracle(next: nat -> int)

  /** The execution state of one run: the program position, tape, pointer,
      the number of input-hook calls so far and the characters emitted so
      far (as `int` codes). */
  datatype Exec = Exec(pc: nat, memory: seq<int>, pointer: int, calls: nat, output: seq<int>)

  predicate Ok(s: Exec) {
    0 <= s.pointer < |s.memory|
  }

  // ---------------------------------------------------------------------
  // Single instruction
  // ---------------------------------------------------------------------

  /** Writes `v` to the current cell. */
  function SetCell(s: Exec, v: int): Exec
    requires Ok(s)
  {
    s.(memory := s.memory[s.pointer := v])
  }

  /** `r`: one step right, growing the tape by one zero cell at the end. */
  function MoveRight(s: Exec): Exec
    requires Ok(s)
  {
    var p := s.pointer + 1;
    s.(pointer := p, memory := if p >= |s.memory| then s.memory + [0] else s.memory)
  }

  /** `l`: one step left, clamped at 0. */
  function MoveLeft(s: Exec): Exec
    requires Ok(s)
  {
    var p := s.pointer - 1;
    s.(pointer := if p < 0 then 0 else p)
  }

  /** The value the `e` instruction stores: the hook's answer, or 0. */
  function InputValue(input: Input, calls: nat): int {
    match input
    case NoInput => 0
    case Oracle(next) => next(calls)
  }

  /** The input-hook calls made by executing `c`. */
  function CallsOf(c: char, input: Input): nat {
    if c == 'e' && input.Oracle? then 1 else 0
  }

  /** The instructions that write the current cell: `i`, `d` and `e`. */
  predicate WritesCell(c: char) {
    c == 'i' || c == 'd' || c == 'e'
  }

  /** The instruction at `s.pc` transfers control to its partner bracket:
      a `[` on a zero cell or a `]` on a nonzero one. */
  predicate Jumps(prog: string, s: Exec)
    requires s.pc < |prog| && Ok(s)
  {
    || (prog[s.pc] == '[' && s.memory[s.pointer] == 0)
    || (prog[s.pc] == ']' && s.memory[s.pointer] != 0)
  }

  /** Executes the instruction at `s.pc` and advances past it (or past the
      matching bracket after a jump), as one iteration of the execution
      `for` loop including its `i++`. */
  function Step(prog: string, loops: LoopMap, input: Input, hasOutput: bool, s: Exec): (t: Exec)
    requires LoopMapOk(prog, loops)
    requires s.pc < |prog| && Ok(s)
    ensures Ok(t) && t.pc <= |prog|
    // The tape never shrinks and at most one cell is appended.
    ensures |s.memory| <= |t.memory| <= |s.memory| + 1
    // Only the current cell can change among the existing ones.
    ensures forall k :: 0 <= k < |s.memory| && k != s.pointer ==> t.memory[k] == s.memory[k]
    ensures !WritesCell(prog[s.pc]) ==> t.memory[s.pointer] == s.memory[s.pointer]
    ensures |t.memory| > |s.memory| ==> t.memory[|s.memory|] == 0
    // Cell writes keep pointer and length.
    ensures WritesCell(prog[s.pc]) ==> t.pointer == s.pointer && |t.memory| == |s.memory|
    ensures prog[s.pc] == 'i' ==> t.memory[s.pointer] == 1
    ensures prog[s.pc] == 'd' ==> t.memory[s.pointer] == 0
    ensures prog[s.pc] == 'e' ==> t.memory[s.pointer] == InputValue(input, s.calls)
    ensures t.calls == s.calls + CallsOf(prog[s.pc], input)
    // Pointer moves.
    ensures prog[s.pc] == 'r' ==> t.pointer == s.pointer + 1
    ensures prog[s.pc] == 'r' ==> (|t.memory| > |s.memory| <==> s.pointer + 1 == |s.memory|)
    ensures prog[s.pc] == 'l' ==> t.pointer == (if s.pointer == 0 then 0 else s.pointer - 1)
    ensures prog[s.pc] != 'r' && prog[s.pc] != 'l' ==> t.pointer == s.pointer
    ensures prog[s.pc] != 'r' ==> |t.memory| == |s.memory|
    // Output.
    ensures prog[s.pc] == 'o' && hasOutput ==> t.output == s.output + [s.memory[s.pointer] + ZeroChar]
    ensures !(prog[s.pc] == 'o' && hasOutput) ==> t.output == s.output
    // Control flow.
    ensures prog[s.pc] == '[' && s.memory[s.pointer] == 0 ==>
      Matched(prog, s.pc, t.pc - 1)
    ensures prog[s.pc] == ']' && s.memory[s.pointer] != 0 ==>
      Matched(prog, t.pc - 1, s.pc)
    ensures !Jumps(prog, s) ==> t.pc == s.pc + 1
  {
    var next := s.(pc := s.pc + 1);
    match prog[s.pc]
    case 'i' => SetCell(next, 1)
    case 'd' => SetCell(next, 0)
    case 'r' => MoveRight(next)
    case 'l' => MoveLeft(next)
    case 'o' =>
      if hasOutput then next.(output := s.output + [s.memory[s.pointer] + ZeroChar]) else next
    case 'e' => SetCell(next, InputValue(input, s.calls)).(calls := s.calls + CallsOf('e', input))
    case '[' => if s.memory[s.pointer] == 0 then s.(pc := loops[s.pc] + 1) else next
    case ']' => if s.memory[s.pointer] != 0 then s.(pc := loops[s.pc] + 1) else next
    case _ => next
  }

  // ---------------------------------------------------------------------
  // Execution loop
  // ---------------------------------------------------------------------

  /** The execution `for` loop with at most `fuel` instructions: `None` when
      the program has not reached its end within them (the original keeps
      running, possibly forever). */
  function Run(prog: string, loops: LoopMap, input: Input, hasOutput: bool, s: Exec, fuel: nat): (r: Option<Exec>)
    requires LoopMapOk(prog, loops)
    requires s.pc <= |prog| && Ok(s)
    decreases fuel
    ensures s.pc == |prog| ==> r == Some(s)
    ensures r.Some? ==> Ok(r.value) && r.value.pc == |prog|
    ensures r.Some? ==> |r.value.memory| >= |s.memory|
    ensures r.Some? ==> s.output <= r.value.output
    ensures r.Some? && !hasOutput ==> r.value.output == s.output
  {
    if s.pc == |prog| then Some(s)
    else if fuel == 0 then None
    else Run(prog, loops, input, hasOutput, Step(prog, loops, input, hasOutput, s), fuel - 1)
  }

  /** One more instruction of fuel never changes a finished run. */
  lemma {:induction false} RunFuelMonotone(prog: string, loops: LoopMap, input: Input, hasOutput: bool,
                                           s: Exec, fuel: nat, more: nat)
    requires LoopMapOk(prog, loops)
    requires s.pc <= |prog| && Ok(s)
    requires Run(prog, loops, input, hasOutput, s, fuel).Some?
    requires fuel <= more
    ensures Run(prog, loops, input, hasOutput, s, more) == Run(prog, loops, input, hasOutput, s, fuel)
    decreases fuel
  {
    if s.pc < |prog| {
      RunFuelMonotone(prog, loops, input, hasOutput, Step(prog, loops, input, hasOutput, s), fuel - 1, more - 1);
    }
  }

  /** Every cell holds 0 or 1. */
  predicate Binary(memory: seq<int>) {
    forall k :: 0 <= k < |memory| ==> memory[k] == 0 || memory[k] == 1
  }

  /** The input hook, if any, only ever answers 0 or 1. */
  ghost predicate BinaryInput(input: Input) {
    input.Oracle? ==> forall k: nat :: input.next(k) == 0 || input.next(k) == 1
  }

  /** With a binary tape and binary input, the tape stays binary and every
      emitted character is `'0'` or `'1'`. */
  lemma {:induction false} RunKeepsBinary(prog: string, loops: LoopMap, input: Input, hasOutput: bool,
                                          s: Exec, fuel: nat)
    requires LoopMapOk(prog, loops)
    requires s.pc <= |prog| && Ok(s)
    requires Binary(s.memory) && BinaryInput(input)
    requires Run(prog, loops, input, hasOutput, s, fuel).Some?
    ensures Binary(Run(prog, loops, input, hasOutput, s, fuel).value.memory)
    ensures var out := Run(prog, loops, input, hasOutput, s, fuel).value.output;
      forall j :: |s.output| <= j < |out| ==> out[j] == ZeroChar || out[j] == ZeroChar + 1
    decreases fuel
  {
    if s.pc < |prog| {
      var t := Step(prog, loops, input, hasOutput, s);
      assert Binary(t.memory) by {
        forall k | 0 <= k < |t.memory| ensures t.memory[k] == 0 || t.memory[k] == 1 {
          if k < |s.memory| && k != s.pointer {
            assert t.memory[k] == s.memory[k];
          }
        }
      }
      RunKeepsBinary(prog, loops, input, hasOutput, t, fuel - 1);
      var out := Run(prog, loops, input, hasOutput, t, fuel - 1).value.output;
      forall j | |s.output| <= j < |out| ensures out[j] == ZeroChar || out[j] == ZeroChar + 1 {
        if j < |t.output| {
          assert j == |s.output| && t.output[j] == s.memory[s.pointer] + ZeroChar;
          assert out[j] == t.output[j];
        }
      }
    }
  }

  /** No character of the program is a bracket. */
  predicate NoBrackets(prog: string) {
    forall p :: 0 <= p < |prog| ==> !IsBracket(prog[p])
  }

  /** A program without brackets runs straight through: it finishes within
      one instruction of fuel per remaining character. */
  lemma {:induction false} StraightLineTerminates(prog: string, loops: LoopMap, input: Input, hasOutput: bool,
                                                  s: Exec, fuel: nat)
    requires LoopMapOk(prog, loops) && NoBrackets(prog)
    requires s.pc <= |prog| && Ok(s)
    requires fuel >= |prog| - s.pc
    ensures Run(prog, loops, input, hasOutput, s, fuel).Some?
    decreases |prog| - s.pc
  {
    if s.pc < |prog| {
      StraightLineTerminates(prog, loops, input, hasOutput, Step(prog, loops, input, hasOutput, s), fuel - 1);
    }
  }

  /** A run of `l` instructions only moves the pointer left, stopping at 0;
      the tape is untouched. */
  lemma {:induction false} LeftMovesClamp(prog: string, loops: LoopMap, input: Input, hasOutput: bool,
                                          s: Exec, fuel: nat)
    requires LoopMapOk(prog, loops) && forall p :: 0 <= p < |prog| ==> prog[p] == 'l'
    requires s.pc <= |prog| && Ok(s)
    requires fuel >= |prog| - s.pc
    ensures Run(prog, loops, input, hasOutput, s, fuel).Some?
    ensures var r := Run(prog, loops, input, hasOutput, s, fuel).value;
      && r.pointer == (if s.pointer <= |prog| - s.pc then 0 else s.pointer - (|prog| - s.pc))
      && r.memory == s.memory
    decreases |prog| - s.pc
  {
    if s.pc < |prog| {
      var t := Step(prog, loops, input, hasOutput, s);
      assert t.memory == s.memory;
      LeftMovesClamp(prog, loops, input, hasOutput, t, fuel - 1);
    }
  }

  /** `b` is `a` followed by zero cells only. */
  predicate ZeroExtends(a: seq<int>, b: seq<int>) {
    |a| <= |b| && b[..|a|] == a && forall k :: |a| <= k < |b| ==> b[k] == 0
  }

  /** Extending with zeros twice is extending with zeros once. */
  lemma ZeroExtendsTrans(a: seq<int>, b: seq<int>, c: seq<int>)
    requires ZeroExtends(a, b) && ZeroExtends(b, c)
    ensures ZeroExtends(a, c)
  {
    assert c[..|a|] == c[..|b|][..|a|];
  }

  /** A run of `r` instructions moves the pointer right once per
      instruction and grows the tape just enough to hold it, with zeros. */
  lemma {:induction false} RightMovesGrow(prog: string, loops: LoopMap, input: Input, hasOutput: bool,
                                          s: Exec, fuel: nat)
    requires LoopMapOk(prog, loops) && forall p :: 0 <= p < |prog| ==> prog[p] == 'r'
    requires s.pc <= |prog| && Ok(s)
    requires fuel >= |prog| - s.pc
    ensures Run(prog, loops, input, hasOutput, s, fuel).Some?
    ensures var r := Run(prog, loops, input, hasOutput, s, fuel).value;
      && r.pointer == s.pointer + (|prog| - s.pc)
      && |r.memory| == (if r.pointer < |s.memory| then |s.memory| else r.pointer + 1)
      && ZeroExtends(s.memory, r.memory)
    decreases |prog| - s.pc
  {
    if s.pc < |prog| {
      var t := Step(prog, loops, input, hasOutput, s);
      RightStep(prog, loops, input, hasOutput, s);
      RightMovesGrow(prog, loops, input, hasOutput, t, fuel - 1);
      ZeroExtendsTrans(s.memory, t.memory, Run(prog, loops, input, hasOutput, t, fuel - 1).value.memory);
    }
  }

  /** One `r`: pointer one to the right, old cells kept, at most one zero
      cell appended, exactly enough to hold the pointer. */
  lemma RightStep(prog: string, loops: LoopMap, input: Input, hasOutput: bool, s: Exec)
    requires LoopMapOk(prog, loops)
    requires s.pc < |prog| && Ok(s) && prog[s.pc] == 'r'
    ensures var t := Step(prog, loops, input, hasOutput, s);
      && t.pc == s.pc + 1 && t.pointer == s.pointer + 1
      && |t.memory| == (if t.pointer < |s.memory| then |s.memory| else t.pointer + 1)
      && ZeroExtends(s.memory, t.memory)
  {
    var t := Step(prog, loops, input, hasOutput, s);
    assert t.memory[..|s.memory|] == s.memory;
  }

  /** `i[]` sets the cell and then spins on its `]` for ever: no amount of
      fuel finishes it. */
  lemma TightLoopDiverges(loops: LoopMap, input: Input, hasOutput: bool, s: Exec, fuel: nat)
    requires LoopMapOk("i[]", loops)
    requires s.pc == 0 && Ok(s)
    ensures Run("i[]", loops, input, hasOutput, s, fuel) == None
  {
    if fuel > 0 {
      var s1 := Step("i[]", loops, input, hasOutput, s);
      assert s1.memory[s1.pointer] == 1 && s1.pc == 1;
      if fuel > 1 {
        var s2 := Step("i[]", loops, input, hasOutput, s1);
        assert s2.pc == 2 && s2.memory[s2.pointer] == 1;
        SpinsOnClose(loops, input, hasOutput, s2, fuel - 2);
      }
    }
  }

  /** At the `]` of `i[]` with a nonzero cell, execution returns to the
      same `]` after every instruction. */
  lemma {:induction false} SpinsOnClose(loops: LoopMap, input: Input, hasOutput: bool, s: Exec, fuel: nat)
    requires LoopMapOk("i[]", loops)
    requires s.pc == 2 && Ok(s) && s.memory[s.pointer] != 0
    ensures Run("i[]", loops, input, hasOutput, s, fuel) == None
    decreases fuel
  {
    if fuel > 0 {
      var t := Step("i[]", loops, input, hasOutput, s);
      assert Matched("i[]", t.pc - 1, 2);
      assert t.pc == 2 && t == s;
      SpinsOnClose(loops, input, hasOutput, t, fuel - 1);
    }
  }

  // ---------------------------------------------------------------------
  // The VM's operations
  // ---------------------------------------------------------------------

  /** The constructor: a zeroed tape of `TapeSize` cells, pointer 0, no
      macros and no output hook. */
  function Init(): (vm: Vm)
    ensures Valid(vm) && vm.pointer == 0
    ensures |vm.memory| == TapeSize && forall k :: 0 <= k < |vm.memory| ==> vm.memory[k] == 0
    ensures vm.macros == [] && !vm.hasOutput
  {
    Vm(seq(TapeSize, _ => 0), 0, [], false)
  }

  /** `define_macro`: only the table changes. */
  function DefineMacro(vm: Vm, name: string, body: string): (r: Vm)
    ensures Lookup(r.macros, name) == Some(body)
    ensures forall n :: n != name ==> Lookup(r.macros, n) == Lookup(vm.macros, n)
    ensures r.memory == vm.memory && r.pointer == vm.pointer && r.hasOutput == vm.hasOutput
    ensures DistinctNames(vm.macros) ==> DistinctNames(r.macros)
  {
    vm.(macros := Define(vm.macros, name, body))
  }

  /** `get_memory`: a bounds-checked read that answers 0 off the tape. */
  function GetMemory(vm: Vm, index: int): (v: int)
    ensures 0 <= index < |vm.memory| ==> v == vm.memory[index]
    ensures !(0 <= index < |vm.memory|) ==> v == 0
  {
    if 0 <= index < |vm.memory| then vm.memory[index] else 0
  }

  /** `reset_memory`: the tape and pointer of a fresh VM; macros and the
      output hook stay. */
  function ResetMemory(vm: Vm): (r: Vm)
    ensures Valid(r) && r.pointer == 0
    ensures r.memory == Init().memory
    ensures r.macros == vm.macros && r.hasOutput == vm.hasOutput
  {
    vm.(memory := seq(TapeSize, _ => 0), pointer := 0)
  }

  /** After a reset every read answers 0, on or off the tape. */
  lemma ResetReadsZero(vm: Vm, index: int)
    ensures GetMemory(ResetMemory(vm), index) == 0
  {
  }

  /** What a finished `run` leaves: the new VM state and the characters
      passed to the output hook. */
  datatype Outcome = Outcome(vm: Vm, output: seq<int>)

  /** `run`: expand the macros, build the loop index, then execute from the
      VM's current tape and pointer. A bracket mismatch returns the VM as it
      was; `None` means expansion or execution did not finish within
      `fuel`. */
  function RunCode(vm: Vm, code: string, input: Input, fuel: nat): (r: Option<Outcome>)
    requires Valid(vm)
    ensures Expand(code, vm.macros, fuel).None? ==> r.None?
    ensures Expand(code, vm.macros, fuel).Some? && !Balanced(Expand(code, vm.macros, fuel).value) ==>
      r == Some(Outcome(vm, []))
    ensures r.Some? ==> Valid(r.value.vm) && |r.value.vm.memory| >= |vm.memory|
    ensures r.Some? ==> r.value.vm.macros == vm.macros && r.value.vm.hasOutput == vm.hasOutput
    ensures r.Some? && !vm.hasOutput ==> r.value.output == []
  {
    match Expand(code, vm.macros, fuel)
    case None => None
    case Some(prog) =>
      match BuildLoops(prog)
      case None => Some(Outcome(vm, []))
      case Some(loops) =>
        var start := Exec(0, vm.memory, vm.pointer, 0, []);
        match Run(prog, loops, input, vm.hasOutput, start, fuel)
        case None => None
        case Some(s) => Some(Outcome(vm.(memory := s.memory, pointer := s.pointer), s.output))
  }

  /** A run whose three phases all finish leaves the tape and pointer the
      execution left and reports what it emitted. */
  lemma RunCodeFinishes(vm: Vm, code: string, input: Input, fuel: nat,
                        prog: string, loops: LoopMap, last: Exec)
    requires Valid(vm)
    requires Expand(code, vm.macros, fuel) == Some(prog)
    requires BuildLoops(prog) == Some(loops)
    requires Run(prog, loops, input, vm.hasOutput, Exec(0, vm.memory, vm.pointer, 0, []), fuel) == Some(last)
    ensures RunCode(vm, code, input, fuel)
         == Some(Outcome(vm.(memory := last.memory, pointer := last.pointer), last.output))
  {
  }

  // ---------------------------------------------------------------------
  // Worked runs
  // ---------------------------------------------------------------------

  /** `ir]` has an unmatched `]`: the run is abandoned before its `i` and
      `r` execute, so tape and pointer are as they were and nothing is
      emitted. */
  lemma UnmatchedCloseAborts(vm: Vm, input: Input, fuel: nat)
    requires Valid(vm) && vm.macros == [] && fuel > 0
    ensures RunCode(vm, "ir]", input, fuel) == Some(Outcome(vm, []))
  {
    assert Depth("ir]", 3) == -1;
  }

  /** `i[do]` enters its loop once: the body clears the cell and emits
      `'0'`, and the `]` then falls through. */
  lemma LoopRunsOnce(vm: Vm, input: Input, fuel: nat)
    requires Valid(vm) && vm.macros == [] && vm.hasOutput && fuel >= 5
    ensures RunCode(vm, "i[do]", input, fuel)
         == Some(Outcome(vm.(memory := vm.memory[vm.pointer := 0]), [ZeroChar]))
  {
    assert Expand("i[do]", vm.macros, fuel) == Some("i[do]");
    LoopOnceRunCode(vm, "i[do]", input, fuel);
  }

  /** The run part of `LoopRunsOnce`, with the text held in a variable. */
  lemma LoopOnceRunCode(vm: Vm, code: string, input: Input, fuel: nat)
    requires Valid(vm) && vm.hasOutput && fuel >= 5
    requires Expand(code, vm.macros, fuel) == Some("i[do]")
    ensures RunCode(vm, code, input, fuel)
         == Some(Outcome(vm.(memory := vm.memory[vm.pointer := 0]), [ZeroChar]))
  {
    LoopOnceBalanced();
    var loops := BuildLoops("i[do]").value;
    var s0 := Exec(0, vm.memory, vm.pointer, 0, []);
    LoopOnceRuns(loops, input, s0, fuel);
    var last := s0.(pc := 5, memory := vm.memory[vm.pointer := 0], output := [ZeroChar]);
    RunCodeFinishes(vm, code, input, fuel, "i[do]", loops, last);
  }

  /** `i[do]` is balanced, so its loop index builds. */
  lemma LoopOnceBalanced()
    ensures BuildLoops("i[do]").Some?
  {
    var prog := "i[do]";
    assert Depth(prog, 1) == 0 && Depth(prog, 2) == 1 && Depth(prog, 3) == 1;
    assert Depth(prog, 4) == 1 && Depth(prog, 5) == 0;
  }

  /** Execution of `i[do]` from any state: the current cell ends at 0 and
      one `'0'` is emitted. */
  lemma LoopOnceRuns(loops: LoopMap, input: Input, s: Exec, fuel: nat)
    requires LoopMapOk("i[do]", loops)
    requires s.pc == 0 && Ok(s) && s.output == [] && fuel >= 5
    ensures Run("i[do]", loops, input, true, s, fuel)
         == Some(s.(pc := 5, memory := s.memory[s.pointer := 0], output := [ZeroChar]))
  {
    var prog := "i[do]";
    var s1 := Step(prog, loops, input, true, s);
    var s2 := Step(prog, loops, input, true, s1);
    var s3 := Step(prog, loops, input, true, s2);
    var s4 := Step(prog, loops, input, true, s3);
    var s5 := Step(prog, loops, input, true, s4);
    assert s1.pc == 1 && s1.memory[s.pointer] == 1 && s1.pointer == s.pointer && s1.output == [];
    assert s2.pc == 2 && s2.memory == s1.memory && s2.pointer == s.pointer && s2.output == [];
    assert s3.pc == 3 && s3.memory == s.memory[s.pointer := 0] && s3.pointer == s.pointer;
    assert s4.pc == 4 && s4.memory == s3.memory && s4.output == [ZeroChar] && s4.pointer == s.pointer;
    assert s5 == s4.(pc := 5);
    assert Run(prog, loops, input, true, s, 5) == Some(s5);
    RunFuelMonotone(prog, loops, input, true, s, 5, fuel);
  }

  /** With `X` defined as `ir`, `iXo` expands to `iiro` in two passes. */
  lemma MacroExpandsOnce(fuel: nat)
    requires fuel >= 2
    ensures Expand("iXo", [Macro("X", "ir")], fuel) == Some("iiro")
  {
    var t := [Macro("X", "ir")];
    var prog := "iiro";
    assert Find("iXo", "X") == Some(1) by {
      assert "iXo"[0..1] == "i" && "iXo"[1..2] == "X";
      assert !OccursAt("iXo", "X", 0) && OccursAt("iXo", "X", 1);
    }
    assert Pass("iXo", t) == (prog, true) by {
      assert "iXo"[..1] + "ir" + "iXo"[2..] == prog;
      assert ReplaceFirst("iXo", Macro("X", "ir")) == (prog, true);
      assert t[1..] == [];
    }
    assert FixedPoint(prog, t) by {
      assert !Occurs(prog, "X") by {
        forall k | 0 <= k <= |prog| ensures !OccursAt(prog, "X", k) {
          if 0 <= k < |prog| { assert prog[k..k + 1] == [prog[k]]; }
        }
      }
    }
    ExpandUnfold("iXo", t, fuel);
  }

  /** Running `iiro` with room on the tape to the right sets the current
      cell, steps right and emits the cell it lands on. */
  lemma IiroRuns(loops: LoopMap, input: Input, s: Exec, fuel: nat)
    requires LoopMapOk("iiro", loops)
    requires s.pc == 0 && Ok(s) && s.pointer + 1 < |s.memory| && fuel >= 4
    requires s.output == []
    ensures Run("iiro", loops, input, true, s, fuel)
         == Some(s.(pc := 4, memory := s.memory[s.pointer := 1], pointer := s.pointer + 1,
                    output := [s.memory[s.pointer + 1] + ZeroChar]))
  {
    var prog := "iiro";
    var s1 := Step(prog, loops, input, true, s);
    var s2 := Step(prog, loops, input, true, s1);
    var s3 := Step(prog, loops, input, true, s2);
    var s4 := Step(prog, loops, input, true, s3);
    assert s2.memory == s.memory[s.pointer := 1] && s2.pointer == s.pointer && s2.output == s.output;
    assert s3.memory == s2.memory && s3.pointer == s.pointer + 1 && s3.output == s.output;
    assert s4.memory == s3.memory && s4.pointer == s3.pointer && s4.pc == 4;
    assert s4.output == [s.memory[s.pointer + 1] + ZeroChar];
    assert Run(prog, loops, input, true, s, 4) == Some(s4);
    RunFuelMonotone(prog, loops, input, true, s, 4, fuel);
  }

  /** `iiro` has no brackets, so its loop index builds. */
  lemma IiroBalanced()
    ensures BuildLoops("iiro").Some?
  {
    assert Depth("iiro", 4) == 0;
  }

  /** A run whose text expands to `iiro`, with room to the right of the
      pointer: cell set, pointer one to the right, that cell emitted. */
  lemma IiroRunCode(vm: Vm, code: string, input: Input, fuel: nat)
    requires Valid(vm) && vm.hasOutput
    requires Expand(code, vm.macros, fuel) == Some("iiro")
    requires vm.pointer + 1 < |vm.memory| && fuel >= 4
    ensures RunCode(vm, code, input, fuel)
         == Some(Outcome(vm.(memory := vm.memory[vm.pointer := 1], pointer := vm.pointer + 1),
                         [vm.memory[vm.pointer + 1] + ZeroChar]))
  {
    IiroBalanced();
    var loops := BuildLoops("iiro").value;
    var s0 := Exec(0, vm.memory, vm.pointer, 0, []);
    IiroRuns(loops, input, s0, fuel);
    var last := s0.(pc := 4, memory := vm.memory[vm.pointer := 1], pointer := vm.pointer + 1,
                    output := [vm.memory[vm.pointer + 1] + ZeroChar]);
    RunCodeFinishes(vm, code, input, fuel, "iiro", loops, last);
  }

  /** ... so on a fresh VM: cell 0 is set, the pointer is at cell 1, and
      `'0'` is emitted. */
  lemma MacroScenario(input: Input, fuel: nat)
    requires fuel >= 4
    ensures var vm := DefineMacro(Init(), "X", "ir").(hasOutput := true);
      RunCode(vm, "iXo", input, fuel)
        == Some(Outcome(vm.(memory := Init().memory[0 := 1], pointer := 1), [ZeroChar]))
  {
    var mem := Init().memory;
    assert DefineMacro(Init(), "X", "ir").(hasOutput := true) == Vm(mem, 0, [Macro("X", "ir")], true);
    MacroOnZeroedCell(mem, input, fuel);
  }

  /** The run part of `MacroScenario`, for any tape whose cell 1 is 0. */
  lemma MacroOnZeroedCell(mem: seq<int>, input: Input, fuel: nat)
    requires |mem| >= 2 && mem[1] == 0 && fuel >= 4
    ensures RunCode(Vm(mem, 0, [Macro("X", "ir")], true), "iXo", input, fuel)
         == Some(Outcome(Vm(mem[0 := 1], 1, [Macro("X", "ir")], true), [ZeroChar]))
  {
    MacroExpandsOnce(fuel);
    MacroOnTable(mem, [Macro("X", "ir")], "iXo", input, fuel);
  }

  /** `MacroOnZeroedCell` with table and text held in variables. */
  lemma MacroOnTable(mem: seq<int>, t: Table, code: string, input: Input, fuel: nat)
    requires |mem| >= 2 && mem[1] == 0 && fuel >= 4
    requires Expand(code, t, fuel) == Some("iiro")
    ensures RunCode(Vm(mem, 0, t, true), code, input, fuel)
         == Some(Outcome(Vm(mem[0 := 1], 1, t, true), [ZeroChar]))
  {
    IiroRunCode(Vm(mem, 0, t, true), code, input, fuel);
  }
}
