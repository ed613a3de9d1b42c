/** The interpreter itself: the struct `OML` as a class whose stacks and
    arrays change in place, `OML_exec_cmd` as `ExecCmd` and `OML_run` as
    `Run`, each proved to do what the semantics module says. */
module Machine {
  import opened Int64s
  import opened Wrappers
  import opened Stacks
  import opened Numeric
  import opened Scanner
  import opened Semantics
  import opened StackCommands

  class Oml {
    const stk: Stack
    const stkStk: Stack
    /** The 256 register stacks, each kept as its contents. */
    const regs: array<seq<Int64>>
    const vars: array<Int64>
    const code: seq<Byte>
    var i: nat
    var subStkSize: U64
    /** The `INPUT_BASE` and `OUTPUT_BASE` globals. */
    var inputBase: Int32
    var outputBase: Int32

    ghost predicate Valid()
      reads this, stk, stkStk, stk.data, stkStk.data
    {
      && stk != stkStk && stk.data != stkStk.data
      && stk.data != vars && stkStk.data != vars
      && stk.Valid() && stkStk.Valid()
      && regs.Length == 256 && vars.Length == 256
    }

    ghost function Abstract(): (vm: Vm)
      reads this, stk, stkStk, stk.data, stkStk.data, regs, vars
      requires Valid()
      ensures Fits(vm)
    {
      Vm(stk.Contents(), stkStk.Contents(), regs[..], vars[..], i, subStkSize, inputBase, outputBase)
    }

    /** The outcome a command reports: stopped, or on to the current state. */
    ghost function After(halt: Option<Halt>): Outcome
      reads this, stk, stkStk, stk.data, stkStk.data, regs, vars
      requires Valid()
    {
      if halt.Some? then Stop(halt.value) else Next(Abstract())
    }

    /** The stacks keep their arrays or move to new ones, which no other
        part of the state shares. */
    twostate predicate Grown()
      reads this, stk, stkStk
    {
      && (stk.data == old(stk.data) || fresh(stk.data))
      && (stkStk.data == old(stkStk.data) || fresh(stkStk.data))
    }

    /** `OML_init`, with the initial variables and numeral bases as parameters. */
    constructor (program: seq<Byte>, initialVars: seq<Int64>, inBase: Int32, outBase: Int32)
      requires |initialVars| == 256
      ensures Valid() && fresh(stk) && fresh(stkStk) && fresh(stk.data) && fresh(stkStk.data)
      ensures fresh(regs) && fresh(vars)
      ensures code == program && Abstract() == Initial(initialVars, inBase, outBase)
    {
      stk := new Stack();
      stkStk := new Stack();
      regs := new seq<Int64>[256](_ => []);
      vars := new Int64[256](k requires 0 <= k < 256 => initialVars[k]);
      code := program;
      i := 0;
      subStkSize := 0;
      inputBase := inBase;
      outputBase := outBase;
      new;
      assert vars[..] == initialVars;
      assert regs[..] == seq(256, _ => []);
    }

    // -------------------------------------------------------------------
    // Commands that reach beyond the main stack
    // -------------------------------------------------------------------

    /** `V`: pop `n`, push its digits in `OUTPUT_BASE` (`to_output_base`). */
    method DoOutput() returns (halt: Option<Halt>)
      requires Valid()
      modifies stk, stk.data
      ensures Valid() && Grown()
      ensures After(halt) == OutputStep(old(Abstract()))
    {
      var n := stk.Pop();
      if n <= 0 {
        return None;
      } else if outputBase < 2 {
        return Some(Trapped(BadOutputBase));
      }
      var digits := ToBase(n, outputBase);
      stk.PushAll(digits);
      halt := None;
    }

    /** `[`: pop `count`, shift the bottom `size - count` values onto the
        stack of stacks, push that number there, and count one more level. */
    method DoOpenSub() returns (halt: Option<Halt>)
      requires Valid()
      modifies this, stk, stk.data, stkStk, stkStk.data
      ensures Valid() && Grown()
      ensures After(halt) == OpenSubStep(old(Abstract()))
    {
      ghost var vm := Abstract();
      var ok := EnterSub(stk, stkStk);
      if !ok {
        return Some(Trapped(ShiftEmpty));
      }
      subStkSize := WrapU64(subStkSize + 1);
      halt := None;
      assert regs[..] == vm.regs && vars[..] == vm.vars;
      assert Abstract() == vm.(stk := stk.Contents(), stkStk := stkStk.Contents(), subStkSize := subStkSize);
    }

    /** `]`: pop `count` off the stack of stacks, move that many of its values
        under the main stack, and count one level less. */
    method DoCloseSub()
      requires Valid()
      modifies this, stk, stk.data, stkStk
      ensures Valid() && Grown()
      ensures Abstract() == CloseSubStep(old(Abstract()))
    {
      ghost var vm := Abstract();
      LeaveSub(stk, stkStk);
      subStkSize := WrapU64(subStkSize - 1);
      assert regs[..] == vm.regs && vars[..] == vm.vars;
      ghost var after := vm.(stk := stk.Contents(), stkStk := stkStk.Contents(), subStkSize := subStkSize);
      assert CloseSubStep(vm) == after;
      assert Abstract() == after;
    }

    /** `f`: step onto the identifier byte, pop the main stack into that variable. */
    method DoStore() returns (halt: Option<Halt>)
      requires Valid() && i < |code|
      modifies this, stk, vars
      ensures Valid() && Grown()
      ensures After(halt) == StoreStep(code, old(Abstract()))
    {
      if i + 1 >= |code| {
        return Some(Trapped(ReadPastEnd));
      }
      i := i + 1;
      var ident := code[i] as int;
      var v := stk.Pop();
      vars[ident] := v;
      halt := None;
    }

    /** `g`: step onto the identifier byte, push that variable. */
    method DoLoad() returns (halt: Option<Halt>)
      requires Valid() && i < |code|
      modifies this, stk, stk.data
      ensures Valid() && Grown()
      ensures After(halt) == LoadStep(code, old(Abstract()))
    {
      if i + 1 >= |code| {
        return Some(Trapped(ReadPastEnd));
      }
      i := i + 1;
      var ident := code[i] as int;
      stk.Push(vars[ident]);
      halt := None;
    }

    /** `t`: step onto the register byte, pop the main stack onto that register. */
    method DoStash() returns (halt: Option<Halt>)
      requires Valid() && i < |code|
      modifies this, stk, regs
      ensures Valid() && Grown()
      ensures After(halt) == StashStep(code, old(Abstract()))
    {
      if i + 1 >= |code| {
        return Some(Trapped(ReadPastEnd));
      }
      i := i + 1;
      var ident := code[i] as int;
      var v := stk.Pop();
      regs[ident] := regs[ident] + [v];
      halt := None;
    }

    /** `u`: step onto the register byte, pop that register onto the main stack. */
    method DoUnstash() returns (halt: Option<Halt>)
      requires Valid() && i < |code|
      modifies this, stk, stk.data, regs
      ensures Valid() && Grown()
      ensures After(halt) == UnstashStep(code, old(Abstract()))
    {
      if i + 1 >= |code| {
        return Some(Trapped(ReadPastEnd));
      }
      i := i + 1;
      var ident := code[i] as int;
      var reg := regs[ident];
      regs[ident] := Drop(reg);
      stk.Push(Top(reg));
      halt := None;
    }

    /** `'`: step onto the next byte and push it as a `char`. */
    method DoChar() returns (halt: Option<Halt>)
      requires Valid() && i < |code|
      modifies this, stk, stk.data
      ensures Valid() && Grown()
      ensures After(halt) == CharStep(code, old(Abstract()))
    {
      if i + 1 >= |code| {
        return Some(Trapped(ReadPastEnd));
      }
      i := i + 1;
      stk.Push(SignedChar(code[i]));
      halt := None;
    }

    /** `"`: scan to the closing quote, push the bytes last first, then their
        count, and leave the cursor on the closing quote. */
    method DoString()
      requires Valid() && i < |code|
      modifies this, stk, stk.data
      ensures Valid() && Grown()
      ensures Abstract() == StringStep(code, old(Abstract()))
    {
      ghost var vm := Abstract();
      var start := i + 1;
      var end := ScanString(code, start);
      PushLiteral(stk, code, start, end);
      i := end;
      StringStepTo(code, vm, end, stk.Contents());
      assert regs[..] == vm.regs && vars[..] == vm.vars;
    }

    /** Jump to the bracket a scan found; a scan that ran off the code traps. */
    method JumpTo(found: Option<nat>) returns (halt: Option<Halt>)
      requires Valid() && (found.Some? ==> found.value < |code|)
      modifies this
      ensures Valid()
      ensures After(halt) == SkipTo(old(Abstract()), found, code)
    {
      if found.None? {
        return Some(Trapped(NoMatchingBracket));
      }
      i := found.value;
      halt := None;
    }

    /** `(`, `)` and `{`: test the top (peeked for the parentheses, popped
        for the brace) and scan to the matching bracket. */
    method Branch(cmd: Command) returns (halt: Option<Halt>)
      requires Valid() && i < |code|
      requires cmd.SkipIfZero? || cmd.LoopIfNonZero? || cmd.SkipIfPopZero?
      modifies this, stk
      ensures Valid() && Grown()
      ensures After(halt) == BranchStep(code, old(Abstract()), cmd)
    {
      halt := None;
      if cmd == SkipIfZero {
        var top := stk.Peek();
        if top == 0 {
          var found := ScanForward(code, i, '(', ')');
          halt := JumpTo(found);
        }
      } else if cmd == LoopIfNonZero {
        var top := stk.Peek();
        if top != 0 {
          var found := ScanBackward(code, i, '(', ')');
          halt := JumpTo(found);
        }
      } else {
        var top := stk.Pop();
        if top == 0 {
          var found := ScanForward(code, i, '{', '}');
          halt := JumpTo(found);
        }
      }
    }

    // -------------------------------------------------------------------
    // OML_exec_cmd and OML_run
    // -------------------------------------------------------------------

    /** `P`, `Q`, `p`, `q` and `r`: the numeral bases and the sub-stack depth. */
    method Settings(cmd: Command)
      requires Valid() && i < |code|
      requires cmd.SetInputBase? || cmd.SetOutputBase? || cmd.GetInputBase? || cmd.GetOutputBase? || cmd.SubDepth?
      modifies this, stk, stk.data
      ensures Valid() && Grown()
      ensures Abstract() == SettingStep(old(Abstract()), cmd)
    {
      match cmd {
        case SetInputBase =>
          var v := stk.Pop();
          inputBase := Trunc32(v);
        case SetOutputBase =>
          var v := stk.Pop();
          outputBase := Trunc32(v);
        case GetInputBase => stk.Push(inputBase);
        case GetOutputBase => stk.Push(outputBase);
        case SubDepth => stk.Push(Wrap(subStkSize));
      }
    }

    /** The commands that read the code after the cursor: the operand
        commands `f`, `g`, `t`, `u` and `'`, a `"` literal and an `e\` comment. */
    method ReadAhead(cmd: Command) returns (halt: Option<Halt>)
      requires Valid() && i < |code|
      requires cmd.Store? || cmd.Load? || cmd.Stash? || cmd.Unstash? || cmd.CharLit? || cmd.StrLit? || cmd.Comment?
      modifies this, stk, stk.data, regs, vars
      ensures Valid() && Grown()
      ensures After(halt) == ReadAheadStep(code, old(Abstract()), cmd)
    {
      halt := None;
      match cmd {
        case Store => halt := DoStore();
        case Load => halt := DoLoad();
        case Stash => halt := DoStash();
        case Unstash => halt := DoUnstash();
        case CharLit => halt := DoChar();
        case StrLit => DoString();
        case Comment => i := ScanLine(code, i);
      }
    }

    /** One command, with an `e` prefix already read. */
    method Execute(cmd: Command) returns (halt: Option<Halt>)
      requires Valid() && i < |code| && !cmd.Extended?
      modifies this, stk, stk.data, stkStk, stkStk.data, regs, vars
      ensures Valid() && Grown()
      ensures After(halt) == Exec(code, old(Abstract()), cmd)
    {
      ExecGroups(code, old(Abstract()), cmd);
      halt := None;
      if cmd.SetInputBase? || cmd.SetOutputBase? || cmd.GetInputBase? || cmd.GetOutputBase? || cmd.SubDepth? {
        Settings(cmd);
      } else if cmd.Store? || cmd.Load? || cmd.Stash? || cmd.Unstash? || cmd.CharLit? || cmd.StrLit? || cmd.Comment? {
        halt := ReadAhead(cmd);
      } else if cmd.SkipIfZero? || cmd.LoopIfNonZero? || cmd.SkipIfPopZero? {
        halt := Branch(cmd);
      } else {
        match cmd {
          case Nop =>
          case Shape(op) =>
            var err := Reshape(stk, op);
            if err.Some? {
              halt := Some(Trapped(err.value));
            }
          case ToOutputBase => halt := DoOutput();
          case OpenSub => halt := DoOpenSub();
          case CloseSub => DoCloseSub();
          case ExitProgram =>
            var status := stk.Pop();
            halt := Some(Exit(Trunc32(status)));
          case Foreign(name) => halt := Some(External(name));
        }
      }
    }

    /** `OML_exec_cmd` on the byte under the cursor: `e` first reads the
        byte after it and runs the extended command it names. */
    method ExecCmd() returns (halt: Option<Halt>)
      requires Valid() && i < |code|
      modifies this, stk, stk.data, stkStk, stkStk.data, regs, vars
      ensures Valid() && Grown()
      ensures After(halt) == Step(code, old(Abstract()))
    {
      ghost var vm := Abstract();
      var cmd := Decode(code[i]);
      if cmd.Extended? {
        halt := ExecExtended();
        StepExtended(code, vm);
      } else {
        halt := Execute(cmd);
        StepPlain(code, vm);
      }
    }

    /** An `e` under the cursor: step onto the byte after it and run the
        extended command that byte names, or trap when there is none. */
    method ExecExtended() returns (halt: Option<Halt>)
      requires Valid() && i < |code| && Decode(code[i]).Extended?
      modifies this, stk, stk.data, stkStk, stkStk.data, regs, vars
      ensures Valid() && Grown()
      ensures old(i) + 1 >= |code| ==> halt == Some(Trapped(ReadPastEnd))
      ensures old(i) + 1 < |code| ==>
        After(halt) == Exec(code, old(Abstract()).(i := old(i) + 1), DecodeExtended(code[old(i) + 1]))
    {
      if i + 1 >= |code| {
        return Some(Trapped(ReadPastEnd));
      }
      ghost var vm := Abstract();
      i := i + 1;
      assert Abstract() == vm.(i := vm.i + 1);
      halt := Execute(DecodeExtended(code[i]));
    }

    /** What a run reports, as the semantics describes it. */
    ghost function Report(halt: Option<Halt>, finished: bool): RunResult
      reads this, stk, stkStk, stk.data, stkStk.data, regs, vars
      requires Valid()
    {
      if halt.Some? then Halted(halt.value)
      else if finished then Finished(Abstract())
      else OutOfFuel(Abstract())
    }

    /** One turn of `OML_run`'s loop: run the command under the cursor and,
        unless it stops the run, step past it. `goal` is where a run from
        here with `left` commands to go ends. */
    method Tick(ghost left: nat, ghost goal: RunResult) returns (halt: Option<Halt>)
      requires Valid() && i < |code| && left > 0
      requires Semantics.Run(code, Abstract(), left) == goal
      modifies this, stk, stk.data, stkStk, stkStk.data, regs, vars
      ensures Valid() && Grown()
      ensures halt.Some? ==> goal == Halted(halt.value)
      ensures halt.None? ==> Semantics.Run(code, Abstract(), left - 1) == goal
    {
      ghost var before := Abstract();
      halt := ExecCmd();
      if halt.None? {
        ghost var mid := Abstract();
        RunNext(code, before, left, mid);
        i := i + 1;
        assert Abstract() == mid.(i := mid.i + 1);
      }
    }

    /** `OML_run`: run the command under the cursor and step past it until
        the cursor leaves the code, then rewind the cursor. At most `fuel`
        commands run. */
    method Run(fuel: nat) returns (halt: Option<Halt>, finished: bool)
      requires Valid()
      modifies this, stk, stk.data, stkStk, stkStk.data, regs, vars
      ensures Valid() && Grown()
      ensures Report(halt, finished) == Semantics.Run(code, old(Abstract()), fuel)
    {
      ghost var goal := Semantics.Run(code, Abstract(), fuel);
      var left := fuel;
      while i < |code|
        invariant Valid() && Grown()
        invariant Semantics.Run(code, Abstract(), left) == goal
        decreases left
      {
        if left == 0 {
          return None, false;
        }
        halt := Tick(left, goal);
        if halt.Some? {
          return halt, false;
        }
        left := left - 1;
      }
      i := 0;
      halt, finished := None, true;
    }
  }
}
