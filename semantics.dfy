/** What one command of an OML program does, as a function of the program
    text and the interpreter's state: the reference `OML_exec_cmd` and
    `OML_run` are proved against. The state is a value (`Vm`); the class in
    the machine module keeps the same state in arrays and stacks. */
module Semantics {
  import opened Int64s
  import opened Wrappers
  import opened Stacks
  import opened Numeric
  import opened Scanner

  // ---------------------------------------------------------------------
  // State and outcomes
  // ---------------------------------------------------------------------

  /** Why the C program would crash or never finish at this command. */
  datatype Trap =
    | DivideByZero          // `/`, `%`, `.` with a zero divisor
    | DivideOverflow        // the same with MIN / -1
    | ReadPastEnd           // `'`, `f`, `g`, `t`, `u`, `e` as the last byte
    | NoMatchingBracket     // a bracket scan runs off either end of the code
    | ShiftEmpty            // `z` on an empty stack; `[` with a bad count
    | IndexOutOfRange       // `b`, `c`, `K` reading outside the stack
    | ShiftCountOutOfRange  // `a` with a shift count outside 0..63
    | Diverges              // `N` below 0, `M` at MIN, `T` whose scale never exceeds y
    | BadOutputBase         // `V` on a positive value with an output base below 2

  datatype Halt =
    | Trapped(trap: Trap)
    | Exit(status: Int32)        // `e~`: the popped value as `exit`'s `int`
    | External(op: seq<Byte>)    // a command that talks to the outside world

  /** The interpreter state: the struct `OML` plus the two numeral-base
      globals. `stk` and the register stacks run bottom to top. */
  datatype Vm = Vm(
    stk: seq<Int64>,
    stkStk: seq<Int64>,
    regs: seq<seq<Int64>>,
    vars: seq<Int64>,
    i: nat,
    subStkSize: U64,
    inputBase: Int32,
    outputBase: Int32)

  predicate Fits(vm: Vm) {
    |vm.regs| == 256 && |vm.vars| == 256
  }

  /** `OML_init`: empty stacks, the cursor at 0. The C code leaves `vars`
      uninitialised; here their contents are a parameter. */
  function Initial(vars: seq<Int64>, inputBase: Int32, outputBase: Int32): (vm: Vm)
    requires |vars| == 256
    ensures Fits(vm) && vm.stk == [] && vm.stkStk == [] && vm.i == 0 && vm.vars == vars
    ensures forall r :: 0 <= r < 256 ==> vm.regs[r] == []
  {
    Vm([], [], seq(256, _ => []), vars, 0, 0, inputBase, outputBase)
  }

  datatype Outcome = Next(vm: Vm) | Stop(halt: Halt)

  // ---------------------------------------------------------------------
  // Commands
  // ---------------------------------------------------------------------

  datatype BinOp =
    | Plus | Minus | Times | Quot | Rem | BitAnd | BitOr | BitXor
    | Less | Equal | Greater | AtLeast | Unequal | AtMost | Flip | Join

  datatype UnOp = Fac | Neg | Compl | CubeRoot | SquareRoot | Cube | Square | LogicalNot

  /** Commands that only rewrite the main stack. */
  datatype StackOp =
    | Binary(bop: BinOp)   // + - * / % & | ^ < = > a T, e< e= e>
    | Unary(uop: UnOp)     // ! _ ~ M N m n, e!
    | DivMod               // .
    | Const(value: Int64)  // 0-9 A-F G H I J S
    | Discard              // $
    | Dup                  // :
    | Over                 // ;
    | Swap                 // ,
    | Rot                  // @
    | Triple               // X
    | KeepTop              // d
    | ClearAll             // L
    | Bury                 // Z
    | Unbury               // z
    | ReverseAll           // backslash
    | Count                // Y
    | Repeat               // x
    | CopyTop              // K
    | RotateTop            // R
    | Pick                 // b
    | Roll                 // c
    | Length               // l
    | ToBinary             // U

  datatype Command =
    | Nop
    | Shape(op: StackOp)
    | ToOutputBase     // V
    | OpenSub          // [
    | CloseSub         // ]
    | SetInputBase     // P
    | SetOutputBase    // Q
    | GetInputBase     // p
    | GetOutputBase    // q
    | SubDepth         // r
    | Store            // f
    | Load             // g
    | Stash            // t
    | Unstash          // u
    | CharLit          // '
    | StrLit           // "
    | SkipIfZero       // (
    | LoopIfNonZero    // )
    | SkipIfPopZero    // {
    | Extended         // e
    | Comment          // e backslash
    | ExitProgram      // e~
    | Foreign(name: seq<Byte>)

  /** The command a byte names, in the order `OML_exec_cmd` tests them.
      Any byte it does not test (newline, `}`, ...) does nothing. */
  function Decode(c: Byte): Command {
    match c
    case '!' => Shape(Unary(Fac))
    case '"' => StrLit
    case '#' => Foreign([c])
    case '$' => Shape(Discard)
    case '%' => Shape(Binary(Rem))
    case '&' => Shape(Binary(BitAnd))
    case '\'' => CharLit
    case '(' => SkipIfZero
    case ')' => LoopIfNonZero
    case '*' => Shape(Binary(Times))
    case '+' => Shape(Binary(Plus))
    case ',' => Shape(Swap)
    case '-' => Shape(Binary(Minus))
    case '.' => Shape(DivMod)
    case '/' => Shape(Binary(Quot))
    case ':' => Shape(Dup)
    case ';' => Shape(Over)
    case '<' => Shape(Binary(Less))
    case '=' => Shape(Binary(Equal))
    case '>' => Shape(Binary(Greater))
    case '?' => Foreign([c])
    case '@' => Shape(Rot)
    case 'G' => Shape(Const(64))
    case 'H' => Shape(Const(256))
    case 'I' => Shape(Const(100))
    case 'J' => Shape(Const(1000))
    case 'K' => Shape(CopyTop)
    case 'L' => Shape(ClearAll)
    case 'M' => Shape(Unary(CubeRoot))
    case 'N' => Shape(Unary(SquareRoot))
    case 'O' => Foreign([c])
    case 'P' => SetInputBase
    case 'Q' => SetOutputBase
    case 'R' => Shape(RotateTop)
    case 'S' => Shape(Const(16))
    case 'T' => Shape(Binary(Join))
    case 'U' => Shape(ToBinary)
    case 'V' => ToOutputBase
    case 'W' => Foreign([c])
    case 'X' => Shape(Triple)
    case 'Y' => Shape(Count)
    case 'Z' => Shape(Bury)
    case '[' => OpenSub
    case '\\' => Shape(ReverseAll)
    case ']' => CloseSub
    case '^' => Shape(Binary(BitXor))
    case '_' => Shape(Unary(Neg))
    case 'a' => Shape(Binary(Flip))
    case 'b' => Shape(Pick)
    case 'c' => Shape(Roll)
    case 'd' => Shape(KeepTop)
    case 'f' => Store
    case 'g' => Load
    case 'h' => Foreign([c])
    case 'i' => Foreign([c])
    case 'j' => Foreign([c])
    case 'l' => Shape(Length)
    case 'm' => Shape(Unary(Cube))
    case 'n' => Shape(Unary(Square))
    case 'o' => Foreign([c])
    case 'p' => GetInputBase
    case 'q' => GetOutputBase
    case 'r' => SubDepth
    case 's' => Foreign([c])
    case 't' => Stash
    case 'u' => Unstash
    case 'x' => Shape(Repeat)
    case 'z' => Shape(Unbury)
    case '{' => SkipIfPopZero
    case '|' => Shape(Binary(BitOr))
    case '~' => Shape(Unary(Compl))
    case 'e' => Extended
    case _ =>
      if '0' <= c <= '9' then Shape(Const(c as int - '0' as int))
      else if 'A' <= c <= 'F' then Shape(Const(c as int - 'A' as int + 10))
      else Nop
  }

  /** The command `e` followed by the byte `c` names; other bytes do nothing. */
  function DecodeExtended(c: Byte): (cmd: Command)
    ensures !cmd.Extended? && !cmd.LoopIfNonZero?
  {
    match c
    case '!' => Shape(Unary(LogicalNot))
    case '<' => Shape(Binary(AtLeast))
    case '=' => Shape(Binary(Unequal))
    case '>' => Shape(Binary(AtMost))
    case '\\' => Comment
    case '~' => ExitProgram
    case _ =>
      if c in "#ACceimnopq" then Foreign(['e', c]) else Nop
  }

  // ---------------------------------------------------------------------
  // Values
  // ---------------------------------------------------------------------

  /** A binary operator applied to the second value `a` and the top `b`. */
  function Apply(op: BinOp, a: Int64, b: Int64): Result<Int64, Trap> {
    match op
    case Plus => Ok(Wrap(a + b))
    case Minus => Ok(Wrap(a - b))
    case Times => Ok(Wrap(a * b))
    case Quot =>
      if b == 0 then Err(DivideByZero)
      else if a == MIN_64 && b == -1 then Err(DivideOverflow)
      else Ok(Div64(a, b))
    case Rem =>
      if b == 0 then Err(DivideByZero)
      else if a == MIN_64 && b == -1 then Err(DivideOverflow)
      else Ok(Mod64(a, b))
    case BitAnd => Ok(And(a, b))
    case BitOr => Ok(Or(a, b))
    case BitXor => Ok(Xor(a, b))
    case Less => Ok(BoolValue(a < b))
    case Equal => Ok(BoolValue(a == b))
    case Greater => Ok(BoolValue(a > b))
    case AtLeast => Ok(BoolValue(a >= b))
    case Unequal => Ok(BoolValue(a != b))
    case AtMost => Ok(BoolValue(a <= b))
    case Flip => if 0 <= b < 64 then Ok(FlipBit(a, b)) else Err(ShiftCountOutOfRange)
    case Join =>
      match Scale(b)
      case Some(pow) => Ok(Wrap(a * pow + b))
      case None => Err(Diverges)
  }

  function ApplyUnary(op: UnOp, a: Int64): Result<Int64, Trap> {
    match op
    case Fac => Ok(if a < 0 then 0 else Wrap(Fact(a)))
    case Neg => Ok(Wrap(-(a as int)))
    case Compl => Ok(Not(a))
    case CubeRoot => if a == MIN_64 then Err(Diverges) else Ok(CbrtOf(a))
    case SquareRoot => if a < 0 then Err(Diverges) else Ok(SqrtOf(a))
    case Cube => Ok(Wrap(a * a * a))
    case Square => Ok(Wrap(a * a))
    case LogicalNot => Ok(BoolValue(a == 0))
  }

  /** 0, 1, ..., n - 1: what `Y` pushes. */
  function Upto(n: int): (r: seq<Int64>)
    requires n <= MAX_64
    ensures |r| == (if n > 0 then n else 0)
    ensures forall k :: 0 <= k < |r| ==> r[k] == k
    decreases n
  {
    if n <= 0 then [] else Upto(n - 1) + [n - 1]
  }

  /** `n` copies of `v`: what `x` pushes. */
  function Copies(v: Int64, n: int): (r: seq<Int64>)
    ensures |r| == (if n > 0 then n else 0)
    ensures forall k :: 0 <= k < |r| ==> r[k] == v
    decreases n
  {
    if n <= 0 then [] else Copies(v, n - 1) + [v]
  }

  /** Program bytes as the `char` values `"` pushes. */
  function Chars(w: seq<Byte>): (r: seq<Int64>)
    ensures |r| == |w|
    ensures forall k :: 0 <= k < |w| ==> r[k] == SignedChar(w[k])
  {
    if w == [] then [] else Chars(w[..|w| - 1]) + [SignedChar(w[|w| - 1])]
  }

  /** What `"` pushes for the literal `w`: its bytes last first, so the
      first byte ends on top, then their count. */
  function Literal(w: seq<Byte>): seq<Int64> {
    Reverse(Chars(w)) + [Wrap(|w|)]
  }

  /** The bottom-relative index `b` and `c` compute from a top-relative one:
      `size - index - 1` in 64-bit arithmetic. */
  function FromTop(r: seq<Int64>, index: Int64): int {
    Wrap(|r| - index - 1)
  }

  // ---------------------------------------------------------------------
  // Stack commands
  // ---------------------------------------------------------------------

  /** The new main stack after a stack command, each value read by a
      `stack_pop` (0 from an empty stack) in the order the C code pops. */
  function Effect(op: StackOp, s: seq<Int64>): Result<seq<Int64>, Trap> {
    match op
    case Binary(bop) => BinaryEffect(bop, s)
    case Unary(uop) => UnaryEffect(uop, s)
    case DivMod => DivModEffect(s)
    case Const(v) => Ok(s + [v])
    case Discard => Ok(Drop(s))
    case Dup => Ok(Drop(s) + [Top(s), Top(s)])
    case Over => Ok(OverEffect(s))
    case Swap => Ok(SwapEffect(s))
    case Rot => Ok(RotEffect(s))
    case Triple => Ok(Drop(s) + [Top(s), Top(s), Top(s)])
    case KeepTop => Ok([Top(s)])
    case ClearAll => Ok([])
    case Bury => Ok([Top(s)] + Drop(s))
    case Unbury => if s == [] then Err(ShiftEmpty) else Ok(s[1..] + [s[0]])
    case ReverseAll => Ok(Reverse(s))
    case Count => Ok(CountEffect(s))
    case Repeat => Ok(RepeatEffect(s))
    case CopyTop => CopyTopEffect(s)
    case RotateTop => Ok(RotateEffect(s))
    case Pick => PickEffect(s)
    case Roll => RollEffect(s)
    case Length => Ok(s + [Wrap(|s|)])
    case ToBinary => Ok(Drop(s) + Digits(Top(s), 2))
  }

  /** Pop `b`, then `a`, push `a op b`. */
  function BinaryEffect(bop: BinOp, s: seq<Int64>): Result<seq<Int64>, Trap> {
    var b, r := Top(s), Drop(s);
    match Apply(bop, Top(r), b)
    case Ok(v) => Ok(Drop(r) + [v])
    case Err(e) => Err(e)
  }

  /** Pop `a`, push `op a`. */
  function UnaryEffect(uop: UnOp, s: seq<Int64>): Result<seq<Int64>, Trap> {
    match ApplyUnary(uop, Top(s))
    case Ok(v) => Ok(Drop(s) + [v])
    case Err(e) => Err(e)
  }

  /** `.`: pop `b`, then `a`, push the quotient and then the remainder. */
  function DivModEffect(s: seq<Int64>): Result<seq<Int64>, Trap> {
    var b, r := Top(s), Drop(s);
    var a := Top(r);
    if b == 0 then Err(DivideByZero)
    else if a == MIN_64 && b == -1 then Err(DivideOverflow)
    else Ok(Drop(r) + [Div64(a, b), Mod64(a, b)])
  }

  /** `;`: pop `b`, then `a`, push `a`, `b`, `a`. */
  function OverEffect(s: seq<Int64>): seq<Int64> {
    var b, r := Top(s), Drop(s);
    Drop(r) + [Top(r), b, Top(r)]
  }

  /** `,`: pop `b`, then `a`, push `b`, `a`. */
  function SwapEffect(s: seq<Int64>): seq<Int64> {
    var b, r := Top(s), Drop(s);
    Drop(r) + [b, Top(r)]
  }

  /** `@`: pop `c`, `b`, `a`, push `c`, `a`, `b`. */
  function RotEffect(s: seq<Int64>): seq<Int64> {
    var c, r := Top(s), Drop(s);
    var b, r' := Top(r), Drop(r);
    Drop(r') + [c, Top(r'), b]
  }

  /** `Y`: pop `n`, push 0 to n - 1. */
  function CountEffect(s: seq<Int64>): seq<Int64> {
    Drop(s) + Upto(Top(s))
  }

  /** `x`: pop the count, then the value, push the value that many times. */
  function RepeatEffect(s: seq<Int64>): seq<Int64> {
    Drop(Drop(s)) + Copies(Top(Drop(s)), Top(s))
  }

  /** `K`: pop `n`, push a copy of the top `n` values. */
  function CopyTopEffect(s: seq<Int64>): Result<seq<Int64>, Trap> {
    var n, r := Top(s), Drop(s);
    if n <= 0 then Ok(r)
    else if n > |r| then Err(IndexOutOfRange)
    else Ok(r + r[|r| - n..])
  }

  /** `R`: pop `n`, pop `n` values, push them back in the order popped. */
  function RotateEffect(s: seq<Int64>): seq<Int64> {
    var n, r := Top(s), Drop(s);
    if n <= 0 then r else DropN(r, n) + Popped(r, n)
  }

  /** `b`: pop an index counted from the top, push a copy of that value.
      Index -1 reads `data[size]`, the slot the index was just popped from,
      which lies inside the array; any other index outside the stack reads
      memory the model does not know. */
  function PickEffect(s: seq<Int64>): Result<seq<Int64>, Trap> {
    var r := Drop(s);
    var k := FromTop(r, Top(s));
    if 0 <= k < |r| then Ok(r + [r[k]])
    else if k == |r| && s != [] then Ok(r + [Top(s)])
    else Err(IndexOutOfRange)
  }

  /** `c`: pop an index counted from the top, move that value to the top. */
  function RollEffect(s: seq<Int64>): Result<seq<Int64>, Trap> {
    var r := Drop(s);
    var k := FromTop(r, Top(s));
    if 0 <= k < |r| then Ok(r[..k] + r[k + 1..] + [r[k]]) else Err(IndexOutOfRange)
  }

  // ---------------------------------------------------------------------
  // One command
  // ---------------------------------------------------------------------

  /** The byte after the command at `i`, which `'`, `f`, `g`, `t` and `u`
      read; none when the command is the last byte. */
  function Operand(code: seq<Byte>, i: nat): Option<Byte> {
    if i + 1 < |code| then Some(code[i + 1]) else None
  }

  /** The state after `cmd` runs at `vm.i`, before `OML_run` moves the cursor on. */
  function Exec(code: seq<Byte>, vm: Vm, cmd: Command): (r: Outcome)
    requires Fits(vm) && vm.i < |code| && !cmd.Extended?
    ensures r.Next? ==> Fits(r.vm) && r.vm.i <= |code|
    ensures r.Next? && r.vm.i < vm.i ==> cmd == LoopIfNonZero
  {
    var s := vm.stk;
    match cmd
    case Nop => Next(vm)
    case Shape(op) =>
      (match Effect(op, s)
       case Ok(s') => Next(vm.(stk := s'))
       case Err(e) => Stop(Trapped(e)))
    case ToOutputBase => OutputStep(vm)
    case OpenSub => OpenSubStep(vm)
    case CloseSub => Next(CloseSubStep(vm))
    case SetInputBase => Next(SettingStep(vm, cmd))
    case SetOutputBase => Next(SettingStep(vm, cmd))
    case GetInputBase => Next(SettingStep(vm, cmd))
    case GetOutputBase => Next(SettingStep(vm, cmd))
    case SubDepth => Next(SettingStep(vm, cmd))
    case Store => ReadAheadStep(code, vm, cmd)
    case Load => ReadAheadStep(code, vm, cmd)
    case Stash => ReadAheadStep(code, vm, cmd)
    case Unstash => ReadAheadStep(code, vm, cmd)
    case CharLit => ReadAheadStep(code, vm, cmd)
    case StrLit => ReadAheadStep(code, vm, cmd)
    case Comment => ReadAheadStep(code, vm, cmd)
    case SkipIfZero => BranchStep(code, vm, cmd)
    case LoopIfNonZero => BranchStep(code, vm, cmd)
    case SkipIfPopZero => BranchStep(code, vm, cmd)
    case ExitProgram => Stop(Exit(Trunc32(Top(s))))
    case Foreign(name) => Stop(External(name))
  }

  /** The groups of commands `Exec` hands on to one function each. */
  lemma ExecGroups(code: seq<Byte>, vm: Vm, cmd: Command)
    requires Fits(vm) && vm.i < |code| && !cmd.Extended?
    ensures cmd.SetInputBase? || cmd.SetOutputBase? || cmd.GetInputBase? || cmd.GetOutputBase? || cmd.SubDepth?
      ==> Exec(code, vm, cmd) == Next(SettingStep(vm, cmd))
    ensures cmd.Store? || cmd.Load? || cmd.Stash? || cmd.Unstash? || cmd.CharLit? || cmd.StrLit? || cmd.Comment?
      ==> Exec(code, vm, cmd) == ReadAheadStep(code, vm, cmd)
    ensures cmd.SkipIfZero? || cmd.LoopIfNonZero? || cmd.SkipIfPopZero?
      ==> Exec(code, vm, cmd) == BranchStep(code, vm, cmd)
  {
  }

  /** `P` and `Q` pop a new input or output base (kept as a 32-bit `int`);
      `p`, `q` and `r` push the input base, the output base and the
      sub-stack depth. */
  function SettingStep(vm: Vm, cmd: Command): (r: Vm)
    requires Fits(vm)
    requires cmd.SetInputBase? || cmd.SetOutputBase? || cmd.GetInputBase? || cmd.GetOutputBase? || cmd.SubDepth?
    ensures Fits(r) && r.i == vm.i
  {
    var s := vm.stk;
    match cmd
    case SetInputBase => vm.(stk := Drop(s), inputBase := Trunc32(Top(s)))
    case SetOutputBase => vm.(stk := Drop(s), outputBase := Trunc32(Top(s)))
    case GetInputBase => vm.(stk := s + [vm.inputBase])
    case GetOutputBase => vm.(stk := s + [vm.outputBase])
    case SubDepth => vm.(stk := s + [Wrap(vm.subStkSize)])
  }

  /** The commands that read the code after the cursor: `f`, `g`, `t`, `u`
      and `'` read one operand byte, `"` a literal and `e\` a comment. */
  function ReadAheadStep(code: seq<Byte>, vm: Vm, cmd: Command): (r: Outcome)
    requires Fits(vm) && vm.i < |code|
    requires cmd.Store? || cmd.Load? || cmd.Stash? || cmd.Unstash? || cmd.CharLit? || cmd.StrLit? || cmd.Comment?
    ensures r.Next? ==> Fits(r.vm) && vm.i <= r.vm.i <= |code|
  {
    match cmd
    case Store => StoreStep(code, vm)
    case Load => LoadStep(code, vm)
    case Stash => StashStep(code, vm)
    case Unstash => UnstashStep(code, vm)
    case CharLit => CharStep(code, vm)
    case StrLit => Next(StringStep(code, vm))
    case Comment => Next(vm.(i := CommentEnd(code, vm.i)))
  }

  /** `(` skips past its matching `)` when the top (peeked) is zero; `)`
      jumps back to its matching `(` when the top (peeked) is not zero;
      `{` pops the top and skips to its matching `}` when that is zero. */
  function BranchStep(code: seq<Byte>, vm: Vm, cmd: Command): (r: Outcome)
    requires Fits(vm) && vm.i < |code|
    requires cmd.SkipIfZero? || cmd.LoopIfNonZero? || cmd.SkipIfPopZero?
    ensures r.Next? ==> Fits(r.vm) && r.vm.i < |code|
    ensures r.Next? && r.vm.i < vm.i ==> cmd.LoopIfNonZero?
  {
    var s := vm.stk;
    match cmd
    case SkipIfZero =>
      if Top(s) != 0 then Next(vm) else SkipTo(vm, ForwardMatch(code, vm.i, '(', ')'), code)
    case LoopIfNonZero =>
      if Top(s) == 0 then Next(vm) else SkipTo(vm, BackwardMatch(code, vm.i, '(', ')'), code)
    case SkipIfPopZero =>
      var vm' := vm.(stk := Drop(s));
      if Top(s) != 0 then Next(vm') else SkipTo(vm', ForwardMatch(code, vm.i, '{', '}'), code)
  }

  /** `V`: pop `n` and push its digits in the output base, most significant
      first. For `n <= 0` nothing is pushed, although `to_base` then turns
      the -inf or NaN of `log(n)` into a buffer size, which C leaves
      undefined; the model follows common compilers there. For `n > 0` and
      a base below 2, `to_base` never ends for base 1 and divides by zero
      for base 0; for a negative base it sizes its buffer from the NaN of
      `log(base)`, a conversion C leaves undefined. All of these trap. */
  function OutputStep(vm: Vm): (r: Outcome)
    requires Fits(vm)
    ensures r.Next? ==> Fits(r.vm) && r.vm.i == vm.i
  {
    var n, rest := Top(vm.stk), Drop(vm.stk);
    if n <= 0 then Next(vm.(stk := rest))
    else if vm.outputBase < 2 then Stop(Trapped(BadOutputBase))
    else Next(vm.(stk := rest + Digits(n, vm.outputBase)))
  }

  /** `[`: pop `count` and shift the bottom `size - count` values (a `size_t`
      difference) onto the stack of stacks, then push how many moved. A
      difference larger than the stack shifts an empty stack: a trap. */
  function OpenSubStep(vm: Vm): (r: Outcome)
    requires Fits(vm)
    ensures r.Next? ==> Fits(r.vm) && r.vm.i == vm.i
  {
    var count, rest := Top(vm.stk), Drop(vm.stk);
    var m := WrapU64(|rest| - count);
    if m <= |rest| then
      Next(vm.(stk := rest[m..], stkStk := vm.stkStk + rest[..m] + [Wrap(m)],
               subStkSize := WrapU64(vm.subStkSize + 1)))
    else Stop(Trapped(ShiftEmpty))
  }

  /** `]`: pop `count` off the stack of stacks, then move that many values
      from it to the bottom of the main stack, one `stack_unshift` each. */
  function CloseSubStep(vm: Vm): (r: Vm)
    requires Fits(vm)
    ensures Fits(r) && r.i == vm.i
  {
    var c, rest := Top(vm.stkStk), Drop(vm.stkStk);
    var n := if c > 0 then c else 0;
    vm.(stk := Reverse(Popped(rest, n)) + vm.stk, stkStk := DropN(rest, n),
        subStkSize := WrapU64(vm.subStkSize - 1))
  }

  /** `f`: step onto the next byte, pop a value into that variable. */
  function StoreStep(code: seq<Byte>, vm: Vm): (r: Outcome)
    requires Fits(vm) && vm.i < |code|
    ensures r.Next? ==> Fits(r.vm) && r.vm.i == vm.i + 1 < |code|
  {
    match Operand(code, vm.i)
    case None => Stop(Trapped(ReadPastEnd))
    case Some(id) =>
      Next(vm.(stk := Drop(vm.stk), vars := vm.vars[id as int := Top(vm.stk)], i := vm.i + 1))
  }

  /** `g`: step onto the next byte, push that variable. */
  function LoadStep(code: seq<Byte>, vm: Vm): (r: Outcome)
    requires Fits(vm) && vm.i < |code|
    ensures r.Next? ==> Fits(r.vm) && r.vm.i == vm.i + 1 < |code|
  {
    match Operand(code, vm.i)
    case None => Stop(Trapped(ReadPastEnd))
    case Some(id) => Next(vm.(stk := vm.stk + [vm.vars[id as int]], i := vm.i + 1))
  }

  /** `t`: step onto the next byte, pop a value onto that register stack. */
  function StashStep(code: seq<Byte>, vm: Vm): (r: Outcome)
    requires Fits(vm) && vm.i < |code|
    ensures r.Next? ==> Fits(r.vm) && r.vm.i == vm.i + 1 < |code|
  {
    match Operand(code, vm.i)
    case None => Stop(Trapped(ReadPastEnd))
    case Some(id) =>
      Next(vm.(stk := Drop(vm.stk), regs := vm.regs[id as int := vm.regs[id as int] + [Top(vm.stk)]],
               i := vm.i + 1))
  }

  /** `u`: step onto the next byte, pop that register stack onto the main one. */
  function UnstashStep(code: seq<Byte>, vm: Vm): (r: Outcome)
    requires Fits(vm) && vm.i < |code|
    ensures r.Next? ==> Fits(r.vm) && r.vm.i == vm.i + 1 < |code|
  {
    match Operand(code, vm.i)
    case None => Stop(Trapped(ReadPastEnd))
    case Some(id) =>
      var reg := vm.regs[id as int];
      Next(vm.(stk := vm.stk + [Top(reg)], regs := vm.regs[id as int := Drop(reg)], i := vm.i + 1))
  }

  /** `'`: step onto the next byte, push it as a (signed) `char`. */
  function CharStep(code: seq<Byte>, vm: Vm): (r: Outcome)
    requires Fits(vm) && vm.i < |code|
    ensures r.Next? ==> Fits(r.vm) && r.vm.i == vm.i + 1 < |code|
  {
    match Operand(code, vm.i)
    case None => Stop(Trapped(ReadPastEnd))
    case Some(c) => Next(vm.(stk := vm.stk + [SignedChar(c)], i := vm.i + 1))
  }

  /** `"`: the bytes up to the closing quote are pushed last first, so the
      first byte ends on top, then their count; the cursor stops on the
      closing quote (or the end of the code). */
  function StringStep(code: seq<Byte>, vm: Vm): (r: Vm)
    requires Fits(vm) && vm.i < |code|
    ensures Fits(r) && vm.i < r.i <= |code|
  {
    var start := vm.i + 1;
    var end := StringEnd(code, start);
    StringEndSpec(code, start);
    vm.(stk := vm.stk + Literal(code[start..end]), i := end)
  }

  /** Where `"` leaves the cursor, and what it pushes. */
  lemma StringPushes(code: seq<Byte>, vm: Vm)
    requires Fits(vm) && vm.i < |code|
    ensures var r := StringStep(code, vm);
      var w := code[vm.i + 1..r.i];
      && r.i == StringEnd(code, vm.i + 1)
      && (r.i < |code| ==> code[r.i] == '"')
      && r.stk == vm.stk + Literal(w)
  {
    StringEndSpec(code, vm.i + 1);
  }

  /** `"` read as an update: the literal ends at `end` and the stack becomes `after`. */
  lemma StringStepTo(code: seq<Byte>, vm: Vm, end: nat, after: seq<Int64>)
    requires Fits(vm) && vm.i < end <= |code| && end == StringEnd(code, vm.i + 1)
    requires after == vm.stk + Literal(code[vm.i + 1..end])
    ensures StringStep(code, vm) == vm.(stk := after, i := end)
  {
  }

  /** The scan of `(` and `{` from the opening bracket at `i`. */
  function ForwardMatch(code: seq<Byte>, i: nat, open: Byte, close: Byte): (r: Option<nat>)
    requires open != close
    ensures r.Some? ==> i < r.value < |code|
  {
    MatchForwardSpec(code, i, open, close, 1);
    MatchForward(code, i, open, close, 1)
  }

  /** The scan of `)` from the closing bracket at `i`. */
  function BackwardMatch(code: seq<Byte>, i: nat, open: Byte, close: Byte): (r: Option<nat>)
    requires i <= |code| && open != close
    ensures r.Some? ==> r.value < i
  {
    MatchBackwardSpec(code, i, open, close, 1);
    MatchBackward(code, i, open, close, 1)
  }

  /** The scan of `e\` from `j`: the next newline, or the end of the code. */
  function CommentEnd(code: seq<Byte>, j: nat): (e: nat)
    requires j <= |code|
    ensures j <= e <= |code|
  {
    LineEndSpec(code, j);
    LineEnd(code, j)
  }

  /** Move the cursor to the bracket a scan found, or trap when it found none. */
  function SkipTo(vm: Vm, found: Option<nat>, code: seq<Byte>): (r: Outcome)
    requires found.Some? ==> found.value < |code|
    ensures r.Next? ==> found.Some? && r.vm == vm.(i := found.value)
    ensures r.Stop? <==> found.None?
  {
    match found
    case Some(j) => Next(vm.(i := j))
    case None => Stop(Trapped(NoMatchingBracket))
  }

  /** `OML_exec_cmd` on the byte under the cursor. An `e` first steps onto
      the byte it reads. */
  function Step(code: seq<Byte>, vm: Vm): (r: Outcome)
    requires Fits(vm) && vm.i < |code|
    ensures r.Next? ==> Fits(r.vm) && r.vm.i <= |code|
    ensures r.Next? && r.vm.i < vm.i ==> code[vm.i] == ')'
  {
    var cmd := Decode(code[vm.i]);
    if cmd.Extended? && vm.i + 1 >= |code| then Stop(Trapped(ReadPastEnd))
    else
      var at := if cmd.Extended? then vm.(i := vm.i + 1) else vm;
      Exec(code, at, if cmd.Extended? then DecodeExtended(code[at.i]) else cmd)
  }

  /** `Step` unfolded on a byte other than `e`: `Exec` of the command it names. */
  lemma StepPlain(code: seq<Byte>, vm: Vm)
    requires Fits(vm) && vm.i < |code| && !Decode(code[vm.i]).Extended?
    ensures Step(code, vm) == Exec(code, vm, Decode(code[vm.i]))
  {
  }

  /** `Step` unfolded on an `e`: the trap of an `e` as the last byte, or
      `Exec` of the extended command the byte after it names. */
  lemma StepExtended(code: seq<Byte>, vm: Vm)
    requires Fits(vm) && vm.i < |code| && Decode(code[vm.i]).Extended?
    ensures vm.i + 1 >= |code| ==> Step(code, vm) == Stop(Trapped(ReadPastEnd))
    ensures vm.i + 1 < |code| ==>
      Step(code, vm) == Exec(code, vm.(i := vm.i + 1), DecodeExtended(code[vm.i + 1]))
  {
  }

  datatype RunResult = Finished(vm: Vm) | Halted(halt: Halt) | OutOfFuel(vm: Vm)

  /** `OML_run`: execute the command under the cursor and step past it until
      the cursor leaves the code, then rewind it to 0. At most `fuel`
      commands run; the C loop has no such bound. */
  function Run(code: seq<Byte>, vm: Vm, fuel: nat): RunResult
    requires Fits(vm)
    decreases fuel, 1
  {
    if vm.i >= |code| then Finished(vm.(i := 0))
    else if fuel == 0 then OutOfFuel(vm)
    else RunOn(code, vm, fuel)
  }

  /** A run from a command under the cursor: the command, then the run
      from the byte after where it leaves the cursor. */
  function RunOn(code: seq<Byte>, vm: Vm, fuel: nat): RunResult
    requires Fits(vm) && vm.i < |code| && fuel > 0
    decreases fuel, 0
  {
    match Step(code, vm)
    case Stop(h) => Halted(h)
    case Next(vm') => Run(code, vm'.(i := vm'.i + 1), fuel - 1)
  }

  /** A run that does not stop at its first command goes on from the
      command after it, with one unit of fuel less. */
  lemma RunNext(code: seq<Byte>, vm: Vm, fuel: nat, vm': Vm)
    requires Fits(vm) && vm.i < |code| && fuel > 0 && Step(code, vm) == Next(vm')
    ensures Fits(vm')
    ensures Run(code, vm, fuel) == Run(code, vm'.(i := vm'.i + 1), fuel - 1)
  {
  }
}
