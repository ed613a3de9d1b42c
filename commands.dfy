/** The stack commands of `OML_exec_cmd` as they run on the main stack
    (`res` in `OML.c`): each pops its operands with `stack_pop`, works,
    and pushes its results, and each is proved to leave the contents that
    its function in the semantics module describes. */
module StackCommands {
  import opened Int64s
  import opened Wrappers
  import opened Stacks
  import opened Numeric
  import opened Semantics

  /** A command's report as the result the semantics describes: the trap,
      or the stack it leaves. */
  function AsResult(err: Option<Trap>, s: seq<Int64>): Result<seq<Int64>, Trap> {
    if err.Some? then Err(err.value) else Ok(s)
  }

  lemma WrapAdd(x: int, y: int)
    ensures Wrap(Wrap(x) + y) == Wrap(x + y)
  {
    var k := (Wrap(x) - x) / TWO_64;
    assert Wrap(x) == x + k * TWO_64;
    WrapShift(x + y, k);
  }

  /** `T`'s value: `x * pow + y` in 64-bit arithmetic, `pow` from the
      scale loop. */
  method JoinValue(x: Int64, y: Int64) returns (r: Result<Int64, Trap>)
    ensures r == Apply(Join, x, y)
  {
    var pow := JoinScale(y);
    if pow.None? {
      return Err(Diverges);
    }
    WrapAdd(x * pow.value, y);
    r := Ok(Wrap(Wrap(x * pow.value) + y));
  }

  /** The binary operators: pop `b`, then `a`, push `a op b`. */
  method DoBinary(st: Stack, bop: BinOp) returns (err: Option<Trap>)
    requires st.Valid()
    modifies st, st.data
    ensures st.Valid() && (st.data == old(st.data) || fresh(st.data))
    ensures AsResult(err, st.Contents()) == BinaryEffect(bop, old(st.Contents()))
  {
    var b := st.Pop();
    var a := st.Pop();
    var r: Result<Int64, Trap>;
    if bop == Join {
      r := JoinValue(a, b);
    } else {
      r := Apply(bop, a, b);
    }
    if r.Err? {
      return Some(r.error);
    }
    st.Push(r.value);
    err := None;
  }

  /** The value a unary operator pushes, computed by the C code's helpers:
      `factorial`, `icbrt`, `isqrt`, and `n * n * n` one product at a time. */
  method UnaryValue(uop: UnOp, a: Int64) returns (r: Result<Int64, Trap>)
    ensures r == ApplyUnary(uop, a)
  {
    match uop {
      case Fac =>
        var v := Factorial(a);
        r := Ok(v);
      case CubeRoot =>
        if a == MIN_64 {
          r := Err(Diverges);
        } else {
          var v := Icbrt(a);
          CbrtOfUnique(a, v);
          r := Ok(v);
        }
      case SquareRoot =>
        if a < 0 {
          r := Err(Diverges);
        } else {
          var v := Isqrt(a);
          SqrtOfUnique(a, v);
          r := Ok(v);
        }
      case Cube =>
        WrapMul(a * a, a);
        r := Ok(Wrap(Wrap(a * a) * a));
      case _ =>
        r := ApplyUnary(uop, a);
    }
  }

  /** The unary operators: pop `a`, push `op a`. */
  method DoUnary(st: Stack, uop: UnOp) returns (err: Option<Trap>)
    requires st.Valid()
    modifies st, st.data
    ensures st.Valid() && (st.data == old(st.data) || fresh(st.data))
    ensures AsResult(err, st.Contents()) == UnaryEffect(uop, old(st.Contents()))
  {
    var a := st.Pop();
    var r := UnaryValue(uop, a);
    if r.Err? {
      return Some(r.error);
    }
    st.Push(r.value);
    err := None;
  }

  /** `.`: pop `b`, then `a`, push `a / b` and then `a % b`. */
  method DoDivMod(st: Stack) returns (err: Option<Trap>)
    requires st.Valid()
    modifies st, st.data
    ensures st.Valid() && (st.data == old(st.data) || fresh(st.data))
    ensures AsResult(err, st.Contents()) == DivModEffect(old(st.Contents()))
  {
    var b := st.Pop();
    var a := st.Pop();
    if b == 0 {
      return Some(DivideByZero);
    } else if a == MIN_64 && b == -1 {
      return Some(DivideOverflow);
    }
    ghost var r := st.Contents();
    st.Push(Div64(a, b));
    st.Push(Mod64(a, b));
    assert st.Contents() == r + [Div64(a, b), Mod64(a, b)];
    err := None;
  }

  /** `;`: pop `b`, then `a`, push `a`, `b`, `a`. */
  method DoOver(st: Stack)
    requires st.Valid()
    modifies st, st.data
    ensures st.Valid() && (st.data == old(st.data) || fresh(st.data))
    ensures st.Contents() == OverEffect(old(st.Contents()))
  {
    var b := st.Pop();
    var a := st.Pop();
    ghost var r := st.Contents();
    st.Push(a);
    st.Push(b);
    st.Push(a);
    assert st.Contents() == r + [a, b, a];
  }

  /** `,`: pop `b`, then `a`, push `b`, then `a`. */
  method DoSwap(st: Stack)
    requires st.Valid()
    modifies st, st.data
    ensures st.Valid() && (st.data == old(st.data) || fresh(st.data))
    ensures st.Contents() == SwapEffect(old(st.Contents()))
  {
    var b := st.Pop();
    var a := st.Pop();
    ghost var r := st.Contents();
    st.Push(b);
    st.Push(a);
    assert st.Contents() == r + [b, a];
  }

  /** `@`: pop `c`, `b`, `a`, push `c`, `a`, `b`. */
  method DoRot(st: Stack)
    requires st.Valid()
    modifies st, st.data
    ensures st.Valid() && (st.data == old(st.data) || fresh(st.data))
    ensures st.Contents() == RotEffect(old(st.Contents()))
  {
    var c := st.Pop();
    var b := st.Pop();
    var a := st.Pop();
    ghost var r := st.Contents();
    st.Push(c);
    st.Push(a);
    st.Push(b);
    assert st.Contents() == r + [c, a, b];
  }

  /** `z`: shift off the bottom value and push it. On an empty stack the
      C code's `stack_shift` reads a stale slot and its size wraps below
      zero; here that traps. */
  method DoUnbury(st: Stack) returns (err: Option<Trap>)
    requires st.Valid()
    modifies st, st.data
    ensures st.Valid() && (st.data == old(st.data) || fresh(st.data))
    ensures AsResult(err, st.Contents()) == Effect(Unbury, old(st.Contents()))
  {
    if st.size == 0 {
      return Some(ShiftEmpty);
    }
    var bottom := st.Shift();
    st.Push(bottom);
    err := None;
  }

  /** `\`: pop everything onto a temporary stack, then unshift it all back. */
  method DoReverseAll(st: Stack)
    requires st.Valid()
    modifies st, st.data
    ensures st.Valid() && (st.data == old(st.data) || fresh(st.data))
    ensures st.Contents() == Reverse(old(st.Contents()))
  {
    var temp := new Stack();
    PopAll(st, temp);
    UnshiftAll(st, temp);
  }

  /** The first loop of `\`: `while (res->size) stack_push(&temp, stack_pop(res))`. */
  method PopAll(st: Stack, temp: Stack)
    requires st.Valid() && temp.Valid() && st != temp && st.data != temp.data
    requires temp.Contents() == []
    modifies st, temp, temp.data
    ensures st.Valid() && temp.Valid() && st.data == old(st.data)
    ensures temp.data == old(temp.data) || fresh(temp.data)
    ensures st.Contents() == [] && temp.Contents() == Reverse(old(st.Contents()))
  {
    ghost var s := st.Contents();
    while st.size > 0
      invariant st.Valid() && temp.Valid() && st.data == old(st.data)
      invariant temp.data == old(temp.data) || fresh(temp.data)
      invariant st.size <= |s|
      invariant st.Contents() == s[..st.size] && temp.Contents() == Reverse(s[st.size..])
      decreases st.size
    {
      MoveOver(st, temp);
      UnreverseStep(s, st.size);
    }
  }

  /** One turn of the first loops of `\` and `R`:
      `stack_push(&temp, stack_pop(res))`. */
  method MoveOver(st: Stack, temp: Stack)
    requires st.Valid() && temp.Valid() && st != temp && st.data != temp.data
    modifies st, temp, temp.data
    ensures st.Valid() && temp.Valid() && st.data == old(st.data)
    ensures temp.data == old(temp.data) || fresh(temp.data)
    ensures st.Contents() == Drop(old(st.Contents()))
    ensures temp.Contents() == old(temp.Contents()) + [Top(old(st.Contents()))]
  {
    var v := st.Pop();
    temp.Push(v);
  }

  /** One pop of the first loop of `\`: the popped value goes on top of the
      reversed suffix. */
  lemma UnreverseStep(s: seq<Int64>, k: nat)
    requires k < |s|
    ensures Reverse(s[k..]) == Reverse(s[k + 1..]) + [s[k]]
  {
    assert s[k..] == [s[k]] + s[k + 1..];
    ReverseCons(s[k], s[k + 1..]);
  }

  /** The second loop of `\`: `while (temp.size) stack_unshift(res, stack_pop(&temp))`
      puts the temporary stack, in order, under the main one. */
  method UnshiftAll(st: Stack, temp: Stack)
    requires st.Valid() && temp.Valid() && st != temp && st.data != temp.data
    modifies st, st.data, temp
    ensures st.Valid() && (st.data == old(st.data) || fresh(st.data))
    ensures st.Contents() == old(temp.Contents()) + old(st.Contents())
  {
    ghost var t := temp.Contents();
    ghost var s := st.Contents();
    while temp.size > 0
      invariant st.Valid() && temp.Valid() && temp.data != st.data
      invariant st.data == old(st.data) || fresh(st.data)
      invariant temp.data == old(temp.data) && temp.size <= |t|
      invariant temp.Contents() == t[..temp.size] && st.Contents() == t[temp.size..] + s
      decreases temp.size
    {
      ghost var k := temp.size;
      var v := temp.Pop();
      ghost var before := st.Contents();
      st.Unshift(v);
      assert v == t[k - 1] && before == t[k..] + s;
      UnshiftStep(t, k, s);
    }
  }

  /** `Y`: pop `n`, push 0, 1, ..., n - 1. */
  method DoCount(st: Stack)
    requires st.Valid()
    modifies st, st.data
    ensures st.Valid() && (st.data == old(st.data) || fresh(st.data))
    ensures st.Contents() == CountEffect(old(st.Contents()))
  {
    var n := st.Pop();
    ghost var r := st.Contents();
    var k: Int64 := 0;
    while k < n
      invariant st.Valid() && (st.data == old(st.data) || fresh(st.data))
      invariant 0 <= k && (if n > 0 then k <= n else k == 0)
      invariant st.Contents() == r + Upto(k)
      decreases n - k
    {
      st.Push(k);
      k := k + 1;
    }
    assert Upto(k) == Upto(n);
  }

  /** `x`: pop the count, then the value, push the value that many times. */
  method DoRepeat(st: Stack)
    requires st.Valid()
    modifies st, st.data
    ensures st.Valid() && (st.data == old(st.data) || fresh(st.data))
    ensures st.Contents() == RepeatEffect(old(st.Contents()))
  {
    var repeater := st.Pop();
    var repetend := st.Pop();
    PushCopies(st, repetend, repeater);
  }

  /** The loop of `x`: `while (repeater-- > 0) stack_push(res, repetend)`. */
  method PushCopies(st: Stack, v: Int64, repeater: Int64)
    requires st.Valid()
    modifies st, st.data
    ensures st.Valid() && (st.data == old(st.data) || fresh(st.data))
    ensures st.Contents() == old(st.Contents()) + Copies(v, repeater)
  {
    var left := repeater;
    ghost var done := 0;
    while left > 0
      invariant st.Valid() && (st.data == old(st.data) || fresh(st.data))
      invariant if repeater > 0 then 0 <= left && done == repeater - left else done == 0
      invariant st.Contents() == old(st.Contents()) + Copies(v, done)
      decreases left
    {
      st.Push(v);
      left := left - 1;
      done := done + 1;
    }
  }

  /** `K`: pop `n`, then push `n` values, each read `n` places below the
      current top, which copies the top `n` values in order. */
  method DoCopyTop(st: Stack) returns (err: Option<Trap>)
    requires st.Valid()
    modifies st, st.data
    ensures st.Valid() && (st.data == old(st.data) || fresh(st.data))
    ensures AsResult(err, st.Contents()) == CopyTopEffect(old(st.Contents()))
  {
    var n := st.Pop();
    if n <= 0 {
      return None;
    } else if n > st.size {
      return Some(IndexOutOfRange);
    }
    ghost var r := st.Contents();
    var c := n;
    while c > 0
      invariant st.Valid() && (st.data == old(st.data) || fresh(st.data))
      invariant 0 <= c <= n && st.size == |r| + n - c
      invariant st.Contents() == r + r[|r| - n..|r| - c]
      decreases c
    {
      CopyStep(st, r, n, c);
      c := c - 1;
    }
    err := None;
  }

  /** One turn of the loop of `K`: `stack_push(res, res->data[res->size - n])`
      reads the value `n` places below the top, the next one to copy. */
  method CopyStep(st: Stack, ghost r: seq<Int64>, n: nat, c: nat)
    requires st.Valid() && 0 < c <= n <= |r|
    requires st.Contents() == r + r[|r| - n..|r| - c]
    modifies st, st.data
    ensures st.Valid() && (st.data == old(st.data) || fresh(st.data))
    ensures st.Contents() == r + r[|r| - n..|r| - c + 1]
  {
    assert st.size - n == |r| - c && st.Contents()[|r| - c] == r[|r| - c];
    st.Push(st.data[st.size - n]);
    assert r[|r| - n..|r| - c + 1] == r[|r| - n..|r| - c] + [r[|r| - c]];
  }

  /** `R`: pop `count`, pop that many values onto a temporary stack, then
      push the temporary stack's values bottom first. */
  method DoRotateTop(st: Stack)
    requires st.Valid()
    modifies st, st.data
    ensures st.Valid() && (st.data == old(st.data) || fresh(st.data))
    ensures st.Contents() == RotateEffect(old(st.Contents()))
  {
    var count := st.Pop();
    var temp := new Stack();
    PopOnto(st, temp, count);
    PushBack(st, temp, count);
  }

  /** The first loop of `R`: `count` times, pop from `st` and push on `temp`. */
  method PopOnto(st: Stack, temp: Stack, count: Int64)
    requires st.Valid() && temp.Valid() && st != temp && st.data != temp.data
    requires temp.Contents() == []
    modifies st, temp, temp.data
    ensures st.Valid() && temp.Valid() && st.data == old(st.data)
    ensures temp.data == old(temp.data) || fresh(temp.data)
    ensures var n := if count > 0 then count else 0;
      st.Contents() == DropN(old(st.Contents()), n) && temp.Contents() == Popped(old(st.Contents()), n)
  {
    ghost var r := st.Contents();
    var k: Int64 := 0;
    while k < count
      invariant st.Valid() && temp.Valid() && st.data == old(st.data)
      invariant temp.data == old(temp.data) || fresh(temp.data)
      invariant 0 <= k && (if count > 0 then k <= count else k == 0)
      invariant st.Contents() == DropN(r, k) && temp.Contents() == Popped(r, k)
      decreases count - k
    {
      MoveOver(st, temp);
      PoppedNext(r, k);
      k := k + 1;
    }
  }

  /** One unshift of the second loop of `\`. */
  lemma UnshiftStep(t: seq<Int64>, k: nat, s: seq<Int64>)
    requires 0 < k <= |t|
    ensures [t[k - 1]] + (t[k..] + s) == t[k - 1..] + s
  {
    assert t[k - 1..] == [t[k - 1]] + t[k..];
  }

  /** The second loop of `R`: push `temp.data[0]` to `temp.data[count - 1]`. */
  method PushBack(st: Stack, temp: Stack, count: Int64)
    requires st.Valid() && temp.Valid() && st != temp && st.data != temp.data
    requires temp.size == if count > 0 then count else 0
    modifies st, st.data
    ensures st.Valid() && (st.data == old(st.data) || fresh(st.data))
    ensures st.Contents() == old(st.Contents()) + old(temp.Contents())
  {
    ghost var p := temp.Contents();
    var k: Int64 := 0;
    while k < count
      invariant st.Valid() && temp.data != st.data
      invariant st.data == old(st.data) || fresh(st.data)
      invariant 0 <= k <= temp.size
      invariant st.Contents() == old(st.Contents()) + p[..k]
      decreases count - k
    {
      st.Push(temp.data[k]);
      assert p[..k + 1] == p[..k] + [p[k]];
      k := k + 1;
    }
    assert p[..k] == p;
  }

  /** `b`: pop an index counted from the top, push a copy of that value.
      The C code reads `data[size - index - 1]` unchecked. Index -1 reads
      `data[size]`, still holding the popped index; any other index that
      does not name an element traps here. */
  method DoPick(st: Stack) returns (err: Option<Trap>)
    requires st.Valid()
    modifies st, st.data
    ensures st.Valid() && (st.data == old(st.data) || fresh(st.data))
    ensures AsResult(err, st.Contents()) == PickEffect(old(st.Contents()))
  {
    ghost var s := st.Contents();
    var index := st.Pop();
    // Pop leaves the array alone, so the freed slot still holds the index.
    assert s != [] ==> st.data[st.size] == s[|s| - 1];
    var k := Wrap(st.size - index - 1);
    if !(0 <= k <= st.size) {
      return Some(IndexOutOfRange);
    }
    st.Push(st.data[k]);
    err := None;
  }

  /** `c`: pop an index counted from the top, move that value to the top. */
  method DoRoll(st: Stack) returns (err: Option<Trap>)
    requires st.Valid()
    modifies st, st.data
    ensures st.Valid() && (st.data == old(st.data) || fresh(st.data))
    ensures AsResult(err, st.Contents()) == RollEffect(old(st.Contents()))
  {
    var index := st.Pop();
    var k := Wrap(st.size - index - 1);
    if !(0 <= k < st.size) {
      return Some(IndexOutOfRange);
    }
    var entry := st.PopFrom(k);
    st.Push(entry);
    err := None;
  }

  // ---------------------------------------------------------------------
  // Loops of the commands that move values between stacks, or push bytes
  // of the program
  // ---------------------------------------------------------------------

  /** `[` on the two stacks: pop `count`, shift the bottom `size - count`
      values (a `size_t` difference) of `st` onto the stack of stacks `ss`,
      and push how many moved. A difference larger than the stack would
      shift an empty stack: `ok` is false and the stacks are left mid-way. */
  method EnterSub(st: Stack, ss: Stack) returns (ok: bool)
    requires st.Valid() && ss.Valid() && st != ss && st.data != ss.data
    modifies st, st.data, ss, ss.data
    ensures st.Valid() && ss.Valid() && st.data == old(st.data)
    ensures ss.data == old(ss.data) || fresh(ss.data)
    ensures var count, rest := Top(old(st.Contents())), Drop(old(st.Contents()));
      var m := WrapU64(|rest| - count);
      && (ok <==> m <= |rest|)
      && (ok ==> st.Contents() == rest[m..] && ss.Contents() == old(ss.Contents()) + rest[..m] + [Wrap(m)])
  {
    var count := st.Pop();
    var m := WrapU64(st.size - count);
    ok := ShiftOnto(st, ss, m);
    if ok {
      ss.Push(Wrap(m));
    }
  }

  /** The loop of `[`: `m` times, shift the bottom value of `src` and push
      it on `dst`. Shifting an empty `src` makes its size wrap around in the
      C code; here the loop stops and reports it. */
  method ShiftOnto(src: Stack, dst: Stack, m: nat) returns (ok: bool)
    requires src.Valid() && dst.Valid() && src != dst && src.data != dst.data
    modifies src, src.data, dst, dst.data
    ensures src.Valid() && dst.Valid() && src.data == old(src.data)
    ensures dst.data == old(dst.data) || fresh(dst.data)
    ensures ok <==> m <= old(src.size)
    ensures ok ==> src.Contents() == old(src.Contents())[m..]
    ensures ok ==> dst.Contents() == old(dst.Contents()) + old(src.Contents())[..m]
  {
    ghost var s := src.Contents();
    ghost var d := dst.Contents();
    var k := 0;
    while k < m
      invariant src.Valid() && dst.Valid() && src.data == old(src.data)
      invariant dst.data == old(dst.data) || fresh(dst.data)
      invariant k <= m && k <= |s|
      invariant src.Contents() == s[k..] && dst.Contents() == d + s[..k]
      decreases m - k
    {
      if src.size == 0 {
        return false;
      }
      ShiftStep(src, dst, s, d, k);
      k := k + 1;
    }
    ok := true;
  }

  /** One turn of the loop of `[`: `stack_push(&inst->stk_stk, stack_shift(res))`. */
  method ShiftStep(src: Stack, dst: Stack, ghost s: seq<Int64>, ghost d: seq<Int64>, k: nat)
    requires src.Valid() && dst.Valid() && src != dst && src.data != dst.data
    requires k < |s| && src.Contents() == s[k..] && dst.Contents() == d + s[..k]
    modifies src, src.data, dst, dst.data
    ensures src.Valid() && dst.Valid() && src.data == old(src.data)
    ensures dst.data == old(dst.data) || fresh(dst.data)
    ensures src.Contents() == s[k + 1..] && dst.Contents() == d + s[..k + 1]
  {
    var v := src.Shift();
    assert v == s[k] && s[k..][1..] == s[k + 1..];
    dst.Push(v);
    assert s[..k + 1] == s[..k] + [v];
  }

  /** `]` on the two stacks: pop `count` off the stack of stacks `ss`, then
      move that many values from it under `st`. */
  method LeaveSub(st: Stack, ss: Stack)
    requires st.Valid() && ss.Valid() && st != ss && st.data != ss.data
    modifies st, st.data, ss
    ensures st.Valid() && ss.Valid() && ss.data == old(ss.data)
    ensures st.data == old(st.data) || fresh(st.data)
    ensures var c, rest := Top(old(ss.Contents())), Drop(old(ss.Contents()));
      var n := if c > 0 then c else 0;
      && st.Contents() == Reverse(Popped(rest, n)) + old(st.Contents())
      && ss.Contents() == DropN(rest, n)
  {
    var count := ss.Pop();
    UnshiftFrom(st, ss, count);
  }

  /** The loop of `]`: `while (count-- > 0)`, pop `src` and unshift the
      value under `st`. */
  method UnshiftFrom(st: Stack, src: Stack, count: Int64)
    requires st.Valid() && src.Valid() && st != src && st.data != src.data
    modifies st, st.data, src
    ensures st.Valid() && src.Valid() && src.data == old(src.data)
    ensures st.data == old(st.data) || fresh(st.data)
    ensures var n := if count > 0 then count else 0;
      && st.Contents() == Reverse(Popped(old(src.Contents()), n)) + old(st.Contents())
      && src.Contents() == DropN(old(src.Contents()), n)
  {
    ghost var rest := src.Contents();
    ghost var s := st.Contents();
    ghost var n: nat := if count > 0 then count else 0;
    ghost var k: nat := 0;
    var left := count;
    while left > 0
      invariant st.Valid() && src.Valid() && src.data == old(src.data) && st.data != src.data
      invariant st.data == old(st.data) || fresh(st.data)
      invariant k <= n && (left > 0 ==> left == n - k) && (left <= 0 ==> k == n)
      invariant st.Contents() == Reverse(Popped(rest, k)) + s && src.Contents() == DropN(rest, k)
      decreases left
    {
      MoveUnder(st, src);
      UnshiftNext(rest, k, s);
      k := k + 1;
      left := left - 1;
    }
  }

  /** One turn of the loop of `]`: `stack_unshift(res, stack_pop(src))`. */
  method MoveUnder(st: Stack, src: Stack)
    requires st.Valid() && src.Valid() && st != src && st.data != src.data
    modifies st, st.data, src
    ensures st.Valid() && src.Valid() && src.data == old(src.data)
    ensures st.data == old(st.data) || fresh(st.data)
    ensures st.Contents() == [Top(old(src.Contents()))] + old(st.Contents())
    ensures src.Contents() == Drop(old(src.Contents()))
  {
    var v := src.Pop();
    st.Unshift(v);
  }

  /** The `k + 1`-th value moved by `]` goes under the `k` moved before it. */
  lemma UnshiftNext(rest: seq<Int64>, k: nat, s: seq<Int64>)
    ensures [Top(DropN(rest, k))] + (Reverse(Popped(rest, k)) + s) == Reverse(Popped(rest, k + 1)) + s
    ensures Drop(DropN(rest, k)) == DropN(rest, k + 1)
  {
    PoppedNext(rest, k);
    var p, v := Popped(rest, k), Top(DropN(rest, k));
    ReverseSnoc(p, v);
    assert [v] + (Reverse(p) + s) == ([v] + Reverse(p)) + s;
  }

  /** The pushes of `"`: the bytes of the literal `code[start..end]`, then their count. */
  method PushLiteral(st: Stack, code: seq<Byte>, start: nat, end: nat)
    requires st.Valid() && start <= end <= |code|
    modifies st, st.data
    ensures st.Valid() && (st.data == old(st.data) || fresh(st.data))
    ensures st.Contents() == old(st.Contents()) + Literal(code[start..end])
  {
    ghost var base := st.Contents();
    PushString(st, code, start, end);
    ghost var w := code[start..end];
    var n := Wrap(end - start);
    st.Push(n);
    LiteralAppend(base, w, n);
  }

  lemma LiteralAppend(base: seq<Int64>, w: seq<Byte>, n: Int64)
    requires n == Wrap(|w|)
    ensures base + Reverse(Chars(w)) + [n] == base + Literal(w)
  {
    AppendAssoc(base, Reverse(Chars(w)), [n]);
  }

  lemma AppendAssoc(a: seq<Int64>, b: seq<Int64>, c: seq<Int64>)
    ensures a + b + c == a + (b + c)
  {
  }

  /** The loop of `"`: `for (j = end - 1; j >= start; --j)` pushes
      `code[j]`, a signed `char`, so the literal's first byte ends on top. */
  method PushString(st: Stack, code: seq<Byte>, start: nat, end: nat)
    requires st.Valid() && start <= end <= |code|
    modifies st, st.data
    ensures st.Valid() && (st.data == old(st.data) || fresh(st.data))
    ensures st.Contents() == old(st.Contents()) + Reverse(Chars(code[start..end]))
  {
    ghost var base := st.Contents();
    var j := end;
    while j > start
      invariant st.Valid() && (st.data == old(st.data) || fresh(st.data))
      invariant start <= j <= end
      invariant st.Contents() == base + Reverse(Chars(code[j..end]))
      decreases j
    {
      j := j - 1;
      PushChar(st, code, j, end, base);
    }
  }

  /** One turn of the loop of `"`: `stack_push(res, inst->code[j])`. */
  method PushChar(st: Stack, code: seq<Byte>, j: nat, end: nat, ghost base: seq<Int64>)
    requires st.Valid() && j < end <= |code|
    requires st.Contents() == base + Reverse(Chars(code[j + 1..end]))
    modifies st, st.data
    ensures st.Valid() && (st.data == old(st.data) || fresh(st.data))
    ensures st.Contents() == base + Reverse(Chars(code[j..end]))
  {
    st.Push(SignedChar(code[j]));
    CharsStep(base, code, j, end);
  }

  /** One more byte at the front of a literal goes on top of its reversal. */
  lemma CharsStep(base: seq<Int64>, code: seq<Byte>, j: nat, end: nat)
    requires j < end <= |code|
    ensures (base + Reverse(Chars(code[j + 1..end]))) + [SignedChar(code[j])]
         == base + Reverse(Chars(code[j..end]))
  {
    var c, w := SignedChar(code[j]), Chars(code[j + 1..end]);
    assert Chars(code[j..end]) == [c] + w;
    ReverseCons(c, w);
    assert (base + Reverse(w)) + [c] == base + (Reverse(w) + [c]);
  }

  /** `:`: pop `a`, push it twice. */
  method DoDup(st: Stack)
    requires st.Valid()
    modifies st, st.data
    ensures st.Valid() && (st.data == old(st.data) || fresh(st.data))
    ensures Ok(st.Contents()) == Effect(Dup, old(st.Contents()))
  {
    var a := st.Pop();
    ghost var r := st.Contents();
    st.Push(a);
    st.Push(a);
    assert st.Contents() == r + [a, a];
  }

  /** `X`: pop `x`, push it three times. */
  method DoTriple(st: Stack)
    requires st.Valid()
    modifies st, st.data
    ensures st.Valid() && (st.data == old(st.data) || fresh(st.data))
    ensures Ok(st.Contents()) == Effect(Triple, old(st.Contents()))
  {
    var x := st.Pop();
    ghost var r := st.Contents();
    st.Push(x);
    st.Push(x);
    st.Push(x);
    assert st.Contents() == r + [x, x, x];
  }

  /** `d`: pop the top, empty the stack, push the top back. */
  method DoKeepTop(st: Stack)
    requires st.Valid()
    modifies st, st.data
    ensures st.Valid() && (st.data == old(st.data) || fresh(st.data))
    ensures Ok(st.Contents()) == Effect(KeepTop, old(st.Contents()))
  {
    var top := st.Pop();
    st.Clear();
    st.Push(top);
    assert st.Contents() == [top];
  }

  /** `Z`: pop the top and unshift it to the bottom. */
  method DoBury(st: Stack)
    requires st.Valid()
    modifies st, st.data
    ensures st.Valid() && (st.data == old(st.data) || fresh(st.data))
    ensures Ok(st.Contents()) == Effect(Bury, old(st.Contents()))
  {
    var top := st.Pop();
    st.Unshift(top);
  }

  /** `U`: pop `n`, push its base-2 digits, most significant first. */
  method DoToBinary(st: Stack)
    requires st.Valid()
    modifies st, st.data
    ensures st.Valid() && (st.data == old(st.data) || fresh(st.data))
    ensures Ok(st.Contents()) == Effect(ToBinary, old(st.Contents()))
  {
    var n := st.Pop();
    var bits := ToBase(n, 2);
    st.PushAll(bits);
  }

  /** A stack command on the main stack. */
  method Reshape(st: Stack, op: StackOp) returns (err: Option<Trap>)
    requires st.Valid()
    modifies st, st.data
    ensures st.Valid() && (st.data == old(st.data) || fresh(st.data))
    ensures AsResult(err, st.Contents()) == Effect(op, old(st.Contents()))
  {
    err := None;
    match op
    case Binary(bop) => err := DoBinary(st, bop);
    case Unary(uop) => err := DoUnary(st, uop);
    case DivMod => err := DoDivMod(st);
    case Const(v) => st.Push(v);
    case Discard => var _ := st.Pop();
    case Dup => DoDup(st);
    case Over => DoOver(st);
    case Swap => DoSwap(st);
    case Rot => DoRot(st);
    case Triple => DoTriple(st);
    case KeepTop => DoKeepTop(st);
    case ClearAll => st.Clear();
    case Bury => DoBury(st);
    case Unbury => err := DoUnbury(st);
    case ReverseAll => DoReverseAll(st);
    case Count => DoCount(st);
    case Repeat => DoRepeat(st);
    case CopyTop => err := DoCopyTop(st);
    case RotateTop => DoRotateTop(st);
    case Pick => err := DoPick(st);
    case Roll => err := DoRoll(st);
    case Length => st.Push(Wrap(st.size));
    case ToBinary => DoToBinary(st);
  }
}
