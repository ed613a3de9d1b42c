/** What OML's commands promise about one another: the round trips between
    pairs of commands, what a program reads back from a string literal, and
    how the bracket scans of `(` and `)` agree. */
module Properties {
  import opened Int64s
  import opened Wrappers
  import opened Stacks
  import opened Numeric
  import opened Scanner
  import opened Semantics

  // ---------------------------------------------------------------------
  // Stack commands
  // ---------------------------------------------------------------------

  /** `\` reverses the whole stack, so running it twice changes nothing. */
  lemma ReverseAllTwice(s: seq<Int64>)
    ensures Effect(ReverseAll, s).Ok?
    ensures Effect(ReverseAll, Effect(ReverseAll, s).value) == Ok(s)
  {
    ReverseReverse(s);
  }

  /** `,` on a stack of at least two values: twice changes nothing. */
  lemma SwapTwice(s: seq<Int64>)
    requires |s| >= 2
    ensures SwapEffect(SwapEffect(s)) == s
    ensures SwapEffect(s)[..|s| - 2] == s[..|s| - 2]
  {
    assert Drop(Drop(s)) + [s[|s| - 2], s[|s| - 1]] == s;
  }

  /** `Z` moves the top to the bottom and `z` the bottom to the top: on a
      non-empty stack each undoes the other. */
  lemma BuryUnbury(s: seq<Int64>)
    requires s != []
    ensures Effect(Bury, s) == Ok([s[|s| - 1]] + s[..|s| - 1])
    ensures Effect(Unbury, Effect(Bury, s).value) == Ok(s)
    ensures Effect(Unbury, s) == Ok(s[1..] + [s[0]])
    ensures Effect(Bury, Effect(Unbury, s).value) == Ok(s)
  {
    var t := [s[|s| - 1]] + s[..|s| - 1];
    assert t[1..] + [t[0]] == s;
    var u := s[1..] + [s[0]];
    assert [u[|u| - 1]] + u[..|u| - 1] == s;
  }

  /** `.` pushes C's truncated quotient and remainder of the second value
      `a` by the top `b`: `a == b * q + r`, `|r| < |b|`, and a non-zero
      remainder has the sign of `a`. It traps on a zero divisor and on the
      one quotient that does not fit, `MIN / -1`. */
  lemma DivModSpec(s: seq<Int64>)
    ensures var b, a := Top(s), Top(Drop(s));
      && (DivModEffect(s).Err? <==> b == 0 || (a == MIN_64 && b == -1))
      && (DivModEffect(s).Ok? ==>
            var t := DivModEffect(s).value;
            && |t| >= 2 && t[..|t| - 2] == Drop(Drop(s))
            && var q, r := t[|t| - 2], t[|t| - 1];
            && a == b * q + r && Abs(r) < Abs(b)
            && (r == 0 || (r < 0 <==> a < 0)))
  {
    var b, a := Top(s), Top(Drop(s));
    if b != 0 && !(a == MIN_64 && b == -1) {
      var t := DivModEffect(s).value;
      assert t[|t| - 2] == CDiv(a, b) && t[|t| - 1] == CMod(a, b);
    }
  }

  /** `R` with `n` on top of `n` values pushes those values back in the
      order popped: the top block is reversed. */
  lemma RotateTopReverses(u: seq<Int64>, w: seq<Int64>, n: Int64)
    requires n == |w| > 0
    ensures Effect(RotateTop, u + w + [n]) == Ok(u + Reverse(w))
  {
    var s := u + w + [n];
    assert Top(s) == n && Drop(s) == u + w;
    PoppedSuffix(u, w);
    assert RotateEffect(s) == u + Reverse(w);
  }

  /** `K` with `n` on top of at least `n` values copies those `n` values,
      in their order, on top of the stack. */
  lemma CopyTopCopies(u: seq<Int64>, w: seq<Int64>, n: Int64)
    requires n == |w| > 0
    ensures Effect(CopyTop, u + w + [n]) == Ok(u + w + w)
  {
    var s := u + w + [n];
    assert Drop(s) == u + w;
    assert (u + w)[|u + w| - |w|..] == w;
  }

  /** `icbrt` is odd: any result its contract allows for `-n` is minus any
      result its contract allows for `n`. */
  lemma CbrtOdd(n: Int64, r: int, r': int)
    requires n != MIN_64
    requires 0 <= n < CBRT_EXACT_LIMIT ==> IsFloorCbrt(n, r)
    requires n >= CBRT_EXACT_LIMIT ==> r == 2047
    requires -CBRT_EXACT_LIMIT < n < 0 ==> IsFloorCbrt(-n, -r)
    requires n <= -CBRT_EXACT_LIMIT ==> r == -2047
    requires 0 <= -n < CBRT_EXACT_LIMIT ==> IsFloorCbrt(-n, r')
    requires -n >= CBRT_EXACT_LIMIT ==> r' == 2047
    requires -CBRT_EXACT_LIMIT < -n < 0 ==> IsFloorCbrt(n, -r')
    requires -n <= -CBRT_EXACT_LIMIT ==> r' == -2047
    ensures r' == -r
  {
    CbrtOfUnique(n, r);
    CbrtOfUnique(-n, r');
  }

  /** `b` with an index from -1 to `|r| - 1` on the values `r`: index `k`
      copies the value `k` places below the top, and index -1 copies the
      index itself, still in the slot it was popped from. (A stack holds
      fewer than 2^63 values.) */
  lemma PickCopies(r: seq<Int64>, index: Int64)
    requires -1 <= index < |r| < MAX_64
    ensures PickEffect(r + [index]) == Ok(r + [if index == -1 then -1 else r[|r| - 1 - index]])
  {
    assert Drop(r + [index]) == r;
  }

  // ---------------------------------------------------------------------
  // The stack of stacks
  // ---------------------------------------------------------------------

  /** `[` succeeds exactly when the popped `count` is between 0 and the
      number of values left, and then the new main stack is the top `count`
      of them. (A stack holds fewer than 2^63 values.) */
  lemma OpenSubKeepsTop(vm: Vm)
    requires Fits(vm) && |vm.stk| <= MAX_64
    ensures var count, rest := Top(vm.stk), Drop(vm.stk);
      && (OpenSubStep(vm).Next? <==> 0 <= count <= |rest|)
      && (OpenSubStep(vm).Next? ==> OpenSubStep(vm).vm.stk == rest[|rest| - count..])
  {
    var count, rest := Top(vm.stk), Drop(vm.stk);
    var d := |rest| - count;
    if count < 0 {
      assert |rest| < d < TWO_64;
      assert WrapU64(d) == d;
    } else if count > |rest| {
      assert -TWO_64 < d < 0;
      assert WrapU64(d) == d + TWO_64;
    } else {
      assert WrapU64(d) == d;
    }
  }

  /** `]` undoes `[`: after `[` pops `count` and opens a sub-stack, `]`
      restores the main stack without `count`, the stack of stacks and the
      depth. */
  lemma OpenThenClose(vm: Vm)
    requires Fits(vm) && |vm.stk| <= MAX_64 && OpenSubStep(vm).Next?
    ensures CloseSubStep(OpenSubStep(vm).vm) == vm.(stk := Drop(vm.stk))
  {
    var vm1 := OpenSubStep(vm).vm;
    StacksBack(vm);
    DepthBack(vm.subStkSize);
    assert vm1 == vm.(stk := vm1.stk, stkStk := vm1.stkStk, subStkSize := WrapU64(vm.subStkSize + 1));
    var vm2 := CloseSubStep(vm1);
    assert vm2 == vm1.(stk := vm2.stk, stkStk := vm2.stkStk, subStkSize := WrapU64(vm1.subStkSize - 1));
  }

  /** The two stacks after `[` then `]`. */
  lemma StacksBack(vm: Vm)
    requires Fits(vm) && |vm.stk| <= MAX_64 && OpenSubStep(vm).Next?
    ensures CloseSubStep(OpenSubStep(vm).vm).stk == Drop(vm.stk)
    ensures CloseSubStep(OpenSubStep(vm).vm).stkStk == vm.stkStk
  {
    var count, rest := Top(vm.stk), Drop(vm.stk);
    var m := WrapU64(|rest| - count);
    assert m <= |rest|;
    var vm1 := OpenSubStep(vm).vm;
    assert vm1.stkStk == vm.stkStk + rest[..m] + [Wrap(m)];
    MovedBack(vm.stkStk, rest, m, Wrap(m));
    assert Top(vm1.stkStk) == m && Drop(vm1.stkStk) == vm.stkStk + rest[..m];
  }

  /** The values `[` moves onto the stack of stacks, with their number on
      top, are what `]` moves back under the rest. */
  lemma MovedBack(base: seq<Int64>, rest: seq<Int64>, m: nat, c: Int64)
    requires m <= |rest| && c == m
    ensures var ss := base + rest[..m] + [c];
      && Reverse(Popped(Drop(ss), c)) + rest[m..] == rest
      && DropN(Drop(ss), c) == base
  {
    var below := rest[..m];
    var ss := base + below + [c];
    assert Drop(ss) == base + below;
    PoppedSuffix(base, below);
    ReverseReverse(below);
    assert below + rest[m..] == rest;
  }

  /** The `size_t` depth goes back to where it was after one more and one less. */
  lemma DepthBack(d: U64)
    ensures WrapU64(WrapU64(d + 1) - 1) == d
  {
    if d + 1 < TWO_64 {
      assert WrapU64(d + 1) == d + 1;
    } else {
      assert WrapU64(d + 1) == 0;
      assert WrapU64(-1) == TWO_64 - 1;
    }
  }

  // ---------------------------------------------------------------------
  // String literals
  // ---------------------------------------------------------------------

  /** After `"`, popping the count and then that many values gives the
      count and the literal's characters front to back, and leaves the
      stack as it was. The literal runs to the closing quote under the new
      cursor, or to the end of the code. */
  lemma StringReadsBack(code: seq<Byte>, vm: Vm)
    requires Fits(vm) && vm.i < |code|
    ensures var r := StringStep(code, vm);
      var w := code[vm.i + 1..r.i];
      && (r.i < |code| ==> code[r.i] == '"')
      && Popped(r.stk, |w| + 1) == [Wrap(|w|)] + Chars(w)
      && DropN(r.stk, |w| + 1) == vm.stk
  {
    var r := StringStep(code, vm);
    StringPushes(code, vm);
    var w := code[vm.i + 1..r.i];
    LiteralReadsBack(r.stk, vm.stk, Chars(w), Wrap(|w|));
  }

  /** The values of a literal pushed last first, then a count, pop off as
      the count followed by the values first to last. */
  lemma LiteralReadsBack(stk: seq<Int64>, base: seq<Int64>, c: seq<Int64>, n: Int64)
    requires stk == base + (Reverse(c) + [n])
    ensures Popped(stk, |c| + 1) == [n] + c
    ensures DropN(stk, |c| + 1) == base
  {
    var top := Reverse(c) + [n];
    PoppedSuffix(base, top);
    ReverseSnoc(Reverse(c), n);
    ReverseReverse(c);
  }

  // ---------------------------------------------------------------------
  // Bracket scans
  // ---------------------------------------------------------------------

  lemma {:induction false} DepthConcat(a: seq<Byte>, b: seq<Byte>, open: Byte, close: Byte)
    ensures Depth(a + b, open, close) == Depth(a, open, close) + Depth(b, open, close)
  {
    if a == [] {
      assert a + b == b;
    } else {
      assert (a + b)[1..] == a[1..] + b;
      DepthConcat(a[1..], b, open, close);
    }
  }

  /** `(` with a zero top moves the cursor to the `)` that balances it:
      every stretch of code after the `(` and before that `)` opens at least
      as many parentheses as it closes (`Scanned` counts `(` as +1 and `)`
      as -1), and with it one more is closed.
      With a non-zero top, or when no `)` balances it (a trap), nothing
      moves. The stack is only peeked. */
  lemma SkipIfZeroSpec(code: seq<Byte>, vm: Vm)
    requires Fits(vm) && vm.i < |code|
    ensures var r := Exec(code, vm, SkipIfZero);
      && (Top(vm.stk) != 0 ==> r == Next(vm))
      && (Top(vm.stk) == 0 && r.Next? ==>
            var j := r.vm.i;
            && r.vm == vm.(i := j) && vm.i < j && code[j] == ')'
            && Scanned(code, vm.i, j + 1, '(', ')') == -1
            && forall k :: vm.i + 1 <= k <= j ==> Scanned(code, vm.i, k, '(', ')') >= 0)
      && (Top(vm.stk) == 0 && r.Stop? ==>
            && r.halt == Trapped(NoMatchingBracket)
            && forall k :: vm.i + 1 <= k <= |code| ==> Scanned(code, vm.i, k, '(', ')') >= 0)
  {
    MatchForwardSpec(code, vm.i, '(', ')', 1);
  }

  /** The scans of `(` and `)` pair the same brackets: when the scan from a
      `(` finds a `)`, the scan back from that `)` finds the `(`. */
  lemma ForwardThenBackward(code: seq<Byte>, i: nat, j: nat)
    requires i < |code| && code[i] == '('
    requires ForwardMatch(code, i, '(', ')') == Some(j)
    ensures BackwardMatch(code, j, '(', ')') == Some(i)
  {
    MatchForwardSpec(code, i, '(', ')', 1);
    assert Scanned(code, i, j + 1, '(', ')') == -1;
    assert code[i + 1..j + 1] == code[i + 1..j] + [code[j]];
    DepthAppend(code[i + 1..j], code[j], '(', ')');
    var inner := code[i + 1..j];
    assert Depth(inner, '(', ')') == 0;
    MatchBackwardSpec(code, j, '(', ')', 1);
    assert code[i..j][1..] == inner;
    assert Behind(code, i, j, '(', ')') == 1;
    forall k | i < k <= j
      ensures Behind(code, k, j, '(', ')') <= 0
    {
      assert Scanned(code, i, k, '(', ')') >= 0;
      assert inner == code[i + 1..k] + code[k..j];
      DepthConcat(code[i + 1..k], code[k..j], '(', ')');
    }
  }

  /** And the other way: when the scan back from a `)` finds a `(`, the scan
      forward from that `(` finds the `)`. */
  lemma BackwardThenForward(code: seq<Byte>, i: nat, j: nat)
    requires j < |code| && code[j] == ')'
    requires BackwardMatch(code, j, '(', ')') == Some(i)
    ensures ForwardMatch(code, i, '(', ')') == Some(j)
  {
    MatchBackwardSpec(code, j, '(', ')', 1);
    assert Behind(code, i, j, '(', ')') == 1;
    var inner := code[i + 1..j];
    assert code[i..j][1..] == inner;
    assert Depth(inner, '(', ')') == 0;
    MatchForwardSpec(code, i, '(', ')', 1);
    assert code[i + 1..j + 1] == inner + [code[j]];
    DepthAppend(inner, code[j], '(', ')');
    assert Scanned(code, i, j + 1, '(', ')') == -1;
    forall k | i + 1 <= k <= j
      ensures Scanned(code, i, k, '(', ')') >= 0
    {
      assert Behind(code, k, j, '(', ')') <= 0;
      assert inner == code[i + 1..k] + code[k..j];
      DepthConcat(code[i + 1..k], code[k..j], '(', ')');
    }
  }
}
