/** The raw scans `OML_exec_cmd` runs over the program bytes: the balanced
    bracket scans of `(`, `)` and `{`, the end of a `"` literal and the end
    of an `e\` comment. Each is defined by a function that takes one step of
    the scan per call, characterised by a lemma, and run by a method that is
    the loop of the C code. */
module Scanner {
  import opened Int64s
  import opened Wrappers

  /** How one byte moves the nesting depth of a bracket pair. The opening
      bracket is tested first, as in the C code. */
  function Delta(c: Byte, open: Byte, close: Byte): int {
    if c == open then 1 else if c == close then -1 else 0
  }

  /** Net nesting change over `w`: one up per `open`, one down per `close`. */
  function Depth(w: seq<Byte>, open: Byte, close: Byte): int {
    if w == [] then 0 else Delta(w[0], open, close) + Depth(w[1..], open, close)
  }

  lemma {:induction false} DepthAppend(w: seq<Byte>, c: Byte, open: Byte, close: Byte)
    ensures Depth(w + [c], open, close) == Depth(w, open, close) + Delta(c, open, close)
  {
    if w != [] {
      assert (w + [c])[1..] == w[1..] + [c];
      DepthAppend(w[1..], c, open, close);
    }
  }

  // ---------------------------------------------------------------------
  // The forward scan of `(` and `{`
  // ---------------------------------------------------------------------

  /** The depth change over what a forward scan from `i` has read before
      its cursor passes `k`: the bytes `code[i + 1..k]`. */
  function Scanned(code: seq<Byte>, i: nat, k: nat, open: Byte, close: Byte): int
    requires i + 1 <= k <= |code|
  {
    Depth(code[i + 1..k], open, close)
  }

  /** The forward scan: step the cursor, adjust `depth` by the byte found,
      stop when it reaches 0. `None` when the next step would read past the
      end of the code. */
  function MatchForward(code: seq<Byte>, i: nat, open: Byte, close: Byte, depth: nat): Option<nat>
    requires depth > 0
    decreases |code| - i
  {
    if i + 1 >= |code| then None
    else
      var d := depth + Delta(code[i + 1], open, close);
      if d == 0 then Some(i + 1) else MatchForward(code, i + 1, open, close, d)
  }

  /** The forward scan stops on the first byte after `i` at which the running
      depth, started at `depth`, reaches 0: the depth over every shorter span
      is positive. It finds none exactly when the depth stays positive up to
      the end of the code. */
  lemma {:induction false} MatchForwardSpec(code: seq<Byte>, i: nat, open: Byte, close: Byte, depth: nat)
    requires depth > 0 && open != close
    ensures var r := MatchForward(code, i, open, close, depth);
      && (r.Some? ==>
            && i < r.value < |code| && code[r.value] == close
            && depth + Scanned(code, i, r.value + 1, open, close) == 0
            && forall k :: i + 1 <= k <= r.value ==> depth + Scanned(code, i, k, open, close) > 0)
      && (r.None? ==>
            forall k :: i + 1 <= k <= |code| ==> depth + Scanned(code, i, k, open, close) > 0)
    decreases |code| - i
  {
    if i + 1 < |code| {
      var c := code[i + 1];
      var d := depth + Delta(c, open, close);
      assert Depth(code[i + 1..i + 2], open, close) == Delta(c, open, close) by {
        assert code[i + 1..i + 2][1..] == [];
      }
      if d != 0 {
        MatchForwardSpec(code, i + 1, open, close, d);
        forall k | i + 2 <= k <= |code|
          ensures Scanned(code, i, k, open, close) == Delta(c, open, close) + Scanned(code, i + 1, k, open, close)
        {
          assert code[i + 1..k][1..] == code[i + 2..k];
        }
      }
    }
  }

  // ---------------------------------------------------------------------
  // The backward scan of `)`
  // ---------------------------------------------------------------------

  /** The backward scan: step the cursor back, move `depth` down on `open`
      and up on `close`, stop when it reaches 0. `None` when the cursor
      would step back from 0 (the C code's `size_t` cursor wraps there). */
  function MatchBackward(code: seq<Byte>, i: nat, open: Byte, close: Byte, depth: nat): Option<nat>
    requires depth > 0 && i <= |code|
  {
    if i == 0 then None
    else
      var d := depth - Delta(code[i - 1], open, close);
      if d == 0 then Some(i - 1) else MatchBackward(code, i - 1, open, close, d)
  }

  /** The depth change over what a backward scan to `i` has read when its
      cursor is at `k`: the bytes `code[k..i]`. */
  function Behind(code: seq<Byte>, k: nat, i: nat, open: Byte, close: Byte): int
    requires k <= i <= |code|
  {
    Depth(code[k..i], open, close)
  }

  lemma BehindLast(code: seq<Byte>, k: nat, i: nat, open: Byte, close: Byte)
    requires k < i <= |code|
    ensures Behind(code, k, i, open, close) == Behind(code, k, i - 1, open, close) + Delta(code[i - 1], open, close)
  {
    assert code[k..i] == code[k..i - 1] + [code[i - 1]];
    DepthAppend(code[k..i - 1], code[i - 1], open, close);
  }

  /** The backward scan stops on the last byte before `i` at which the depth,
      started at `depth` and counted from `i` back, reaches 0: the depth over
      every shorter span is positive. It finds none exactly when the depth
      stays positive back to the start of the code. */
  lemma {:induction false} MatchBackwardSpec(code: seq<Byte>, i: nat, open: Byte, close: Byte, depth: nat)
    requires depth > 0 && i <= |code| && open != close
    ensures var r := MatchBackward(code, i, open, close, depth);
      && (r.Some? ==>
            && r.value < i && code[r.value] == open
            && depth - Behind(code, r.value, i, open, close) == 0
            && forall k :: r.value < k <= i ==> depth - Behind(code, k, i, open, close) > 0)
      && (r.None? ==>
            forall k :: 0 <= k <= i ==> depth - Behind(code, k, i, open, close) > 0)
  {
    assert Behind(code, i, i, open, close) == 0;
    if i > 0 {
      var c := code[i - 1];
      var d := depth - Delta(c, open, close);
      BehindLast(code, i - 1, i, open, close);
      if d != 0 {
        MatchBackwardSpec(code, i - 1, open, close, d);
        forall k | 0 <= k < i
          ensures Behind(code, k, i, open, close) == Behind(code, k, i - 1, open, close) + Delta(c, open, close)
        {
          BehindLast(code, k, i, open, close);
        }
      }
    }
  }

  // ---------------------------------------------------------------------
  // The end of a `"` literal and of an `e\` comment
  // ---------------------------------------------------------------------

  /** A `"` ends the literal unless another `"` follows it at once. */
  predicate ClosesString(code: seq<Byte>, j: nat)
    requires j < |code|
  {
    code[j] == '"' && (j + 1 >= |code| || code[j + 1] != '"')
  }

  /** The scan of `"` from `j`: the first byte that closes the literal, or
      the end of the code. */
  function StringEnd(code: seq<Byte>, j: nat): nat
    requires j <= |code|
    decreases |code| - j
  {
    if j == |code| || ClosesString(code, j) then j else StringEnd(code, j + 1)
  }

  lemma {:induction false} StringEndSpec(code: seq<Byte>, j: nat)
    requires j <= |code|
    ensures var e := StringEnd(code, j);
      && j <= e <= |code|
      && (e < |code| ==> ClosesString(code, e))
      && forall k :: j <= k < e ==> !ClosesString(code, k)
    decreases |code| - j
  {
    if j < |code| && !ClosesString(code, j) {
      StringEndSpec(code, j + 1);
    }
  }

  /** The scan of `e\` from `j`: the first newline, or the end of the code. */
  function LineEnd(code: seq<Byte>, j: nat): nat
    requires j <= |code|
    decreases |code| - j
  {
    if j == |code| || code[j] == '\n' then j else LineEnd(code, j + 1)
  }

  lemma {:induction false} LineEndSpec(code: seq<Byte>, j: nat)
    requires j <= |code|
    ensures var e := LineEnd(code, j);
      && j <= e <= |code|
      && (e < |code| ==> code[e] == '\n')
      && forall k :: j <= k < e ==> code[k] != '\n'
    decreases |code| - j
  {
    if j < |code| && code[j] != '\n' {
      LineEndSpec(code, j + 1);
    }
  }

  // ---------------------------------------------------------------------
  // The scans as the loops of the C code
  // ---------------------------------------------------------------------

  /** The loop of `(` and `{` from the opening bracket at `i`: step, then
      count the byte, until the depth is 0. `None` where the C code would
      read `code[size]`, past the end of the program. */
  method ScanForward(code: seq<Byte>, i: nat, open: Byte, close: Byte) returns (r: Option<nat>)
    requires i < |code|
    ensures r.Some? ==> i < r.value < |code|
    ensures r == MatchForward(code, i, open, close, 1)
  {
    var depth: nat := 1;
    var k: nat := i;
    while depth != 0
      invariant i <= k < |code| && (depth == 0 ==> i < k)
      invariant depth > 0 ==> MatchForward(code, k, open, close, depth) == MatchForward(code, i, open, close, 1)
      invariant depth == 0 ==> MatchForward(code, i, open, close, 1) == Some(k)
      decreases |code| - k
    {
      if k + 1 >= |code| {
        return None;
      }
      k := k + 1;
      if code[k] == open {
        depth := depth + 1;
      } else if code[k] == close {
        depth := depth - 1;
      }
    }
    r := Some(k);
  }

  /** The loop of `)` from the closing bracket at `i`: step back, then count
      the byte, until the depth is 0. `None` where the C code's cursor would
      step back from 0. */
  method ScanBackward(code: seq<Byte>, i: nat, open: Byte, close: Byte) returns (r: Option<nat>)
    requires i < |code|
    ensures r.Some? ==> r.value < i
    ensures r == MatchBackward(code, i, open, close, 1)
  {
    var depth: nat := 1;
    var k: nat := i;
    while depth != 0
      invariant k <= i && (depth == 0 ==> k < i)
      invariant depth > 0 ==> MatchBackward(code, k, open, close, depth) == MatchBackward(code, i, open, close, 1)
      invariant depth == 0 ==> MatchBackward(code, i, open, close, 1) == Some(k)
      decreases k
    {
      if k == 0 {
        return None;
      }
      k := k - 1;
      if code[k] == open {
        depth := depth - 1;
      } else if code[k] == close {
        depth := depth + 1;
      }
    }
    r := Some(k);
  }

  /** The loop of `"` from the first byte of the literal. */
  method ScanString(code: seq<Byte>, start: nat) returns (end: nat)
    requires start <= |code|
    ensures start <= end <= |code|
    ensures end == StringEnd(code, start)
  {
    end := start;
    while end < |code|
      invariant start <= end <= |code|
      invariant StringEnd(code, end) == StringEnd(code, start)
      decreases |code| - end
    {
      if code[end] == '"' {
        if end + 1 >= |code| || code[end + 1] != '"' {
          break;
        }
      }
      end := end + 1;
    }
  }

  /** The loop of `e\`: advance while in the code and not on a newline. */
  method ScanLine(code: seq<Byte>, j: nat) returns (e: nat)
    requires j <= |code|
    ensures j <= e <= |code|
    ensures e == LineEnd(code, j)
  {
    e := j;
    while e < |code| && code[e] != '\n'
      invariant j <= e <= |code| && LineEnd(code, e) == LineEnd(code, j)
      decreases |code| - e
    {
      e := e + 1;
    }
  }
}
