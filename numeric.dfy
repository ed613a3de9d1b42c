/** OML's integer helpers: `factorial`, the cube and square roots behind the
    `M` and `N` opcodes, `is_power`, the digit loop of `to_base` behind `U`
    and `V`, and `char_to_in_digit`. */
module Numeric {
  import opened Int64s
  import opened Wrappers

  // ---------------------------------------------------------------------
  // Reference definitions
  // ---------------------------------------------------------------------

  function Pow(b: int, k: nat): int {
    if k == 0 then 1 else b * Pow(b, k - 1)
  }

  function Fact(n: nat): nat {
    if n == 0 then 1 else n * Fact(n - 1)
  }

  /** The number whose big-endian digits in base `b` are `ds`. */
  function FromDigits(ds: seq<int>, b: int): int {
    if ds == [] then 0 else FromDigits(ds[..|ds| - 1], b) * b + ds[|ds| - 1]
  }

  ghost predicate IsFloorSqrt(n: int, r: int) {
    0 <= r && r * r <= n < (r + 1) * (r + 1)
  }

  ghost predicate IsFloorCbrt(n: int, r: int) {
    0 <= r && r * r * r <= n < (r + 1) * (r + 1) * (r + 1)
  }

  /** The floor square root, by counting up from 0. */
  function FloorSqrt(n: nat): (r: nat)
    ensures IsFloorSqrt(n, r) && r <= n
  {
    if n == 0 then 0
    else
      var p := FloorSqrt(n - 1);
      if (p + 1) * (p + 1) <= n then SquareStep(n, p); p + 1 else p
  }

  lemma SquareStep(n: nat, p: nat)
    requires n >= 1 && IsFloorSqrt(n - 1, p) && (p + 1) * (p + 1) <= n
    ensures IsFloorSqrt(n, p + 1) && p + 1 <= n
  {
    assert (p + 2) * (p + 2) == (p + 1) * (p + 1) + 2 * p + 3;
    MulAtLeast(p + 1, p + 1);
  }

  /** The floor cube root, by counting up from 0. */
  function FloorCbrt(n: nat): (r: nat)
    ensures IsFloorCbrt(n, r) && r <= n
  {
    if n == 0 then 0
    else
      var p := FloorCbrt(n - 1);
      if (p + 1) * (p + 1) * (p + 1) <= n then CubeStep(n, p); p + 1 else p
  }

  lemma CubeStep(n: nat, p: nat)
    requires n >= 1 && IsFloorCbrt(n - 1, p) && (p + 1) * (p + 1) * (p + 1) <= n
    ensures IsFloorCbrt(n, p + 1) && p + 1 <= n
  {
    CubeScaledLess(p + 1, 1);
    CubeAtLeast(p + 1);
  }

  /** `isqrt` is exact below this bound; its first bit is `1 << 30`. */
  const SQRT_EXACT_LIMIT: int := TWO_32
  /** `icbrt` is exact below this bound; its first shift is 30. */
  const CBRT_EXACT_LIMIT: int := 0x2_0000_0000

  /** What `isqrt` returns: the floor square root, and 65535 from 2^32 on. */
  function SqrtOf(num: Int64): Int64
    requires num >= 0
  {
    if num < SQRT_EXACT_LIMIT then FloorSqrt(num) else 0xffff
  }

  /** What `icbrt` returns: the floor cube root of the magnitude with the
      argument's sign, and 2047 in magnitude from 2^33 on. */
  function CbrtOf(n: Int64): Int64
    requires n != MIN_64
  {
    if n >= 0 then (if n < CBRT_EXACT_LIMIT then FloorCbrt(n) else 2047)
    else -(if -n < CBRT_EXACT_LIMIT then FloorCbrt(-n) else 2047)
  }

  // ---------------------------------------------------------------------
  // Arithmetic facts
  // ---------------------------------------------------------------------

  lemma {:induction false} PowAdd(b: int, j: nat, k: nat)
    ensures Pow(b, j + k) == Pow(b, j) * Pow(b, k)
  {
    if j > 0 {
      PowAdd(b, j - 1, k);
      assert Pow(b, j + k) == b * Pow(b, j - 1 + k);
    }
  }

  lemma {:induction false} PowAbs(b: int, k: nat)
    requires Abs(b) >= 2
    ensures k > 0 ==> Abs(Pow(b, k)) >= 2
    ensures Pow(b, k) != 0
  {
    if k > 0 {
      var p := Pow(b, k - 1);
      PowAbs(b, k - 1);
      assert Pow(b, k) == b * p;
      AbsMul(b, p);
      MulAtLeast(Abs(b), Abs(p));
    }
  }

  lemma AbsMul(a: int, b: int)
    ensures Abs(a * b) == Abs(a) * Abs(b)
  {
    if a < 0 && b < 0 { assert a * b == (-a) * (-b); }
    else if a < 0 { assert a * b == -((-a) * b); }
    else if b < 0 { assert a * b == -(a * (-b)); }
  }

  /** A non-zero multiple of `b` is at least as large as `b` in magnitude. */
  lemma MultipleAbs(b: int, t: int)
    requires t != 0
    ensures Abs(b * t) >= Abs(b)
  {
    AbsMul(b, t);
    MulAtLeast(Abs(b), Abs(t));
  }

  lemma MulAtLeast(a: nat, c: nat)
    requires c >= 1
    ensures a * c >= a
  {
    assert a * c == a + a * (c - 1);
  }

  /** C's `%` is zero on multiples of the divisor. */
  lemma ModOfMultiple(b: int, m: int)
    requires b != 0
    ensures CMod(b * m, b) == 0
  {
    var q := CDiv(b * m, b);
    var r := CMod(b * m, b);
    assert b * m == b * q + r;
    assert r == b * (m - q) by { assert b * m - b * q == b * (m - q); }
    if m - q != 0 {
      MultipleAbs(b, m - q);
    }
  }

  lemma WrapMul(a: int, b: int)
    ensures Wrap(Wrap(a) * b) == Wrap(a * b)
  {
    var k := (Wrap(a) - a) / TWO_64;
    assert Wrap(a) == a + k * TWO_64;
    assert Wrap(a) * b == a * b + (k * b) * TWO_64;
    WrapShift(a * b, k * b);
  }

  lemma WrapShift(x: int, k: int)
    ensures Wrap(x + k * TWO_64) == Wrap(x)
  {
    assert (x + k * TWO_64) % TWO_64 == x % TWO_64;
  }

  // ---------------------------------------------------------------------
  // factorial
  // ---------------------------------------------------------------------

  lemma {:induction false} FactPositive(n: nat)
    ensures Fact(n) >= 1
  {
    if n > 0 { FactPositive(n - 1); }
  }

  /** `factorial`: 0 for a negative argument, 1 for 0 and 1, otherwise
      `n!` computed with 64-bit wrap-around, which is exact up to 20. */
  method Factorial(n: Int64) returns (r: Int64)
    ensures n < 0 ==> r == 0
    ensures n >= 0 ==> r == Wrap(Fact(n))
    ensures 0 <= n <= 20 ==> r == Fact(n)
  {
    if n < 0 {
      return 0;
    } else if n <= 1 {
      return 1;
    }
    var prod: Int64 := n;
    var k: int := n;
    ghost var exact: int := n;
    while k > 1
      invariant 1 <= k <= n
      invariant exact * Fact(k - 1) == Fact(n)
      invariant prod == Wrap(exact)
    {
      k := k - 1;
      FactStep(exact, k, Fact(n));
      WrapMul(exact, k);
      prod := Wrap(prod * k);
      exact := exact * k;
    }
    r := prod;
    FactFits(n);
  }

  /** `n!` fits in 64 bits up to 20, so the wrapped product is exact there. */
  lemma FactFits(n: nat)
    ensures n <= 20 ==> Wrap(Fact(n)) == Fact(n)
  {
    if n <= 20 {
      FactMonotone(n, 20);
      Fact20();
    }
  }

  /** One round of `factorial`'s loop keeps the exact product and its wrapped value in step. */
  lemma FactStep(exact: int, k: nat, total: int)
    requires k >= 1 && exact * Fact(k) == total
    ensures (exact * k) * Fact(k - 1) == total
  {
    var f := Fact(k - 1);
    assert Fact(k) == k * f;
    MulAssoc(exact, k, f);
  }

  lemma MulAssoc(a: int, b: int, c: int)
    ensures a * (b * c) == (a * b) * c
  {
  }

  lemma Fact20()
    ensures Fact(20) == 2432902008176640000
  {
    assert Fact(10) == 3628800;
    assert Fact(15) == 1307674368000;
  }

  lemma {:induction false} FactMonotone(m: nat, n: nat)
    requires m <= n
    ensures Fact(m) <= Fact(n)
  {
    if m < n {
      FactMonotone(m, n - 1);
      MulAtLeast(Fact(n - 1), n);
    }
  }

  // ---------------------------------------------------------------------
  // icbrt: digit-by-digit cube root
  // ---------------------------------------------------------------------

  lemma PowerValues()
    ensures Pow(2, 3) == 8
    ensures Pow(2, 33) == CBRT_EXACT_LIMIT
    ensures Pow(4, 15) == 0x4000_0000
    ensures Pow(4, 16) == SQRT_EXACT_LIMIT
  {
    assert Pow(2, 3) == 8;
    assert Pow(2, 11) == 2048;
    PowAdd(2, 11, 11);
    PowAdd(2, 22, 11);
    assert Pow(4, 5) == 1024;
    PowAdd(4, 5, 5);
    PowAdd(4, 10, 5);
    assert Pow(4, 16) == 4 * Pow(4, 15);
  }

  lemma CubeMonotone(a: int, b: int)
    requires 0 <= a <= b
    ensures a * a * a <= b * b * b
  {
    assert a * a <= b * b by { SquareMonotone(a, b); }
    assert a * a * a <= b * b * a;
    assert b * b * a <= b * b * b;
  }

  /** The floor cube root is unique, so `icbrt(-n) == -icbrt(n)` pins down one value. */
  lemma FloorCbrtUnique(n: int, r1: int, r2: int)
    requires IsFloorCbrt(n, r1) && IsFloorCbrt(n, r2)
    ensures r1 == r2
  {
    if r1 < r2 { CubeMonotone(r1 + 1, r2); }
    if r2 < r1 { CubeMonotone(r2 + 1, r1); }
  }

  lemma CubeExpand(y: int, sc: int)
    ensures (2 * y) * (2 * y) * (2 * y) * sc == y * y * y * (8 * sc)
    ensures (2 * y + 1) * (2 * y + 1) * (2 * y + 1) * sc
         == y * y * y * (8 * sc) + (3 * (4 * (y * y) + 2 * y) + 1) * sc
    ensures (2 * y + 2) * (2 * y + 2) * (2 * y + 2) * sc == (y + 1) * (y + 1) * (y + 1) * (8 * sc)
  {
    var q := y * y;
    var c := q * y;
    assert (2 * y) * (2 * y) * (2 * y) == 8 * c;
    assert (2 * y + 1) * (2 * y + 1) == 4 * q + 4 * y + 1;
    assert (2 * y + 1) * (2 * y + 1) * (2 * y + 1) == (4 * q + 4 * y + 1) * (2 * y + 1);
    assert (4 * q + 4 * y + 1) * (2 * y + 1) == 8 * c + 12 * q + 6 * y + 1;
    assert (2 * y + 2) * (2 * y + 2) * (2 * y + 2) == 8 * ((y + 1) * (y + 1) * (y + 1));
    assert (8 * c + 12 * q + 6 * y + 1) * sc == c * (8 * sc) + (3 * (4 * q + 2 * y) + 1) * sc;
  }

  /** Cubes at scale `sc` grow strictly with the root. */
  lemma CubeScaledLess(a: int, sc: int)
    requires 0 <= a && sc >= 1
    ensures a * a * a * sc < (a + 1) * (a + 1) * (a + 1) * sc
  {
    CubeMonotone(a, a + 1);
    var lo := a * a * a;
    var hi := (a + 1) * (a + 1) * (a + 1);
    assert hi - lo == 3 * (a * a) + 3 * a + 1;
    assert hi * sc - lo * sc == (hi - lo) * sc;
    MulAtLeast(hi - lo, sc);
  }

  /** What `icbrt`'s loop keeps at scale `sc`: `y` is the root found so far,
      `y2` its square, `x` what is left of `n`; below the exact limit `y` is a
      floor root at this scale, and from it on every bit so far was taken. */
  ghost predicate CbrtState(n: int, y: int, y2: int, x: int, sc: int) {
    && sc >= 1 && 0 <= y && y2 == y * y
    && x == n - y * y * y * sc && 0 <= x
    && (n < CBRT_EXACT_LIMIT ==> n < (y + 1) * (y + 1) * (y + 1) * sc)
    && (n >= CBRT_EXACT_LIMIT ==> (y + 1) * (y + 1) * (y + 1) * sc == CBRT_EXACT_LIMIT)
  }

  /** One round of `icbrt` at shift `s`, where `sc` is `1 << s`: the trial `b`
      is what taking the next bit costs, and the bit is taken exactly when
      the remainder `x` covers it. */
  lemma CbrtRound(n: int, y: int, y2: int, x: int, sc: int)
    requires sc >= 1 && CbrtState(n, y, y2, x, 8 * sc)
    ensures var Y, Y2 := 2 * y, 4 * y2;
      var b := (3 * (Y2 + Y) + 1) * sc;
      && (x >= b ==> CbrtState(n, Y + 1, Y2 + 2 * Y + 1, x - b, sc))
      && (x < b ==> n < CBRT_EXACT_LIMIT && CbrtState(n, Y, Y2, x, sc))
  {
    var b := (3 * (4 * y2 + 2 * y) + 1) * sc;
    if x >= b {
      CbrtTake(n, y, y2, x, sc);
    } else {
      CbrtSkip(n, y, y2, x, sc);
    }
  }

  /** Taking the bit: the root becomes `2y + 1`. */
  lemma CbrtTake(n: int, y: int, y2: int, x: int, sc: int)
    requires sc >= 1 && CbrtState(n, y, y2, x, 8 * sc)
    requires x >= (3 * (4 * y2 + 2 * y) + 1) * sc
    ensures CbrtState(n, 2 * y + 1, 4 * y2 + 4 * y + 1, x - (3 * (4 * y2 + 2 * y) + 1) * sc, sc)
  {
    CubeExpand(y, sc);
    SquareOfDouble(y, y2);
  }

  /** Leaving the bit: the root becomes `2y`, which is below the exact limit. */
  lemma CbrtSkip(n: int, y: int, y2: int, x: int, sc: int)
    requires sc >= 1 && CbrtState(n, y, y2, x, 8 * sc)
    requires x < (3 * (4 * y2 + 2 * y) + 1) * sc
    ensures n < CBRT_EXACT_LIMIT && CbrtState(n, 2 * y, 4 * y2, x, sc)
  {
    CubeExpand(y, sc);
    SquareOfDouble(y, y2);
    if n >= CBRT_EXACT_LIMIT {
      CubeScaledLess(2 * y + 1, sc);
    }
  }

  lemma SquareOfDouble(y: int, y2: int)
    requires y2 == y * y
    ensures (2 * y) * (2 * y) == 4 * y2
    ensures (2 * y + 1) * (2 * y + 1) == 4 * y2 + 4 * y + 1
  {
  }

  lemma CubeRootOf2To33(y: int)
    requires 0 <= y && (y + 1) * (y + 1) * (y + 1) == CBRT_EXACT_LIMIT
    ensures y == 2047
  {
    if y < 2047 { CubeMonotone(y + 1, 2047); }
    if y > 2047 { CubeMonotone(2049, y + 1); }
  }

  lemma CubeAtLeast(y: int)
    requires y >= 1
    ensures y <= y * y * y
  {
    MulAtLeast(y, y);
    MulAtLeast(y * y, y);
  }

  /** `icbrt`: the floor cube root below 2^33, sign-symmetric by recursion on
      the negation; above 2^33 its eleven rounds saturate at 2047. The C
      code recurses forever on the most negative value, whose negation
      overflows, so that value is excluded. */
  method Icbrt(n: Int64) returns (r: Int64)
    requires n != MIN_64
    ensures 0 <= n < CBRT_EXACT_LIMIT ==> IsFloorCbrt(n, r)
    ensures n >= CBRT_EXACT_LIMIT ==> r == 2047
    ensures -CBRT_EXACT_LIMIT < n < 0 ==> IsFloorCbrt(-n, -(r as int))
    ensures n <= -CBRT_EXACT_LIMIT ==> r == -2047
    decreases if n < 0 then 1 else 0
  {
    if n < 0 {
      var t := Icbrt(-n);
      return -t;
    }
    PowerValues();
    var x: int := n;
    var y2: int := 0;
    var y: int := 0;
    var s: int := 30;
    ghost var k: int := 0;
    ghost var sc: int := Pow(2, 33);
    while s >= 0
      invariant 0 <= k <= 11 && s == 30 - 3 * k
      invariant sc == Pow(2, s + 3)
      invariant CbrtState(n, y, y2, x, sc)
    {
      ghost var sc' := Pow(2, s);
      PowAdd(2, s, 3);
      CbrtRound(n, y, y2, x, sc');
      y2 := 4 * y2;
      y := 2 * y;
      var b := (3 * (y2 + y) + 1) * Pow(2, s);
      if x >= b {
        x := x - b;
        y2 := y2 + 2 * y + 1;
        y := y + 1;
      }
      s := s - 3;
      k := k + 1;
      sc := sc';
    }
    CbrtFinal(n, y, y2, x);
    r := y;
  }

  /** After the last round the scale is 1, so the state names the result. */
  lemma CbrtFinal(n: int, y: int, y2: int, x: int)
    requires CbrtState(n, y, y2, x, 1)
    ensures 0 <= y <= 2047
    ensures n < CBRT_EXACT_LIMIT ==> IsFloorCbrt(n, y)
    ensures n >= CBRT_EXACT_LIMIT ==> y == 2047
  {
    if n >= CBRT_EXACT_LIMIT {
      CubeRootOf2To33(y);
    } else if y > 2047 {
      CubeMonotone(2048, y);
    }
  }

  /** A result with `icbrt`'s contract is `CbrtOf`, the floor root being unique. */
  lemma CbrtOfUnique(n: Int64, r: int)
    requires n != MIN_64
    requires 0 <= n < CBRT_EXACT_LIMIT ==> IsFloorCbrt(n, r)
    requires n >= CBRT_EXACT_LIMIT ==> r == 2047
    requires -CBRT_EXACT_LIMIT < n < 0 ==> IsFloorCbrt(-n, -r)
    requires n <= -CBRT_EXACT_LIMIT ==> r == -2047
    ensures r == CbrtOf(n)
  {
    if 0 <= n < CBRT_EXACT_LIMIT {
      FloorCbrtUnique(n, r, FloorCbrt(n));
    } else if -CBRT_EXACT_LIMIT < n < 0 {
      FloorCbrtUnique(-n, -r, FloorCbrt(-n));
    }
  }

  // ---------------------------------------------------------------------
  // isqrt: bit-pair square root
  // ---------------------------------------------------------------------

  lemma SquareMonotone(a: int, b: int)
    requires 0 <= a <= b
    ensures a * a <= b * b
  {
    assert a * a <= a * b;
    assert a * b <= b * b;
  }

  lemma FloorSqrtUnique(n: int, r1: int, r2: int)
    requires IsFloorSqrt(n, r1) && IsFloorSqrt(n, r2)
    ensures r1 == r2
  {
    if r1 < r2 { SquareMonotone(r1 + 1, r2); }
    if r2 < r1 { SquareMonotone(r2 + 1, r1); }
  }

  /** What `isqrt`'s main loop keeps at scale `sc`: `res` is the root found
      so far `y` at that scale, `n` what is left of `num`; below the exact
      limit `y` is a floor root at this scale, and from it on every bit so far
      was taken. */
  ghost predicate SqrtState(num: int, y: int, res: int, n: int, sc: int) {
    && sc >= 1 && 0 <= y && res == y * sc
    && n == num - y * y * sc && 0 <= n
    && (num < SQRT_EXACT_LIMIT ==> num < (y + 1) * (y + 1) * sc)
    && (num >= SQRT_EXACT_LIMIT ==> (y + 1) * (y + 1) * sc == SQRT_EXACT_LIMIT)
  }

  /** One round of `isqrt` with `bit == sc`: the trial `res + bit` is what
      taking the next bit costs, and halving `res` moves it to scale `sc`. */
  lemma SqrtRound(num: int, y: int, res: int, n: int, sc: int)
    requires sc >= 1 && SqrtState(num, y, res, n, 4 * sc)
    ensures n >= res + sc ==> SqrtState(num, 2 * y + 1, res / 2 + sc, n - (res + sc), sc)
    ensures n < res + sc ==> SqrtState(num, 2 * y, res / 2, n, sc)
  {
    assert res == ((2 * y) * sc) * 2;
    assert (2 * y) * (2 * y) * sc == y * y * (4 * sc);
    assert (2 * y + 1) * (2 * y + 1) * sc == y * y * (4 * sc) + (res + sc);
    assert (2 * y + 2) * (2 * y + 2) * sc == (y + 1) * (y + 1) * (4 * sc);
  }

  /** After the last round the scale is 1, so the state names the result. */
  lemma SqrtFinal(num: int, y: int, res: int, n: int)
    requires SqrtState(num, y, res, n, 1)
    ensures 0 <= res <= 0xffff
    ensures num < SQRT_EXACT_LIMIT ==> IsFloorSqrt(num, res)
    ensures num >= SQRT_EXACT_LIMIT ==> res == 0xffff
  {
    if num >= SQRT_EXACT_LIMIT {
      if res < 0xffff { SquareMonotone(res + 1, 0xffff); }
      if res > 0xffff { SquareMonotone(0x1_0001, res + 1); }
    } else if res > 0xffff {
      SquareMonotone(0x1_0000, res);
    }
  }

  /** A result with `isqrt`'s contract is `SqrtOf`, the floor root being unique. */
  lemma SqrtOfUnique(num: Int64, r: int)
    requires num >= 0
    requires num < SQRT_EXACT_LIMIT ==> IsFloorSqrt(num, r)
    requires num >= SQRT_EXACT_LIMIT ==> r == 0xffff
    ensures r == SqrtOf(num)
  {
    if num < SQRT_EXACT_LIMIT {
      FloorSqrtUnique(num, r, FloorSqrt(num));
    }
  }

  /** `isqrt`: the floor square root below 2^32. Its starting bit `1 << 30`
      makes it saturate at 65535 from 2^32 on. On a negative argument its
      first loop never ends (`bit` reaches 0, still greater than `num`), so
      the argument must be non-negative. */
  method Isqrt(num: Int64) returns (r: Int64)
    requires num >= 0
    ensures num < SQRT_EXACT_LIMIT ==> IsFloorSqrt(num, r)
    ensures num >= SQRT_EXACT_LIMIT ==> r == 0xffff
  {
    PowerValues();
    var bit: int := 0x4000_0000;
    ghost var e: int := 15;
    while bit > num
      invariant -1 <= e <= 15
      invariant bit == if e >= 0 then Pow(4, e) else 0
      invariant e == 15 || num < Pow(4, e + 1)
      decreases e
    {
      if e > 0 { assert Pow(4, e) == 4 * Pow(4, e - 1); }
      bit := bit / 4;
      e := e - 1;
    }
    var n: int := num;
    var res: int := 0;
    ghost var y: int := 0;
    ghost var sc: int := Pow(4, e + 1);
    while bit != 0
      invariant -1 <= e <= 15
      invariant sc == Pow(4, e + 1)
      invariant bit == if e >= 0 then Pow(4, e) else 0
      invariant SqrtState(num, y, res, n, sc)
      decreases e
    {
      ghost var sc' := Pow(4, e);
      SqrtRound(num, y, res, n, sc');
      if e > 0 { assert Pow(4, e) == 4 * Pow(4, e - 1); }
      if n >= res + bit {
        n := n - (res + bit);
        res := res / 2 + bit;
        y := 2 * y + 1;
      } else {
        res := res / 2;
        y := 2 * y;
      }
      bit := bit / 4;
      e := e - 1;
      sc := sc';
    }
    SqrtFinal(num, y, res, n);
    r := res;
  }

  // ---------------------------------------------------------------------
  // is_power
  // ---------------------------------------------------------------------

  lemma MulCancel(x: int, y: int, p: int)
    requires p != 0 && x * p == y * p
    ensures x == y
  {
    assert (x - y) * p == 0;
  }

  /** If `n * base^j` is a power of `base` and `base` does not divide `n`, then `n` is 1. */
  lemma PowerCofactor(base: int, n: int, j: nat, k: nat)
    requires Abs(base) >= 2 && CMod(n, base) != 0
    requires n * Pow(base, j) == Pow(base, k)
    ensures n == 1
  {
    PowAbs(base, j);
    if k >= j {
      var e := k - j;
      PowAdd(base, e, j);
      MulCancel(n, Pow(base, e), Pow(base, j));
      if e > 0 {
        ModOfMultiple(base, Pow(base, e - 1));
      }
    } else {
      var e := j - k;
      PowAdd(base, e, k);
      PowAbs(base, k);
      PowAbs(base, e);
      MulAssoc(n, Pow(base, e), Pow(base, k));
      MulCancel(n * Pow(base, e), 1, Pow(base, k));
      MultipleAbs(Pow(base, e), n);
    }
  }

  /** One round of `is_power`'s loop: an exact division of `n` by `base`
      giving `q` keeps `num == n * base^j` and strictly shrinks `n`. */
  lemma DivideStep(num: int, n: int, base: int, j: nat, q: int)
    requires Abs(base) >= 2 && n != 0 && n == base * q
    requires num == n * Pow(base, j)
    ensures q != 0 && Abs(q) < Abs(n)
    ensures num == q * Pow(base, j + 1)
  {
    AbsMul(base, q);
    MulAssoc(q, base, Pow(base, j));
  }

  /** `is_power`: whether `num` is `base` raised to some exponent. The C code
      divides while the remainder is 0, which never ends for `num == 0` or
      `|base| <= 1` and traps for `base == 0`, so those are excluded. */
  method IsPower(num: Int64, base: Int64) returns (b: bool)
    requires num != 0 && Abs(base) >= 2
    ensures b <==> exists k: nat :: Pow(base, k) == num
  {
    var n: int := num;
    ghost var j: nat := 0;
    while CMod(n, base) == 0
      invariant n != 0 && num == n * Pow(base, j)
      decreases Abs(n)
    {
      var q := CDiv(n, base);
      DivideStep(num, n, base, j, q);
      n := q;
      j := j + 1;
    }
    b := n == 1;
    if !b && exists k: nat :: Pow(base, k) == num {
      var k: nat :| Pow(base, k) == num;
      PowerCofactor(base, n, j, k);
    }
  }

  // ---------------------------------------------------------------------
  // to_base: the digit loop
  // ---------------------------------------------------------------------

  /** The digits of `n` in `base`, most significant first; none for `n <= 0`. */
  function Digits(n: int, base: Int64): seq<Int64>
    requires base >= 2
    decreases if n > 0 then n else 0
  {
    if n <= 0 then [] else DivShrinks(n, base); Digits(n / base, base) + [n % base]
  }

  lemma DivShrinks(n: int, base: int)
    requires n > 0 && base >= 2
    ensures 0 <= n / base < n
  {
    QuotientBounds(n, base, n / base, n % base);
  }

  lemma QuotientBounds(n: int, b: int, q: int, r: int)
    requires n > 0 && b >= 2 && n == b * q + r && 0 <= r < b
    ensures 0 <= q < n
  {
    MulAwayFromZero(b, q);
    if q >= 0 {
      assert b * q == q + (b - 1) * q;
      MulAtLeast(q, b - 1);
    }
  }

  /** A nonzero multiple of `b` is at least `b` away from zero. */
  lemma MulAwayFromZero(b: int, t: int)
    requires b >= 1
    ensures t >= 1 ==> b * t >= b
    ensures t <= -1 ==> b * t <= -b
  {
    if t >= 1 {
      MulAtLeast(b, t);
    } else if t <= -1 {
      MulAtLeast(b, -t);
    }
  }

  /** `x * b + d` splits back into `x` and `d` under division by `b`. */
  lemma DivModUnique(x: int, b: int, d: int)
    requires b >= 1 && 0 <= d < b
    ensures (x * b + d) / b == x && (x * b + d) % b == d
  {
    var n := x * b + d;
    SameQuotient(b, x, d, n / b, n % b);
  }

  lemma SameQuotient(b: int, x: int, d: int, q: int, r: int)
    requires b >= 1 && 0 <= d < b && 0 <= r < b && x * b + d == b * q + r
    ensures x == q && d == r
  {
    assert b * (x - q) == r - d;
    MulAwayFromZero(b, x - q);
  }

  /** `Digits` yields proper digits, with no leading zero, that read back as `n`. */
  lemma {:induction false} DigitsSpec(n: int, base: Int64)
    requires base >= 2
    ensures forall k :: 0 <= k < |Digits(n, base)| ==> 0 <= Digits(n, base)[k] < base
    ensures n > 0 ==> Digits(n, base) != [] && Digits(n, base)[0] != 0
    ensures n >= 0 ==> FromDigits(Digits(n, base), base) == n
    decreases if n > 0 then n else 0
  {
    if n > 0 {
      var q, d := n / base, n % base;
      DivShrinks(n, base);
      DigitsSpec(q, base);
      var ds := Digits(n, base);
      assert ds == Digits(q, base) + [d];
      assert ds[..|ds| - 1] == Digits(q, base);
      assert n == q * base + d;
    }
  }

  /** Conversely, every sequence of proper digits with no leading zero is
      the digit sequence of the number it reads as. */
  lemma {:induction false} DigitsOfValue(ds: seq<int>, base: Int64)
    requires base >= 2
    requires forall k :: 0 <= k < |ds| ==> 0 <= ds[k] < base
    requires ds != [] ==> ds[0] != 0
    ensures ds != [] ==> FromDigits(ds, base) > 0
    ensures Digits(FromDigits(ds, base), base) == ds
  {
    if ds != [] {
      var init, d := ds[..|ds| - 1], ds[|ds| - 1];
      DigitsOfValue(init, base);
      var x := FromDigits(init, base);
      assert x >= 0;
      if init == [] {
        assert ds == [d] && x == 0;
      } else {
        MulAtLeast(x, base);
      }
      DivModUnique(x, base, d);
    }
  }

  /** The digit loop of `to_base`: it fills the buffer from the end with
      `n % base`, dividing `n` by `base`, so it yields `Digits(n, base)`
      (whose properties `DigitsSpec` states); none for `n <= 0`, where the
      loop does not run. */
  method ToBase(n: Int64, base: Int64) returns (digits: seq<Int64>)
    requires base >= 2
    ensures digits == Digits(n, base)
  {
    var m: int := n;
    digits := [];
    while m > 0
      invariant m <= n
      invariant Digits(m, base) + digits == Digits(n, base)
    {
      DivShrinks(m, base);
      var d := m % base;
      digits := [d as Int64] + digits;
      m := m / base;
    }
  }

  // ---------------------------------------------------------------------
  // The scale loop of the `T` opcode
  // ---------------------------------------------------------------------

  /** The number of decimal digits of `y`; 1 for every `y` below 10. */
  function DecimalWidth(y: int): (w: nat)
    ensures w >= 1
    decreases y
  {
    if y < 10 then 1 else 1 + DecimalWidth(y / 10)
  }

  /** `10^DecimalWidth(y)` is the first power of ten from 10 on above `y`. */
  lemma {:induction false} DecimalWidthBounds(y: int)
    ensures y < Pow(10, DecimalWidth(y))
    ensures DecimalWidth(y) > 1 ==> Pow(10, DecimalWidth(y) - 1) <= y
    decreases y
  {
    if y >= 10 {
      var q := y / 10;
      DecimalWidthBounds(q);
      var w := DecimalWidth(q);
      assert Pow(10, w + 1) == 10 * Pow(10, w);
      assert y < 10 * q + 10;
      if w > 1 {
        assert Pow(10, w) == 10 * Pow(10, w - 1);
      }
    }
  }

  lemma {:induction false} PowMonotone(b: int, j: nat, k: nat)
    requires b >= 1 && j <= k
    ensures 1 <= Pow(b, j) <= Pow(b, k)
  {
    if j < k {
      PowMonotone(b, j, k - 1);
      MulAtLeast(Pow(b, k - 1), b);
    } else if j > 0 {
      PowMonotone(b, j - 1, j - 1);
      MulAtLeast(Pow(b, j - 1), b);
    }
  }

  /** The exponent of the scale `T` joins with: the least `k` from `j` on
      with `y < Wrap(10^k)`, the powers of ten wrapping to 64 bits as the
      loop's `pow *= 10` does. From 10^64 on they wrap to 0, so there is
      none when the search reaches 64 with `y` not below 0. */
  function ScaleExponent(y: Int64, j: nat): Option<nat>
    requires 1 <= j <= 64
    decreases 64 - j
  {
    if y < Wrap(Pow(10, j)) then Some(j)
    else if j == 64 then None
    else ScaleExponent(y, j + 1)
  }

  /** The `pow` the scale loop of `T` stops at, or `None` when it never stops. */
  function Scale(y: Int64): Option<Int64> {
    match ScaleExponent(y, 1)
    case Some(k) => Some(Wrap(Pow(10, k)))
    case None => None
  }

  lemma {:induction false} PowMul(a: int, b: int, k: nat)
    ensures Pow(a * b, k) == Pow(a, k) * Pow(b, k)
  {
    if k > 0 {
      PowMul(a, b, k - 1);
      Interchange(a, b, Pow(a, k - 1), Pow(b, k - 1));
    }
  }

  lemma Interchange(a: int, b: int, c: int, d: int)
    ensures (a * b) * (c * d) == (a * c) * (b * d)
  {
  }

  lemma TwoTo64()
    ensures Pow(2, 64) == TWO_64
  {
    assert Pow(2, 8) == 256;
    PowAdd(2, 8, 8);
    PowAdd(2, 16, 16);
    PowAdd(2, 32, 32);
  }

  /** 10^k is a multiple of 2^64 from k = 64 on, so it wraps to 0. */
  lemma PowTenWraps(k: nat)
    requires k >= 64
    ensures Wrap(Pow(10, k)) == 0
  {
    TwoTo64();
    PowAdd(2, 64, k - 64);
    PowMul(2, 5, k);
    var m := Pow(2, k - 64) * Pow(5, k);
    assert Pow(10, k) == 0 + m * TWO_64;
    WrapShift(0, m);
  }

  /** `ScaleExponent` finds the least exponent from `j` on whose wrapped
      power of ten exceeds `y`, and finds none exactly when every wrapped
      power from `j` on is at most `y`: then the loop of `T` never ends. */
  lemma {:induction false} ScaleExponentSpec(y: Int64, j: nat)
    requires 1 <= j <= 64
    ensures var r := ScaleExponent(y, j);
      && (r.Some? ==>
            && j <= r.value <= 64 && y < Wrap(Pow(10, r.value))
            && forall m :: j <= m < r.value ==> y >= Wrap(Pow(10, m)))
      && (r.None? ==> forall m :: m >= j ==> y >= Wrap(Pow(10, m)))
    decreases 64 - j
  {
    if y >= Wrap(Pow(10, j)) {
      if j == 64 {
        PowTenWraps(64);
        forall m | m >= j ensures y >= Wrap(Pow(10, m)) {
          PowTenWraps(m);
        }
      } else {
        ScaleExponentSpec(y, j + 1);
      }
    }
  }

  /** The decimal width of `y` for a `y` below 10^18, where no power of ten
      up to the scale wraps: there `T` computes `x * 10^w + y`. */
  const JOIN_LIMIT: int := 1_000_000_000_000_000_000

  lemma ScaleBelowLimit(y: Int64)
    requires y < JOIN_LIMIT
    ensures Scale(y) == Some(Pow(10, DecimalWidth(y)))
  {
    assert Pow(10, 18) == JOIN_LIMIT by {
      assert Pow(10, 6) == 1_000_000;
      PowAdd(10, 6, 6);
      PowAdd(10, 12, 6);
    }
    DecimalWidthBounds(y);
    var w := DecimalWidth(y);
    if w > 18 {
      PowMonotone(10, 18, w - 1);
    }
    ScaleFound(y, 1, w);
    PowMonotone(10, w, 18);
  }

  /** Up to 10^18 no power of ten wraps, so the search from `j` stops at
      the first power of ten above `y`. */
  lemma {:induction false} ScaleFound(y: Int64, j: nat, w: nat)
    requires 1 <= j <= w <= 18 && Pow(10, 18) == JOIN_LIMIT
    requires y < Pow(10, w) && (j < w ==> Pow(10, w - 1) <= y)
    ensures ScaleExponent(y, j) == Some(w)
    decreases w - j
  {
    PowMonotone(10, j, 18);
    assert Wrap(Pow(10, j)) == Pow(10, j);
    if j < w {
      PowMonotone(10, j, w - 1);
      ScaleFound(y, j + 1, w);
    }
  }

  /** The loop of the `T` opcode: `pow` runs from 10 through the powers of
      ten, each product wrapped to 64 bits, until it exceeds `y`. Once `pow`
      has wrapped to 0 with `y` not below it, the loop would run forever:
      the method reports that as `None`. */
  method JoinScale(y: Int64) returns (r: Option<Int64>)
    ensures r == Scale(y)
  {
    var pow: Int64 := 10;
    ghost var j := 1;
    PowTenWraps(64);
    while y >= pow && pow != 0
      invariant 1 <= j <= 64 && pow == Wrap(Pow(10, j))
      invariant ScaleExponent(y, 1) == ScaleExponent(y, j)
      decreases 64 - j
    {
      WrapMul(Pow(10, j), 10);
      pow := Wrap(pow * 10);
      j := j + 1;
    }
    if y < pow {
      r := Some(pow);
    } else {
      ScaleStuck(y, j);
      r := None;
    }
  }

  /** Once the wrapped power of ten is 0 and `y` is not below it, it stays 0. */
  lemma {:induction false} ScaleStuck(y: Int64, j: nat)
    requires 1 <= j <= 64 && Wrap(Pow(10, j)) == 0 && y >= 0
    ensures ScaleExponent(y, j) == None
    decreases 64 - j
  {
    if j < 64 {
      WrapMul(Pow(10, j), 10);
      assert Pow(10, j + 1) == Pow(10, j) * 10;
      ScaleStuck(y, j + 1);
    }
  }

  // ---------------------------------------------------------------------
  // char_to_in_digit
  // ---------------------------------------------------------------------

  const ALPHABET: string := "0123456789abcdefghijklmnopqrstuvwxyz"

  /** `char_to_in_digit`: the value of an input digit, `0`-`9` then `a`-`z`. */
  function CharToInDigit(c: int): (d: int)
    ensures '0' as int <= c <= '9' as int ==> 0 <= d <= 9
    ensures 'a' as int <= c <= 'z' as int ==> 10 <= d <= 35
  {
    if c <= '9' as int then c - '0' as int else c - ALPHABET[10] as int + 10
  }

  /** `char_to_in_digit` inverts the digit alphabet used for output. */
  lemma AlphabetRoundTrip(d: nat)
    requires d < |ALPHABET|
    ensures CharToInDigit(ALPHABET[d] as int) == d
  {
    if d < 10 {
      assert ALPHABET[d] as int == '0' as int + d;
    } else {
      assert ALPHABET[d] as int == 'a' as int + (d - 10);
    }
  }
}
