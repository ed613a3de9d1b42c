/** Fixed-width machine integers as OML's C code uses them: `int64_t` stack
    values, `int` for the two numeral bases, `size_t` for the sub-stack depth,
    and `char` bytes of the program text. */
module Int64s {

  const TWO_64: int := 0x1_0000_0000_0000_0000
  const TWO_32: int := 0x1_0000_0000
  const MIN_64: int := -0x8000_0000_0000_0000
  const MAX_64: int := 0x7fff_ffff_ffff_ffff

  /** A signed 64-bit value (`int64_t`). */
  type Int64 = x: int | MIN_64 <= x <= MAX_64

  /** A signed 32-bit value (`int`). */
  type Int32 = x: int | -0x8000_0000 <= x <= 0x7fff_ffff

  /** An unsigned 64-bit value (`size_t`). */
  type U64 = x: int | 0 <= x < TWO_64

  /** One byte of program text: a `char` whose code is below 256. */
  type Byte = c: char | c as int < 256 witness '\0'

  /** Two's-complement wrap-around of an exact result into 64 bits. */
  function Wrap(x: int): (r: Int64)
    ensures (r - x) % TWO_64 == 0
    ensures MIN_64 <= x <= MAX_64 ==> r == x
  {
    var m := x % TWO_64;
    if m <= MAX_64 then m else m - TWO_64
  }

  /** Conversion of an `int64_t` to a 32-bit `int`: keep the low 32 bits. */
  function Trunc32(x: Int64): (r: Int32)
    ensures (r - x) % TWO_32 == 0
    ensures -0x8000_0000 <= x <= 0x7fff_ffff ==> r == x
  {
    var m := x % TWO_32;
    if m <= 0x7fff_ffff then m else m - TWO_32
  }

  /** `size_t` arithmetic modulo 2^64. */
  function WrapU64(x: int): (r: U64)
    ensures (r - x) % TWO_64 == 0
  {
    x % TWO_64
  }

  /** Value of a byte read through a (signed) `char`. */
  function SignedChar(c: Byte): (r: Int64)
    ensures -128 <= r < 128
    ensures (r - c as int) % 256 == 0
  {
    if c as int < 128 then c as int else c as int - 256
  }

  function Abs(x: int): nat { if x < 0 then -x else x }

  /** C's `/`: the quotient truncated toward zero. */
  function CDiv(a: int, b: int): (q: int)
    requires b != 0
    ensures Abs(a - b * q) < Abs(b)
    ensures a - b * q == 0 || ((a - b * q < 0) <==> (a < 0))
  {
    var q0 := Abs(a) / Abs(b);
    TruncatedDivision(a, b, q0, Abs(a) % Abs(b));
    if (a < 0) == (b < 0) then q0 else -q0
  }

  /** The Euclidean quotient of the magnitudes, given the dividend's sign,
      leaves a remainder of the dividend's sign. */
  lemma TruncatedDivision(a: int, b: int, q0: int, r0: int)
    requires b != 0 && Abs(a) == Abs(b) * q0 + r0 && 0 <= r0 < Abs(b)
    ensures var q := if (a < 0) == (b < 0) then q0 else -q0;
      a - b * q == (if a < 0 then -r0 else r0)
  {
    if a < 0 && b < 0 {
      assert b * q0 == -(Abs(b) * q0);
    } else if a < 0 {
      assert b * -q0 == -(Abs(b) * q0);
    } else if b < 0 {
      assert b * -q0 == Abs(b) * q0;
    }
  }

  /** The truncated quotient of two 64-bit values fits in 64 bits, except
      for MIN / -1, whose exact value is 2^63. */
  lemma CDivFits(a: Int64, b: Int64)
    requires b != 0 && !(a == MIN_64 && b == -1)
    ensures MIN_64 <= CDiv(a, b) <= MAX_64
  {
    QuotientAtMost(Abs(a), Abs(b), Abs(a) / Abs(b), Abs(a) % Abs(b));
  }

  /** The Euclidean quotient of `n >= 0` by `d >= 1` is at most `n`, and at
      most half of it when `d >= 2`. */
  lemma QuotientAtMost(n: int, d: int, q: int, r: int)
    requires n >= 0 && d >= 1 && n == d * q + r && 0 <= r < d
    ensures 0 <= q <= n && (d == 1 ==> q == n) && (d >= 2 ==> 2 * q <= n)
  {
    NegativeMultiple(d, q);
    if d >= 2 {
      assert d * q == 2 * q + (d - 2) * q;
    }
  }

  /** C's `%`: the remainder that goes with `CDiv`; it takes the dividend's sign. */
  function CMod(a: int, b: int): (r: int)
    requires b != 0
    ensures a == b * CDiv(a, b) + r
    ensures Abs(r) < Abs(b)
  {
    a - b * CDiv(a, b)
  }

  /** The bit pattern of a signed 64-bit value. */
  function Bits(x: Int64): bv64 {
    (if x < 0 then x + TWO_64 else x) as bv64
  }

  lemma NegativeMultiple(d: int, q: int)
    requires d >= 1
    ensures q <= -1 ==> d * q <= -d
  {
    if q <= -1 {
      assert d * q == -(d * -q);
      assert d * -q >= d;
    }
  }

  /** `a / b` on `int64_t` operands the C division is defined for. */
  function Div64(a: Int64, b: Int64): (q: Int64)
    requires b != 0 && !(a == MIN_64 && b == -1)
    ensures q == CDiv(a, b)
  {
    CDivFits(a, b);
    CDiv(a, b)
  }

  /** `a % b` on `int64_t` operands the C remainder is defined for. */
  function Mod64(a: Int64, b: Int64): (r: Int64)
    requires b != 0
    ensures r == CMod(a, b)
  {
    CMod(a, b)
  }

  /** The signed value of a 64-bit pattern. */
  function FromBits(w: bv64): Int64 {
    Wrap(w as int)
  }

  function And(a: Int64, b: Int64): Int64 { FromBits(Bits(a) & Bits(b)) }
  function Or(a: Int64, b: Int64): Int64 { FromBits(Bits(a) | Bits(b)) }
  function Xor(a: Int64, b: Int64): Int64 { FromBits(Bits(a) ^ Bits(b)) }
  function Not(a: Int64): Int64 { FromBits(!Bits(a)) }

  /** `n ^ (1ull << k)` for a shift count the C shift defines (0..63). */
  function FlipBit(n: Int64, k: int): Int64
    requires 0 <= k < 64
  {
    FromBits(Bits(n) ^ ((1 as bv64) << (k as nat)))
  }

  /** `!a`, and the 0/1 value of a C comparison. */
  function BoolValue(b: bool): (r: Int64)
    ensures r == 1 <==> b
    ensures r == 0 <==> !b
  {
    if b then 1 else 0
  }
}
