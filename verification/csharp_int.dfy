/** The integer semantics of the C# runtime the engine runs on: fixed-width ranges,
    unchecked wrap-around of `int`/`long`/`uint`/`ulong` arithmetic and casts, and the
    remainder operator `%`, which truncates toward zero (unlike Dafny's Euclidean `%`). */
module CSharpInt {

  const INT32_MIN: int := -0x8000_0000
  const INT32_MAX: int := 0x7FFF_FFFF
  const INT64_MIN: int := -0x8000_0000_0000_0000
  const INT64_MAX: int := 0x7FFF_FFFF_FFFF_FFFF
  const TWO_32: int := 0x1_0000_0000
  const TWO_64: int := 0x1_0000_0000_0000_0000

  type int32 = x: int | -0x8000_0000 <= x <= 0x7FFF_FFFF
  type int64 = x: int | -0x8000_0000_0000_0000 <= x <= 0x7FFF_FFFF_FFFF_FFFF
  type uint32 = x: int | 0 <= x < 0x1_0000_0000
  type uint64 = x: int | 0 <= x < 0x1_0000_0000_0000_0000

  /** Unchecked `int` arithmetic: the int32 congruent to `x` modulo 2^32. */
  function WrapInt32(x: int): (r: int32)
    ensures INT32_MIN <= x <= INT32_MAX ==> r == x
    ensures INT32_MAX < x < INT32_MAX + TWO_32 ==> r == x - TWO_32
    ensures (x - r) % TWO_32 == 0
  {
    (x - INT32_MIN) % TWO_32 + INT32_MIN
  }

  /** Unchecked `long` arithmetic: the int64 congruent to `x` modulo 2^64. */
  function WrapInt64(x: int): (r: int64)
    ensures INT64_MIN <= x <= INT64_MAX ==> r == x
    ensures (x - r) % TWO_64 == 0
  {
    (x - INT64_MIN) % TWO_64 + INT64_MIN
  }

  /** Unchecked `(uint)` cast or `uint` arithmetic: the uint32 congruent to `x` modulo 2^32. */
  function ToUInt32(x: int): (r: uint32)
    ensures 0 <= x < TWO_32 ==> r == x
    ensures (x - r) % TWO_32 == 0
  {
    x % TWO_32
  }

  /** Unchecked `(ulong)` cast or `ulong` arithmetic: the uint64 congruent to `x` modulo 2^64. */
  function ToUInt64(x: int): (r: uint64)
    ensures 0 <= x < TWO_64 ==> r == x
    ensures (x - r) % TWO_64 == 0
  {
    x % TWO_64
  }

  /** C#'s `a % b` for a positive divisor: the remainder of division truncated toward
      zero, so it carries the sign of the dividend. */
  function Rem(a: int, b: int): (r: int)
    requires b > 0
    ensures -b < r < b
    ensures a >= 0 ==> 0 <= r
    ensures a <= 0 ==> r <= 0
    ensures (a - r) % b == 0
    ensures a >= 0 ==> r == a % b
  {
    if a >= 0 then
      MultipleModZero(a / b, b);
      a % b
    else
      NegativeRemainder(a, b);
      -((-a) % b)
  }

  /** The truncated remainder of a negative dividend is congruent to it. */
  lemma NegativeRemainder(a: int, b: int)
    requires b > 0
    requires a < 0
    ensures (a + (-a) % b) % b == 0
  {
    var n := -a;
    var q, m := n / b, n % b;
    assert n == q * b + m;
    var k := -q;
    assert k * b == -(q * b);
    assert a + m == k * b;
    MultipleModZero(k, b);
  }

  /** The only multiple of `b` strictly between `-b` and `b` is zero. */
  lemma SmallMultipleIsZero(d: int, b: int)
    requires b > 0
    requires -b < d * b < b
    ensures d == 0
  {
    if d >= 1 {
      MulBounds(1, b, d, b);
    } else if d <= -1 {
      MulBounds(1, b, -d, b);
    }
  }

  /** Every multiple of `b` leaves remainder zero. */
  lemma MultipleModZero(k: int, b: int)
    requires b > 0
    ensures (k * b) % b == 0
  {
    var q, m := (k * b) / b, (k * b) % b;
    assert k * b == q * b + m;
    assert (k - q) * b == m;
    SmallMultipleIsZero(k - q, b);
  }

  /** A value in `[0, b)` congruent to `a` is Dafny's (Euclidean) `a % b`. */
  lemma ModUnique(a: int, b: int, r: int)
    requires b > 0
    requires 0 <= r < b
    requires (a - r) % b == 0
    ensures r == a % b
  {
    var q := (a - r) / b;
    assert a - r == q * b + 0;
    var q', m := a / b, a % b;
    assert a == q' * b + m;
    assert (q - q') * b == m - r;
    SmallMultipleIsZero(q - q', b);
  }

  /** Strict monotonicity of a product in its first factor. */
  lemma MulStrict(a: int, b: int, c: int)
    requires 0 <= a < b
    requires c > 0
    ensures a * c < b * c
  {
  }

  /** A product of two bounded non-negative numbers is bounded by the product of the bounds. */
  lemma MulBounds(a: int, b: int, x: int, y: int)
    requires 0 <= a <= x
    requires 0 <= b <= y
    ensures 0 <= a * b <= x * y
  {
    assert a * b <= x * b;
    assert x * b <= x * y;
  }

  /** A value in `[0, 2m)` reduces by at most one subtraction of `m`. */
  lemma ModOfShortRange(x: int, m: int)
    requires m > 0
    requires 0 <= x < 2 * m
    ensures x % m == if x < m then x else x - m
  {
    if x >= m {
      assert x - m == x % m by {
        assert (x - (x - m)) % m == 0 by {
          MultipleModZero(1, m);
        }
        ModUnique(x, m, x - m);
      }
    }
  }
}
