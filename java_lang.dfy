/**
 * The parts of the Java platform that the argument wrapper relies on:
 * optional values standing in for `null`, results standing in for thrown
 * exceptions, the bounded integer types, and two pieces of Java integer
 * arithmetic that differ from Dafny's (truncating division and 32-bit
 * wrap-around).
 */
module JavaLang {

  /** `None` stands for a `null` reference. */
  datatype Option<+T> = None | Some(value: T)

  /** A call either returns a value or throws an exception. */
  datatype Result<+T, +E> = Ok(value: T) | Err(error: E)

  /** The exceptions the modelled code can throw. */
  datatype Exception =
    | IllegalArgument           // java.lang.IllegalArgumentException
    | NullPointer               // java.lang.NullPointerException
    | NumberFormat              // java.lang.NumberFormatException
    | StringIndexOutOfBounds    // java.lang.StringIndexOutOfBoundsException

  const SHORT_MIN: int := -0x8000
  const SHORT_MAX: int := 0x7fff
  const INT_MIN: int := -0x8000_0000
  const INT_MAX: int := 0x7fff_ffff
  const LONG_MIN: int := -0x8000_0000_0000_0000
  const LONG_MAX: int := 0x7fff_ffff_ffff_ffff

  type int16 = x: int | SHORT_MIN <= x <= SHORT_MAX
  type int32 = x: int | INT_MIN <= x <= INT_MAX
  type int64 = x: int | LONG_MIN <= x <= LONG_MAX

  function Abs(x: int): nat { if x < 0 then -x else x }

  /** Java's `a / b` on integers, which rounds toward zero. */
  function Quot(a: int, b: int): int
    requires b != 0
  {
    var n := Abs(a) / Abs(b);
    if (a < 0) == (b < 0) then n else -n
  }

  /**
   * `Quot` rounds toward zero: `q * b` lies between zero and `a`, less than
   * `|b|` away from `a`, which determines `q` uniquely.
   */
  lemma QuotRoundsTowardZero(a: int, b: int)
    requires b != 0
    ensures var q := Quot(a, b);
            && (0 <= a ==> 0 <= q * b <= a && a - q * b < Abs(b))
            && (a < 0 ==> a <= q * b <= 0 && q * b - a < Abs(b))
  {
    var n := Abs(a) / Abs(b);
    QuotientBounds(Abs(a), Abs(b));
    SignedProduct(n, b);
  }

  /** Euclidean division of naturals: `n * d` is at most `m` and within `d` of it. */
  lemma QuotientBounds(m: nat, d: nat)
    requires d > 0
    ensures 0 <= (m / d) * d <= m < (m / d) * d + d
  {
    var n, r := m / d, m % d;
    assert m == n * d + r && 0 <= r < d;
  }

  /** `n * b` and `-n * b` expressed through `n * |b|`. */
  lemma SignedProduct(n: int, b: int)
    ensures n * b == (if b < 0 then -(n * Abs(b)) else n * Abs(b))
    ensures -n * b == -(n * b)
  {
  }

  /** Reduces `x` into the `int` range the way Java's 32-bit arithmetic does. */
  function Wrap32(x: int): (r: int32)
    ensures (r - x) % 0x1_0000_0000 == 0
    ensures INT_MIN <= x <= INT_MAX ==> r == x
  {
    (x - INT_MIN) % 0x1_0000_0000 + INT_MIN
  }

  /** Values that differ by a multiple of 2^32 wrap to the same `int`. */
  lemma WrapCongruent(x: int, y: int, k: int)
    requires x - y == k * 0x1_0000_0000
    ensures Wrap32(x) == Wrap32(y)
  {
  }
}
