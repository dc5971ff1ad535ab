/** The parts of C's `int` arithmetic that `make_frame` relies on:
    the 32-bit range (signed overflow is undefined behaviour, so the model
    checks every step instead of wrapping) and `/`, `%`, which truncate
    toward zero rather than rounding down as Dafny's operators do. */
module CInt {

  /** The range of C's 32-bit `int`. */
  const IntMin: int := -0x8000_0000
  const IntMax: int := 0x7fff_ffff

  newtype int32 = x: int | IntMin <= x <= IntMax

  predicate InInt32(x: int) {
    IntMin <= x <= IntMax
  }

  function Abs(x: int): int {
    if x < 0 then -x else x
  }

  /** C's `a / b`: the quotient truncated toward zero (section 6.5.5 of ISO C99). */
  function Quot(a: int, b: int): (q: int)
    requires b != 0
    ensures a >= 0 ==> 0 <= a - q * b < Abs(b)
    ensures a < 0 ==> -Abs(b) < a - q * b <= 0
  {
    if a >= 0 then
      (if b > 0 then a / b else -(a / -b))
    else
      (if b > 0 then -((-a) / b) else (-a) / (-b))
  }

  /** C's `a % b`: what is left after the truncated quotient, so that
      `(a / b) * b + a % b == a` and the remainder has the sign of `a`. */
  function Rem(a: int, b: int): (r: int)
    requires b != 0
    ensures Quot(a, b) * b + r == a
    ensures Abs(r) < Abs(b)
    ensures a >= 0 ==> r >= 0
    ensures a <= 0 ==> r <= 0
  {
    a - Quot(a, b) * b
  }

  /** Euclidean division is determined by its defining equation. */
  lemma DivModUnique(i: int, d: int, q: int, r: int)
    requires d > 0 && 0 <= r < d && i == q * d + r
    ensures i / d == q && i % d == r
  {
    var q', r' := i / d, i % d;
    assert i == q' * d + r';
    MulGap(q', q, d, r, r');
  }

  /** Two multiples of `d` closer than `d` to each other are equal. */
  lemma MulGap(q': int, q: int, d: int, r: int, r': int)
    requires d > 0 && 0 <= r < d && 0 <= r' < d
    requires q' * d + r' == q * d + r
    ensures q' == q && r' == r
  {
    var k := q' - q;
    assert k * d == r - r' by {
      assert q' * d - q * d == (q' - q) * d;
    }
  }

  /** Multiplying by a non-negative factor keeps the order. */
  lemma MulMonotone(a: int, b: int, m: int)
    requires a <= b && m >= 0
    ensures a * m <= b * m
  {
    assert b * m - a * m == (b - a) * m;
  }

  /** For a non-negative dividend and a positive divisor C and Dafny agree. */
  lemma QuotRemNonNegative(a: int, b: int)
    requires a >= 0 && b > 0
    ensures Quot(a, b) == a / b && Rem(a, b) == a % b
  {
  }
}
