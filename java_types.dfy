/**
 * The parts of Java's `int` arithmetic and of `java.lang.Math` that the modelled
 * code relies on: 32-bit two's-complement wrap-around, division that truncates
 * toward zero, `Math.max`/`Math.min`, and an Option type standing for a
 * nullable reference.
 */
module JavaTypes {

  /** Integer.MAX_VALUE and Integer.MIN_VALUE */
  const INT_MAX: int := 0x7FFF_FFFF
  const INT_MIN: int := -0x8000_0000
  const TWO_32: int := 0x1_0000_0000

  predicate InInt32(x: int) {
    INT_MIN <= x <= INT_MAX
  }

  /** A value of Java's `int` type. */
  type int32 = x: int | InInt32(x)

  /** A nullable reference: `None` is Java's `null`. */
  datatype Option<T> = None | Some(value: T)

  /**
   * The `int` that a Java operation yields when its exact result is `x`:
   * `x` itself when it fits, otherwise `x` reduced modulo 2^32 into the `int` range.
   */
  function Wrap32(x: int): (r: int32)
    ensures InInt32(x) ==> r == x
    ensures (x - r) % TWO_32 == 0
  {
    (x - INT_MIN) % TWO_32 + INT_MIN
  }

  /** Two numbers that differ by a multiple of 2^32 wrap to the same `int`. */
  lemma WrapCongruent(x: int, y: int, k: int)
    requires x == y + k * TWO_32
    ensures Wrap32(x) == Wrap32(y)
  {
    var q := (y - INT_MIN) / TWO_32;
    var r := (y - INT_MIN) % TWO_32;
    assert x - INT_MIN == (q + k) * TWO_32 + r;
    assert (x - INT_MIN) % TWO_32 == r;
  }

  /** Wrapping an intermediate result first does not change the final `int`. */
  lemma WrapAdd(a: int, b: int)
    ensures Wrap32(Wrap32(a) + b) == Wrap32(a + b)
  {
    var k := (a - INT_MIN) / TWO_32;
    assert Wrap32(a) == a - k * TWO_32;
    WrapCongruent(a + b, Wrap32(a) + b, k);
  }

  /** The same for a product: only the exact result modulo 2^32 matters. */
  lemma WrapMul(a: int, b: int)
    ensures Wrap32(Wrap32(a) * b) == Wrap32(a * b)
  {
    var k := (a - INT_MIN) / TWO_32;
    assert Wrap32(a) == a - k * TWO_32;
    assert a * b == Wrap32(a) * b + (k * b) * TWO_32;
    WrapCongruent(a * b, Wrap32(a) * b, k * b);
  }

  /** Java's `a / b` for a positive divisor: the quotient is truncated toward zero. */
  function JavaDiv(a: int, b: int): (q: int)
    requires b > 0
    ensures a >= 0 ==> 0 <= a - b * q < b
    ensures a < 0 ==> -b < a - b * q <= 0
  {
    if a >= 0 then a / b else -((-a) / b)
  }

  /** Math.max and Math.min */
  function Max(a: int, b: int): int {
    if a >= b then a else b
  }

  function Min(a: int, b: int): int {
    if a <= b then a else b
  }
}
