/**
 * Java's 32-bit `int` and the two operations the hash table applies to hash
 * codes: the remainder operator `%`, which truncates toward zero, and
 * `Math.abs`, which leaves `Integer.MIN_VALUE` unchanged because its negation
 * overflows.
 */
module JavaInt {
  const MIN_VALUE: int := -0x8000_0000
  const MAX_VALUE: int := 0x7fff_ffff

  type Int32 = x: int | MIN_VALUE <= x <= MAX_VALUE

  /** The mathematical absolute value (no overflow). */
  function Abs(x: int): nat { if x < 0 then -x else x }

  /** Java's `a % b`: the remainder's sign is the dividend's, its magnitude |a| mod |b|. */
  function Rem(a: Int32, b: Int32): (r: Int32)
    requires b != 0
    ensures Abs(r) == Abs(a) % Abs(b) < Abs(b)
    ensures r == 0 || (r < 0 <==> a < 0)
  {
    var m := Abs(a) % Abs(b);
    if a < 0 then -m else m
  }

  /** Java's narrowing of an exact result to `int`: wrap-around modulo 2^32. */
  function Wrap(x: int): (r: Int32)
    ensures MIN_VALUE <= x <= MAX_VALUE ==> r == x
    ensures (r - x) % 0x1_0000_0000 == 0
  {
    (x - MIN_VALUE) % 0x1_0000_0000 + MIN_VALUE
  }

  /**
   * Java's `Math.abs(int)`: the negation of a negative argument, computed in
   * 32 bits, so the negation of `MIN_VALUE` wraps back to `MIN_VALUE`.
   */
  function MathAbs(x: Int32): (r: Int32)
    ensures x != MIN_VALUE ==> r == Abs(x)
    ensures x == MIN_VALUE ==> r == MIN_VALUE
  {
    if x < 0 then Wrap(-(x as int)) else x
  }
}
