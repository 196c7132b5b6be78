/** C++ integer semantics the player relies on: division that truncates toward
    zero, and narrowing conversions to 16- and 32-bit signed integers (which
    keep the value modulo 2^16 or 2^32). */
module CInt {

  const Int16Min: int := -32768
  const Int16Max: int := 32767

  predicate IsInt16(x: int)
  {
    Int16Min <= x <= Int16Max
  }

  /** `a / b` in C++ for a positive divisor: the quotient truncated toward zero. */
  function TruncDiv(a: int, b: int): (q: int)
    requires b > 0
    ensures a >= 0 ==> q >= 0 && q * b <= a < q * b + b
    ensures a < 0 ==> q <= 0 && q * b - b < a <= q * b
  {
    if a >= 0 then
      DivBounds(a, b);
      a / b
    else
      DivBounds(-a, b);
      -((-a) / b)
  }

  /** Euclidean division of a natural by a positive divisor brackets it. */
  lemma DivBounds(a: int, b: int)
    requires a >= 0 && b > 0
    ensures a / b >= 0 && (a / b) * b <= a < (a / b) * b + b
    ensures (-(a / b)) * b == -((a / b) * b)
  {
  }

  /** Narrowing to `int16_t`: the value congruent to x modulo 2^16 in range. */
  function Wrap16(x: int): (r: int)
    ensures IsInt16(r)
    ensures (x - r) % 65536 == 0
    ensures IsInt16(x) ==> r == x
  {
    (x + 32768) % 65536 - 32768
  }

  /** Narrowing to a 32-bit `int`. */
  function Wrap32(x: int): (r: int)
    ensures -0x8000_0000 <= r < 0x8000_0000
    ensures (x - r) % 0x1_0000_0000 == 0
    ensures -0x8000_0000 <= x < 0x8000_0000 ==> r == x
  {
    (x + 0x8000_0000) % 0x1_0000_0000 - 0x8000_0000
  }

  /** Wrapping twice is wrapping once: an intermediate int16 store does not
      change a modular sum. */
  lemma Wrap16Add(a: int, b: int)
    ensures Wrap16(Wrap16(a) + b) == Wrap16(a + b)
  {
    var k := (a - Wrap16(a)) / 65536;
    assert a - Wrap16(a) == 65536 * k;
    ModShift(a + b + 32768, -k);
  }

  /** Subtracting a multiple of the modulus does not change a remainder. */
  lemma ModShift(x: int, k: int)
    ensures (x + 65536 * k) % 65536 == x % 65536
  {
    var m := x / 65536;
    var t := x % 65536;
    assert x + 65536 * k == 65536 * (m + k) + t;
    DivModUnique(x + 65536 * k, m + k, t);
  }

  lemma DivModUnique(x: int, m: int, t: int)
    requires 0 <= t < 65536 && x == 65536 * m + t
    ensures x % 65536 == t
  {
  }

  /** Truncating a share of an int16 value by a positive count stays in int16,
      so the source's `(int16_t)` cast of such a share never changes it. */
  lemma ShareIsInt16(v: int, q: int)
    requires IsInt16(v) && q >= 1
    ensures IsInt16(TruncDiv(v, q))
  {
  }

  /** `(int16_t)x` of a value already clamped to the int16 range, where x is a
      real number: truncation toward zero. */
  function TruncReal(x: real): (r: int)
    ensures x >= 0.0 ==> r as real <= x < r as real + 1.0
    ensures x < 0.0 ==> r as real - 1.0 < x <= r as real
  {
    if x >= 0.0 then x.Floor else -((-x).Floor)
  }
}
