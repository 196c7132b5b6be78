/** Bitwise arithmetic on naturals, as used by the ring queue to turn a cursor
    into a slot index (`cursor & MASK`) and by its compile-time size checks. */
module Bits {

  /** Bitwise AND of two naturals, computed from the least significant bit up. */
  function BitAnd(a: nat, b: nat): nat
    decreases a
  {
    if a == 0 || b == 0 then 0
    else 2 * BitAnd(a / 2, b / 2) + (a % 2) * (b % 2)
  }

  /** n is 1, 2, 4, 8, ... */
  predicate IsPow2(n: nat)
    decreases n
  {
    n == 1 || (n >= 2 && n % 2 == 0 && IsPow2(n / 2))
  }

  /** If c == d * m + t with 0 <= t < d, then t is the remainder of c by d. */
  lemma ModOfDecomposition(c: int, d: int, m: int, t: int)
    requires d > 0 && 0 <= t < d && c == d * m + t
    ensures c % d == t && c / d == m
  {
    var k := c / d - m;
    assert d * k == t - c % d;
    MulAwayFromZero(d, k);
  }

  /** A positive factor keeps a nonzero integer at least that far from zero. */
  lemma MulAwayFromZero(d: int, k: int)
    requires d > 0
    ensures k >= 1 ==> d * k >= d
    ensures k <= -1 ==> d * k <= -d
  {
  }

  /** For a power of two `size`, masking with `size - 1` keeps the low bits:
      `c & (size - 1) == c % size`. */
  lemma {:induction false} MaskIsMod(c: nat, size: nat)
    requires IsPow2(size)
    ensures BitAnd(c, size - 1) == c % size
    decreases size
  {
    if size == 1 {
    } else if c == 0 {
    } else {
      var h := size / 2;
      MaskIsMod(c / 2, h);
      BitAndOddMask(c, h - 1);
      HalveDecomposition(c, h);
    }
  }

  /** Masking with an odd mask 2k+1 keeps the lowest bit and masks the rest
      with k. */
  lemma BitAndOddMask(c: nat, k: nat)
    requires c > 0
    ensures BitAnd(c, 2 * k + 1) == 2 * BitAnd(c / 2, k) + c % 2
  {
    assert (2 * k + 1) / 2 == k && (2 * k + 1) % 2 == 1;
  }

  /** The remainder by 2h is built from the remainder of c / 2 by h and the
      lowest bit of c. */
  lemma HalveDecomposition(c: nat, h: nat)
    requires h >= 1
    ensures c % (2 * h) == 2 * ((c / 2) % h) + c % 2
  {
    var c2, b := c / 2, c % 2;
    var m, r := c2 / h, c2 % h;
    assert c == 2 * c2 + b;
    assert c2 == h * m + r;
    assert 2 * (h * m) == (2 * h) * m;
    assert c == (2 * h) * m + (2 * r + b);
    ModOfDecomposition(c, 2 * h, m, 2 * r + b);
  }

  /** Every natural ANDed with itself is unchanged. */
  lemma {:induction false} BitAndSelf(a: nat)
    ensures BitAnd(a, a) == a
    decreases a
  {
    if a != 0 {
      BitAndSelf(a / 2);
      assert (a % 2) * (a % 2) == a % 2;
    }
  }

  /** The classic test `(n & (n - 1)) == 0` recognises exactly the powers of
      two among the positive naturals. */
  lemma {:induction false} PowerOfTwoTest(n: nat)
    requires n >= 1
    ensures BitAnd(n, n - 1) == 0 <==> IsPow2(n)
    decreases n
  {
    if n == 1 {
    } else if n % 2 == 1 {
      var m := n / 2;
      assert m >= 1;
      BitAndSelf(m);
      assert (n - 1) / 2 == m && (n - 1) % 2 == 0;
      assert BitAnd(n, n - 1) == 2 * m;
    } else {
      var m := n / 2;
      PowerOfTwoTest(m);
      assert (n - 1) / 2 == m - 1 && (n - 1) % 2 == 1;
      assert BitAnd(n, n - 1) == 2 * BitAnd(m, m - 1);
    }
  }
}
