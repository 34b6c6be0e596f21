/** JavaScript's remainder operator `%` on integral numbers.

    JavaScript truncates the quotient toward zero, so the remainder takes the
    sign of the dividend (`-1 % 9` is `-1`). Dafny's `%` is Euclidean (the
    remainder is never negative). This module models the JavaScript operator
    for a positive divisor and proves where the two agree.
 */
module JsRemainder {

  /** `a % n` as JavaScript evaluates it, for a positive divisor `n`. */
  function Rem(a: int, n: int): (r: int)
    requires n > 0
    ensures -n < r < n
    ensures a >= 0 ==> 0 <= r
    ensures a <= 0 ==> r <= 0
    ensures (a - r) % n == 0
    ensures a >= 0 ==> r == a % n
  {
    if a >= 0 then
      ModUnique(a - a % n, n, a / n, 0);
      a % n
    else
      ModUnique(a + (-a) % n, n, -((-a) / n), 0);
      -((-a) % n)
  }

  /** The remainder is determined by its bound, its sign and its congruence
      with the dividend: no other value meets all three. */
  lemma RemUnique(a: int, n: int, r: int)
    requires n > 0
    requires -n < r < n
    requires a >= 0 ==> 0 <= r
    requires a <= 0 ==> r <= 0
    requires (a - r) % n == 0
    ensures r == Rem(a, n)
  {
    var s := Rem(a, n);
    var q1, q2 := (a - r) / n, (a - s) / n;
    assert a - r == q1 * n;
    assert a - s == q2 * n;
    SmallMultipleIsZero(s - r, q1 - q2, n);
  }

  /** The only multiple of n strictly between -n and n is zero. */
  lemma SmallMultipleIsZero(d: int, q: int, n: int)
    requires n > 0
    requires d == q * n
    requires -n < d < n
    ensures d == 0
  {
    if q >= 1 {
      assert false;
    } else if q <= -1 {
      assert false;
    }
  }

  /** Euclidean remainder of a value that lies within one period of [0, n):
      the single correction that brings it back into range. */
  lemma ModNearRange(x: int, n: int)
    requires n > 0
    requires -n <= x < 2 * n
    ensures x % n == if x < 0 then x + n else if x >= n then x - n else x
  {
  }

  /** Euclidean division is determined by quotient and remainder. */
  lemma ModUnique(x: int, n: int, q: int, r: int)
    requires n > 0
    requires 0 <= r < n
    requires x == q * n + r
    ensures x % n == r
  {
    var q', r' := x / n, x % n;
    assert x == q' * n + r';
    assert (q - q') * n == r' - r;
    if q - q' >= 1 {
      assert false;
    } else if q - q' <= -1 {
      assert false;
    }
  }

  /** Adding one whole period does not change the position on it. */
  lemma ModAddPeriod(x: int, n: int)
    requires n > 0
    ensures (x + n) % n == x % n
  {
    ModUnique(x + n, n, x / n + 1, x % n);
  }

  /** One step past a value moves its Euclidean remainder one step round the
      ring of n residues. */
  lemma {:induction false} ModSucc(a: int, n: int)
    requires n > 0
    ensures (a + 1) % n == if a % n == n - 1 then 0 else a % n + 1
  {
    var q, r := a / n, a % n;
    assert a == q * n + r;
    if r == n - 1 {
      assert a + 1 == (q + 1) * n + 0;
      ModUnique(a + 1, n, q + 1, 0);
    } else {
      ModUnique(a + 1, n, q, r + 1);
    }
  }

  /** On a negative dividend the two operators differ: JavaScript gives -1
      where the Euclidean remainder is n - 1. This is why a decrement must add
      n before taking the remainder. */
  lemma RemDiffersFromModOnNegative(n: int)
    requires n >= 2
    ensures Rem(-1, n) == -1
    ensures (-1) % n == n - 1
  {
  }
}
