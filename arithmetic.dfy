/** Facts about Euclidean division and remainder used by the window index proofs. */
module Arithmetic {

  /** A positive multiple of a natural number m is at least m. */
  lemma {:induction false} MulAtLeast(d: int, m: nat)
    requires d >= 1
    ensures d * m >= m
    decreases d
  {
    if d > 1 {
      MulAtLeast(d - 1, m);
      assert d * m == (d - 1) * m + m;
    }
  }

  /** The remainder of Euclidean division is the unique r in [0, m) with a = q * m + r. */
  lemma ModUnique(a: int, m: int, q: int, r: int)
    requires m > 0 && 0 <= r < m && a == q * m + r
    ensures a % m == r
  {
    var q0, r0 := a / m, a % m;
    assert a == q0 * m + r0;
    var d := q - q0;
    assert d * m == r0 - r;
    if d >= 1 {
      MulAtLeast(d, m);
    } else if d <= -1 {
      MulAtLeast(-d, m);
    }
  }

  /** Adding the modulus does not change the remainder. */
  lemma ModShift(x: nat, m: nat)
    requires m > 0
    ensures (x + m) % m == x % m
  {
    var q, r := x / m, x % m;
    assert x + m == (q + 1) * m + r;
    ModUnique(x + m, m, q + 1, r);
  }

  /** Taking the remainder first does not change the remainder of a sum. */
  lemma ModOfSum(i: nat, k: nat, m: nat)
    requires m > 0
    ensures (i + k % m) % m == (i + k) % m
  {
    var q, r := k / m, k % m;
    var q1, r1 := (i + r) / m, (i + r) % m;
    assert i + r == q1 * m + r1;
    assert i + k == (q + q1) * m + r1;
    ModUnique(i + k, m, q + q1, r1);
  }
}
