/** Facts about Euclidean division by a positive number. */
module Arith {

  lemma ModShift(a: int, b: int, n: int)
    requires n >= 1
    ensures (a % n + b) % n == (a + b) % n
  {
    var q := a / n;
    assert a == q * n + a % n;
    assert a + b == (a % n + b) + q * n;
    ModMultiple(a % n + b, q, n);
  }

  lemma ModMultiple(x: int, q: int, n: int)
    requires n >= 1
    ensures (x + q * n) % n == x % n
  {
    var p := x / n;
    var r := x % n;
    assert x + q * n == (p + q) * n + r;
    ModUnique(x + q * n, p + q, r, n);
  }

  /** Euclidean division leaves a unique remainder. */
  lemma ModUnique(y: int, m: int, r: int, n: int)
    requires n >= 1 && 0 <= r < n && y == m * n + r
    ensures y % n == r
  {
    var m' := y / n;
    var r' := y % n;
    assert y == m' * n + r';
    var t := m' - m;
    MulDistributes(m', m, n);
    assert t * n == r - r';
    MulBounds(t, n);
  }

  lemma MulDistributes(a: int, b: int, n: int)
    ensures (a - b) * n == a * n - b * n
  {
  }

  /** A non-zero multiple of `n` is at least `n` away from zero. */
  lemma {:induction false} MulBounds(t: int, n: int)
    requires n >= 1
    ensures t >= 1 ==> t * n >= n
    ensures t <= -1 ==> t * n <= -n
    decreases if t < 0 then -t else t
  {
    if t > 1 {
      MulBounds(t - 1, n);
      MulDistributes(t, 1, n);
    } else if t < -1 {
      MulBounds(t + 1, n);
      MulDistributes(t, -1, n);
    }
  }

  /** Euclidean division has a unique quotient. */
  lemma DivUnique(y: int, m: int, r: int, n: int)
    requires n >= 1 && 0 <= r < n && y == m * n + r
    ensures y / n == m
  {
    ModUnique(y, m, r, n);
    assert y == (y / n) * n + y % n;
    MulDistributes(y / n, m, n);
    MulBounds(y / n - m, n);
  }
}
