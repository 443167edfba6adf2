/** Facts about Euclidean remainder used to reason about the cyclic role index. */
module ModArith {

  /** Adding the modulus once does not change the remainder. */
  lemma ModWrap(x: nat, n: nat)
    requires n > 0
    ensures (x + n) % n == x % n
  {
    var q := x / n;
    var r := x % n;
    assert x + n == (q + 1) * n + r;
    ModUnique(x + n, n, q + 1, r);
  }

  /** A quotient-remainder decomposition with `0 <= r < n` is the one `%` computes. */
  lemma ModUnique(x: int, n: int, q: int, r: int)
    requires n > 0 && 0 <= r < n && x == q * n + r
    ensures x % n == r
  {
    var q' := x / n;
    Distrib(q, q', n);
    if q > q' {
      MulAtLeast(q - q', n);
    } else if q < q' {
      MulAtLeast(q' - q, n);
    }
  }

  lemma Distrib(a: int, b: int, n: int)
    ensures (a - b) * n == a * n - b * n
  {
  }

  lemma MulAtLeast(a: int, n: int)
    requires a >= 1 && n > 0
    ensures a * n >= n
  {
  }
}
