/** Facts about integer multiplication and remainder that the solver does not
    find on its own once the factors are symbolic. */
module Arithmetic {

  lemma MulMono(a: int, b: int, p: nat)
    requires a <= b
    ensures a * p <= b * p
  {
    assert b * p - a * p == (b - a) * p;
  }

  lemma MulSucc(x: int, p: int)
    ensures (x + 1) * p == x * p + p
  {
  }

  /** A positive multiple of `k` is at least `k`. */
  lemma MulAtLeast(k: int, n: int)
    requires k > 0 && n >= 1
    ensures k * n >= k
  {
    MulMono(1, n, k);
  }

  /** `kq + r` leaves remainder `r` when `r` lies in `[0, k)`. */
  lemma ModOf(k: int, q: int, r: int)
    requires 0 <= r < k
    ensures (k * q + r) % k == r
  {
    var x := k * q + r;
    var d, m := x / k, x % k;
    assert x == k * d + m;
    assert k * (q - d) == m - r;
    if q - d >= 1 {
      MulAtLeast(k, q - d);
    } else if q - d <= -1 {
      MulAtLeast(k, d - q);
    }
  }
}
