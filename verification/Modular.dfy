/** Facts about remainders that the solver does not find by itself. */
module Modular {
  lemma MulGap(a: int, b: int, n: int)
    requires a < b && 0 < n
    ensures a * n + n <= b * n
  {
    assert b * n - a * n - n == (b - a - 1) * n;
    assert 0 <= (b - a - 1) * n;
  }

  lemma ModUnique(x: int, q: int, r: int, n: int)
    requires 0 <= r < n && x == q * n + r
    ensures x % n == r
  {
    var q' := x / n;
    assert x == q' * n + x % n;
    if q < q' {
      MulGap(q, q', n);
    } else if q' < q {
      MulGap(q', q, n);
    }
  }

  // Going d <= n steps on from x round a ring of n positions wraps at most once.
  lemma ModAdd(x: int, d: int, n: int)
    requires 0 < n && 0 <= d <= n
    ensures (x + d) % n == if x % n + d < n then x % n + d else x % n + d - n
  {
    var q := x / n;
    assert x == q * n + x % n;
    if x % n + d < n {
      ModUnique(x + d, q, x % n + d, n);
    } else {
      assert (q + 1) * n == q * n + n;
      ModUnique(x + d, q + 1, x % n + d - n, n);
    }
  }
}
