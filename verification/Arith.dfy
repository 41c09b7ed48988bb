/** Division facts shared by the models of rings, turns and failure rates. */
module Arith {

  lemma MulAtLeast(n: int, q: int)
    requires 0 < n && 1 <= q
    ensures n <= n * q
  {}

  /** Quotient and remainder are unique. */
  lemma DivUnique(n: int, q: int, r: int, q': int, r': int)
    requires 0 <= r < n && 0 <= r' < n
    requires n * q + r == n * q' + r'
    ensures q == q' && r == r'
  {
    var d := q - q';
    assert n * d == r' - r;
    if d >= 1 {
      MulAtLeast(n, d);
    } else if d <= -1 {
      MulAtLeast(n, -d);
    }
  }

  lemma DivIs(x: int, n: int, q: int, r: int)
    requires 0 <= r < n && x == n * q + r
    ensures x / n == q && x % n == r
  {
    assert x == n * (x / n) + x % n;
    DivUnique(n, x / n, x % n, q, r);
  }

  lemma ModShift(a: int, n: int)
    requires 0 < n
    ensures (a + n) % n == a % n
  {
    assert a == n * (a / n) + a % n;
    assert n * (a / n + 1) == n * (a / n) + n;
    DivIs(a + n, n, a / n + 1, a % n);
  }

  /** Stepping a ring index by one. */
  lemma ModNext(a: int, n: int)
    requires 0 < n && 0 <= a
    ensures (a + 1) % n == if a % n == n - 1 then 0 else a % n + 1
    ensures (a + 1) / n == if a % n == n - 1 then a / n + 1 else a / n
  {
    assert a == n * (a / n) + a % n;
    if a % n == n - 1 {
      assert n * (a / n + 1) == n * (a / n) + n;
      DivIs(a + 1, n, a / n + 1, 0);
    } else {
      DivIs(a + 1, n, a / n, a % n + 1);
    }
  }

  /** Two numbers less than `n` apart with the same remainder are equal. */
  lemma SameRemainder(a: int, b: int, n: int)
    requires 0 < n && a % n == b % n && a <= b < a + n
    ensures a == b
  {
    var q := b / n - a / n;
    assert a == n * (a / n) + a % n && b == n * (b / n) + b % n;
    assert b - a == n * q;
    if q >= 1 {
      MulAtLeast(n, q);
    } else if q <= -1 {
      MulAtLeast(n, -q);
    }
  }

  /** A failure share rounded down reaches a threshold exactly when the share itself does. */
  lemma RoundedShare(failures: int, requests: int, threshold: int)
    requires 0 <= failures && 0 < requests
    ensures failures * 100 / requests >= threshold <==> threshold * requests <= 100 * failures
  {
    var q, r := failures * 100 / requests, failures * 100 % requests;
    assert failures * 100 == requests * q + r;
    if q >= threshold {
      assert requests * q >= requests * threshold;
    } else {
      assert requests * (q + 1) <= requests * threshold;
    }
  }
}
