/** Facts about Euclidean division that the calendar and the cron fields share. */
module Arithmetic {

  lemma QuotientStep(y: int, k: int)
    requires k > 0
    ensures y / k == (y - 1) / k + (if y % k == 0 then 1 else 0)
  {
    var q, r := (y - 1) / k, (y - 1) % k;
    if r + 1 == k {
      QuotientUnique(y, k, q + 1, 0);
    } else {
      QuotientUnique(y, k, q, r + 1);
    }
  }

  lemma QuotientUnique(y: int, k: int, q: int, r: int)
    requires k > 0 && 0 <= r < k && y == k * q + r
    ensures y / k == q && y % k == r
  {
    var d := q - y / k;
    assert y == k * (y / k) + y % k;
    assert k * d == y % k - r;
    assert d >= 1 ==> k * d >= k;
    assert d <= -1 ==> k * d <= -k;
  }

  /** A unit of `n` steps of `k` seconds: the remainder splits into whole steps and the rest. */
  lemma NestedRemainder(u: int, k: int, n: int)
    requires k > 0 && n > 0 && k * n > 0
    ensures u % (k * n) == k * (u / k % n) + u % k
    ensures u / (k * n) == u / k / n
    ensures u / k % n == 0 <==> u % (k * n) < k
  {
    Nested(u, k, n, u / k, u % k, u / k / n, u / k % n);
  }

  lemma Nested(u: int, k: int, n: int, q: int, r: int, h: int, m: int)
    requires k > 0 && n > 0 && k * n > 0
    requires u == k * q + r && 0 <= r < k && q == n * h + m && 0 <= m < n
    ensures u % (k * n) == k * m + r && u / (k * n) == h
    ensures m == 0 <==> k * m + r < k
  {
    Distribute(k, n, h, m);
    Scale(k, m, n - 1);
    if m >= 1 {
      Scale(k, 1, m);
    }
    QuotientUnique(u, k * n, h, k * m + r);
  }

  lemma Scale(k: int, a: int, b: int)
    requires k > 0 && a <= b
    ensures k * a <= k * b
  {
  }

  lemma Distribute(k: int, n: int, h: int, m: int)
    ensures k * (n * h + m) == (k * n) * h + k * m
  {
  }
}
