/** Division by a variable, one multiple at a time. */
module Arithmetic {
  lemma {:induction false} AtLeastOneTime(n: int, k: int)
    requires n > 0 && k >= 1
    ensures n * k >= n
    decreases k
  {
    if k > 1 {
      AtLeastOneTime(n, k - 1);
      assert n * k == n * (k - 1) + n;
    }
  }

  /** Quotient and remainder are unique. */
  lemma DivisionUnique(n: int, q: int, r: int, q': int, r': int)
    requires 0 <= r < n && 0 <= r' < n && n * q + r == n * q' + r'
    ensures q == q' && r == r'
  {
    assert n * (q - q') == n * q - n * q';
    assert n * (q' - q) == n * q' - n * q;
    if q > q' {
      AtLeastOneTime(n, q - q');
    } else if q < q' {
      AtLeastOneTime(n, q' - q);
    }
  }

  lemma Remainder(x: int, n: int, q: int, r: int)
    requires 0 <= r < n && x == n * q + r
    ensures x % n == r && x / n == q
  {
    DivisionUnique(n, x / n, x % n, q, r);
  }

  lemma DivisionStep(x: int, n: int)
    requires n > 0
    ensures (x + n) / n == x / n + 1
  {
    var q, r := x / n, x % n;
    assert x == n * q + r;
    assert n * (q + 1) == n * q + n;
    Remainder(x + n, n, q + 1, r);
  }

  /** A multiple of `n` that is at most `x` is at most `x / n` times `n`. */
  lemma AtMostQuotient(k: int, n: int, x: int)
    requires n > 0 && k * n <= x
    ensures k <= x / n
  {
    var q := x / n;
    assert x == n * q + x % n;
    assert n * (k - q) == k * n - n * q;
    if k > q {
      AtLeastOneTime(n, k - q);
    }
  }
}
