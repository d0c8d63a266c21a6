/** Small facts about integer multiplication and division used by the tile and camera arithmetic. */
module Arith {

  function Max(a: int, b: int): int { if a < b then b else a }

  function Min(a: int, b: int): int { if a < b then a else b }

  lemma MulMono(a: int, b: int, k: int)
    requires a <= b && 0 <= k
    ensures a * k <= b * k
  {
    assert b * k - a * k == (b - a) * k;
  }

  lemma MulStrict(a: int, b: int, k: int)
    requires a < b && 0 < k
    ensures a * k < b * k
  {
    assert b * k - a * k == (b - a) * k;
  }

  /** Division by a positive divisor is determined by quotient and remainder. */
  lemma DivModOf(q: int, r: int, n: int)
    requires 0 < n && 0 <= r < n
    ensures (q * n + r) / n == q && (q * n + r) % n == r
  {
    var m := q * n + r;
    var q', r' := m / n, m % n;
    assert m == q' * n + r' && 0 <= r' < n;
    if q' < q {
      MulMono(q' + 1, q, n);
      assert false;
    } else if q < q' {
      MulMono(q + 1, q', n);
      assert false;
    }
  }

  /** The quotient `a / n` is the largest `q` with `q * n <= a`. */
  lemma DivBounds(a: int, n: int, c: int)
    requires 0 < n
    ensures c <= a / n <==> c * n <= a
  {
    var q := a / n;
    assert q * n <= a < q * n + n;
    if c <= q {
      MulMono(c, q, n);
    } else {
      MulMono(q + 1, c, n);
    }
  }
}
