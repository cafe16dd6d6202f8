/**
 Facts about Euclidean division by a positive divisor that the calendar
 proofs need and the solver does not find on its own.
 */
module DivMod {

  lemma MulAtLeast(k: int, n: int)
    requires k >= 1 && n > 0
    ensures k * n >= n
  {
    assert k * n == n + (k - 1) * n;
  }

  /** Quotient and remainder are the unique such pair. */
  lemma DivUnique(x: int, n: int, q: int, r: int)
    requires n > 0 && x == q * n + r && 0 <= r < n
    ensures x / n == q && x % n == r
  {
    var q' := x / n;
    var r' := x % n;
    assert (q - q') * n == r' - r;
    if q' < q {
      MulAtLeast(q - q', n);
    } else if q' > q {
      MulAtLeast(q' - q, n);
    }
  }

  /** floor((a + 1) / n) exceeds floor(a / n) exactly when n divides a + 1. */
  lemma FloorStep(a: int, n: int)
    requires n > 0
    ensures (a + 1) / n - a / n == (if (a + 1) % n == 0 then 1 else 0)
  {
    var q := a / n;
    var r := a % n;
    if r + 1 < n {
      DivUnique(a + 1, n, q, r + 1);
    } else {
      DivUnique(a + 1, n, q + 1, 0);
    }
  }

  /** Shifting by a multiple of n leaves the remainder unchanged. */
  lemma ModShift(y: int, k: int, n: int)
    requires n > 0
    ensures (y - k * n) % n == y % n
  {
    DivUnique(y - k * n, n, y / n - k, y % n);
  }
}
