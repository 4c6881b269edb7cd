/** Facts about multiplication, division and remainder by a positive number
    that the index arithmetic of the matrix and of the row triples relies on. */
module Arith {
  lemma MulMono(a: int, b: int, n: int)
    requires n > 0 && a < b
    ensures a * n < b * n
  {
    assert b * n - a * n == (b - a) * n;
  }

  /** x splits into quotient and remainder. */
  lemma DivMod(x: int, n: int)
    requires n > 0
    ensures x == (x / n) * n + x % n && 0 <= x % n < n
  {
  }

  lemma Distrib(a: int, b: int, c: int)
    ensures (a + b) * c == a * c + b * c
  {
  }

  /** Division with remainder is unique. */
  lemma DivModUnique(x: int, n: int, q: int, r: int)
    requires n > 0 && 0 <= r < n && x == q * n + r
    ensures x / n == q && x % n == r
  {
    var q', r' := x / n, x % n;
    assert x == q' * n + r';
    if q' < q {
      assert (q' + 1) * n <= q * n by {
        if q' + 1 < q {
          MulMono(q' + 1, q, n);
        }
      }
      assert false;
    } else if q < q' {
      assert (q + 1) * n <= q' * n by {
        if q + 1 < q' {
          MulMono(q + 1, q', n);
        }
      }
      assert false;
    }
  }

  /** q * n + r with 0 <= r < n determines q and r. */
  lemma PairInjective(q1: int, r1: int, q2: int, r2: int, n: int)
    requires n > 0 && 0 <= r1 < n && 0 <= r2 < n && q1 * n + r1 == q2 * n + r2
    ensures q1 == q2 && r1 == r2
  {
    DivModUnique(q1 * n + r1, n, q1, r1);
    DivModUnique(q1 * n + r1, n, q2, r2);
  }

  /** A value of the form q * n + r with r < n, and q < m, is below m * n. */
  lemma Below(q: int, r: int, n: int, m: int)
    requires n > 0 && 0 <= r < n && q < m
    ensures q * n + r < m * n
  {
    assert (q + 1) * n <= m * n by {
      if q + 1 < m {
        MulMono(q + 1, m, n);
      }
    }
  }

  /** A value q * n + r with 0 <= r < n is below m * n only if q < m. */
  lemma BelowInv(q: int, r: int, n: int, m: int)
    requires n > 0 && 0 <= r < n && q * n + r < m * n
    ensures q < m
  {
    if m <= q {
      assert m * n <= q * n by {
        if m < q {
          MulMono(m, q, n);
        }
      }
    }
  }

  /** A product of naturals is a natural. */
  lemma MulNonNeg(a: int, b: int)
    requires a >= 0 && b >= 0
    ensures a * b >= 0
  {
    if a > 0 && b > 0 {
      MulMono(0, a, b);
    }
  }
}
