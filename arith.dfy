/** Facts about Euclidean division used by the arena's modular indexing. */
module Arith {
  lemma MulAtLeast(a: int, m: int)
    requires a >= 1 && m > 0
    ensures a * m >= m
  {
    assert a * m == (a - 1) * m + m;
  }

  lemma MulAtMost(a: int, m: int)
    requires a <= -1 && m > 0
    ensures a * m <= -m
  {
    MulAtLeast(-a, m);
    assert a * m == -((-a) * m);
  }

  /** Quotient and remainder are determined by x == q * m + r with 0 <= r < m. */
  lemma ModUnique(x: int, m: int, q: int, r: int)
    requires m > 0 && 0 <= r < m && x == q * m + r
    ensures x % m == r && x / m == q
  {
    var q', r' := x / m, x % m;
    assert (q - q') * m == r' - r;
    if q - q' >= 1 { MulAtLeast(q - q', m); }
    else if q - q' <= -1 { MulAtMost(q - q', m); }
  }

  lemma ModBelow(x: int, m: int)
    requires 0 <= x < m
    ensures x % m == x
  {
    ModUnique(x, m, 0, x);
  }

  lemma ModOnce(x: int, m: int)
    requires 0 < m <= x < 2 * m
    ensures x % m == x - m
  {
    ModUnique(x, m, 1, x - m);
  }

  lemma ModNegOnce(x: int, m: int)
    requires m > 0 && -m <= x < 0
    ensures x % m == x + m
  {
    ModUnique(x, m, -1, x + m);
  }

  /** Stepping an index by one commutes with reducing it. */
  lemma ModStep(x: int, m: int)
    requires m > 0
    ensures (x % m + 1) % m == (x + 1) % m
  {
    var q, r := x / m, x % m;
    if r + 1 < m {
      ModUnique(x + 1, m, q, r + 1);
      ModBelow(r + 1, m);
    } else {
      assert x + 1 == (q + 1) * m + 0;
      ModUnique(x + 1, m, q + 1, 0);
      ModUnique(r + 1, m, 1, 0);
    }
  }

  /** Equal remainders exactly when the difference is a multiple. */
  lemma ModCongruent(a: int, b: int, m: int)
    requires m > 0
    ensures a % m == b % m <==> (a - b) % m == 0
  {
    var qa, ra := a / m, a % m;
    var qb, rb := b / m, b % m;
    assert a - b == (qa - qb) * m + (ra - rb);
    if ra == rb {
      ModUnique(a - b, m, qa - qb, 0);
    } else if ra > rb {
      ModUnique(a - b, m, qa - qb, ra - rb);
    } else {
      assert a - b == (qa - qb - 1) * m + (ra - rb + m);
      ModUnique(a - b, m, qa - qb - 1, ra - rb + m);
    }
  }
}
