/** Products and quotients, stated so that the solver need not search for them. */
module Arith {
  /** 2 to the power n. */
  function Pow2(n: nat): (p: nat)
    ensures p >= 1
  {
    if n == 0 then 1 else 2 * Pow2(n - 1)
  }

  lemma {:induction false} Pow2Add(m: nat, n: nat)
    ensures Pow2(m + n) == Pow2(m) * Pow2(n)
  {
    if m > 0 {
      Pow2Add(m - 1, n);
      MulAssoc(2, Pow2(m - 1), Pow2(n));
    }
  }

  lemma MulAssoc(a: int, b: int, c: int)
    ensures a * (b * c) == (a * b) * c
  {
  }

  lemma MulDist(a: int, b: int, c: int)
    ensures a * (b + c) == a * b + a * c
  {
  }

  lemma MulMonotone(a: int, b: int, c: int)
    requires a <= b && 0 <= c
    ensures a * c <= b * c && c * a <= c * b
  {
    assert (b - a) * c >= 0;
    assert (b - a) * c == b * c - a * c;
  }

  lemma MulStrict(a: int, b: int, c: int)
    requires a < b && 0 < c
    ensures a * c < b * c && c * a < c * b
  {
    assert (b - a) * c >= c by { MulMonotone(1, b - a, c); }
    assert (b - a) * c == b * c - a * c;
  }

  lemma QuotientUnique(x: int, d: int, q: int, r: int)
    requires d > 0 && 0 <= r < d
    requires x == d * q + r
    ensures x / d == q && x % d == r
  {
    var k := x / d - q;
    assert x == d * (x / d) + x % d;
    assert d * (x / d) - d * q == d * k;
    assert d * k == r - x % d;
    if k > 0 {
      MulMonotone(1, k, d);
    } else if k < 0 {
      MulMonotone(k, -1, d);
    }
  }

  lemma QuotientBelow(x: nat, d: int, bound: int)
    requires d > 0 && x < d * bound
    ensures 0 <= x / d < bound && x == d * (x / d) + x % d
  {
    if x / d >= bound {
      MulMonotone(bound, x / d, d);
    }
  }

  /** q is x / d rounded down, said without dividing. */
  ghost predicate IsQuotient(q: int, x: int, d: int) {
    q * d <= x < (q + 1) * d
  }

  lemma QuotientIs(x: nat, d: int)
    requires d > 0
    ensures IsQuotient(x / d, x, d) && x / d >= 0
  {
    assert x == d * (x / d) + x % d;
    MulDist(d, x / d, 1);
    if x / d < 0 {
      MulMonotone(x / d, -1, d);
    }
  }

  /** A binary digit taken off a quotient. */
  lemma HalveWord(c: nat, p: nat)
    requires p > 0
    ensures c / p == 2 * (c / (2 * p)) + (c / p) % 2
  {
    var q := c / p;
    assert c == p * q + c % p;
    var h, r := q / 2, q % 2;
    assert p * q == (2 * p) * h + p * r;
    QuotientUnique(c, 2 * p, h, p * r + c % p);
  }
}
