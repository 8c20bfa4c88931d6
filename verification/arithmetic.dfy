/** Division facts the solver does not find for a variable divisor. */
module Arithmetic {

  lemma MulMonotone(a: int, b: int, m: int)
    requires m >= 0 && a <= b
    ensures a * m <= b * m
  {
    assert (b - a) * m >= 0;
  }

  lemma DivModUnique(v: int, m: int, q: int, r: int)
    requires 0 <= r < m && v == q * m + r
    ensures v / m == q && v % m == r
  {
    var q', r' := v / m, v % m;
    assert v == q' * m + r';
    assert (q + 1) * m == q * m + m && (q' + 1) * m == q' * m + m;
    if q < q' {
      MulMonotone(q + 1, q', m);
    }
    if q' < q {
      MulMonotone(q' + 1, q, m);
    }
  }

  /** Adding a multiple of `m` does not change the remainder. */
  lemma ModAddMultiple(a: int, b: int, m: int)
    requires m > 0 && a % m == 0
    ensures (a + b) % m == b % m
    ensures (b - a) % m == b % m
  {
    var p, q, r := a / m, b / m, b % m;
    assert a == p * m && b == q * m + r;
    assert (p + q) * m == p * m + q * m && (q - p) * m == q * m - p * m;
    DivModUnique(a + b, m, p + q, r);
    DivModUnique(b - a, m, q - p, r);
  }

  lemma ModSelf(m: int)
    requires m > 0
    ensures m % m == 0
  {
    DivModUnique(m, m, 1, 0);
  }

  /** Counting up from `n`, the next multiple of `m` comes after m - n % m steps and not before. */
  lemma NextMultiple(n: int, m: nat, k: nat)
    requires m > 0 && 0 < k <= m - n % m
    ensures (n + k) % m == 0 <==> k == m - n % m
  {
    var q, r := n / m, n % m;
    assert n == q * m + r && (q + 1) * m == q * m + m;
    if k == m - r {
      DivModUnique(n + k, m, q + 1, 0);
    } else {
      DivModUnique(n + k, m, q, r + k);
    }
  }
}
