/// Division facts that more than one component needs.
module Arith {
  lemma MulMonotone(a: int, b: int, m: nat)
    requires a <= b
    ensures a * m <= b * m
  {
    assert (b - a) * m >= 0;
    assert (b - a) * m == b * m - a * m;
  }

  lemma Quotient(x: int, m: nat, q: int)
    requires m > 0 && q * m <= x < q * m + m
    ensures x % m == x - q * m && x / m == q
  {
    var p := x / m;
    assert x == p * m + x % m;
    assert (p + 1) * m == p * m + m && (q + 1) * m == q * m + m;
    if p < q {
      MulMonotone(p + 1, q, m);
    } else if p > q {
      MulMonotone(q + 1, p, m);
    }
  }

  lemma ModRange(i: nat, d: int, m: nat)
    requires i < m && 0 - m <= d <= m
    ensures (i + d) % m == if i + d < 0 then i + d + m else if i + d >= m then i + d - m else i + d
  {
    Quotient(i + d, m, if i + d < 0 then -1 else if i + d >= m then 1 else 0);
  }
}
