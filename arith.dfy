/** Small facts about Euclidean division on naturals that the solver does not find on its own. */
module Arith {

  lemma MulLe(a: nat, b: nat, c: nat)
    requires a <= b
    ensures a * c <= b * c
  {
  }

  lemma DivUnique(n: nat, d: nat, q: nat, r: nat)
    requires d > 0 && n == q * d + r && r < d
    ensures n / d == q && n % d == r
  {
    var q', r' := n / d, n % d;
    if q' > q { MulLe(q + 1, q', d); }
    if q > q' { MulLe(q' + 1, q, d); }
  }

  lemma DivAtLeast(n: nat, d: nat, m: nat)
    requires d > 0 && m * d <= n
    ensures m <= n / d
  {
    var q := n / d;
    if m > q { MulLe(q + 1, m, d); }
  }

  lemma DivBelow(n: nat, d: nat, m: nat)
    requires d > 0 && n < m * d
    ensures n / d < m
  {
    var q := n / d;
    if q >= m { MulLe(m, q, d); }
  }

  lemma Expand(q: int, b: int, r2: int, a: int, r1: int)
    ensures (q * b + r2) * a + r1 == q * (a * b) + (r2 * a + r1)
  {
  }

  lemma Split(n: nat, d: nat)
    requires d > 0
    ensures n == (n / d) * d + n % d && n % d < d
  {
  }

  /** A digit below `b` scaled by `a`, plus a remainder below `a`, stays below `a * b`. */
  lemma MixedBelow(r2: nat, r1: nat, a: nat, b: nat)
    requires r2 < b && r1 < a
    ensures r2 * a + r1 < a * b
  {
    MulLe(r2, b - 1, a);
    assert (b - 1) * a + a == a * b;
  }

  lemma DivDiv(n: nat, a: nat, b: nat)
    requires a > 0 && b > 0
    ensures n / a / b == n / (a * b)
  {
    var m, r1 := n / a, n % a;
    var q, r2 := m / b, m % b;
    Split(n, a);
    Split(m, b);
    Expand(q, b, r2, a, r1);
    MixedBelow(r2, r1, a, b);
    DivUnique(n, a * b, q, r2 * a + r1);
  }

  /** Dropping the last decimal digit commutes with keeping the low digits. */
  lemma ModDiv(n: nat, p: nat)
    requires p > 0
    ensures (n % (10 * p)) / 10 == (n / 10) % p
    ensures (n % (10 * p)) % 10 == n % 10
  {
    var q := n / (10 * p);
    var r := n % (10 * p);
    assert n == q * (10 * p) + r;
    assert r == (r / 10) * 10 + r % 10;
    Expand(q, p, r / 10, 10, r % 10);
    assert n == (q * p + r / 10) * 10 + r % 10;
    DivUnique(n, 10, q * p + r / 10, r % 10);
    DivBelow(r, 10, p);
    DivUnique(n / 10, p, q, r / 10);
  }
}
