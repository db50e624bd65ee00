/** Multiplication, division and remainder where the solver needs a hand. */
module Arithmetic {

  lemma MultiplyStep(a: int, b: int, c: int)
    requires a < b && c >= 0
    ensures a * c + c <= b * c
  {
    var d := b - a - 1;
    assert b * c == a * c + c + d * c;
    assert d * c >= 0;
  }

  lemma QuotientUnique(x: nat, c: nat, q: nat, r: nat)
    requires r < c && x == q * c + r
    ensures x / c == q && x % c == r
  {
    var p := x / c;
    assert x == p * c + x % c;
    if p > q { MultiplyStep(q, p, c); assert false; }
    if p < q { MultiplyStep(p, q, c); assert false; }
  }

  // Counting on by one.
  lemma DivideStep(n: nat, m: nat)
    requires m > 0
    ensures n % m + 1 < m ==> (n + 1) / m == n / m && (n + 1) % m == n % m + 1
    ensures n % m + 1 == m ==> (n + 1) / m == n / m + 1 && (n + 1) % m == 0
  {
    var q, r := n / m, n % m;
    if r + 1 < m {
      assert n + 1 == q * m + (r + 1);
      QuotientUnique(n + 1, m, q, r + 1);
    } else {
      assert n + 1 == q * m + m == (q + 1) * m;
      QuotientUnique(n + 1, m, q + 1, 0);
    }
  }
}
