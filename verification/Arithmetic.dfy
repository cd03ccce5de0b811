/** Division facts that the solver does not find on its own. */
module Arithmetic {

  lemma MulAtLeast(a: nat, b: nat, d: nat)
    requires a < b
    ensures a * d + d <= b * d
  {
    assert b * d == (a + 1) * d + (b - a - 1) * d;
  }

  lemma DivModUnique(a: nat, d: nat, q: nat, r: nat)
    requires d > 0 && r < d && a == q * d + r
    ensures a / d == q && a % d == r
  {
    var p := a / d;
    assert a == p * d + a % d;
    if p < q {
      MulAtLeast(p, q, d);
    } else if q < p {
      MulAtLeast(q, p, d);
    }
  }

  lemma ModSmall(a: nat, d: nat)
    requires a <= d && d > 0
    ensures a % d == if a == d then 0 else a
  {
  }
}
