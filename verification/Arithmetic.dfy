/** Facts about division and remainder that the solver does not find alone. */
module Arithmetic {

  lemma Scale(d: nat, x: nat, y: nat)
    requires x <= y
    ensures d * x <= d * y
  {
  }

  lemma DivUnique(a: nat, d: nat, q: nat, r: nat)
    requires 0 < d && r < d && a == d * q + r
    ensures a / d == q && a % d == r
  {
    var q' := a / d;
    assert a == d * q' + a % d;
    if q' < q { Scale(d, q' + 1, q); }
    if q < q' { Scale(d, q + 1, q'); }
  }

  lemma Distribute(weight: nat, low: int, high: nat)
    ensures weight * (low + 128 * high) == low * weight + weight * 128 * high
  {
  }

  lemma ModAddMultiple(a: nat, m: nat, k: nat)
    requires m > 0
    ensures (a + m * k) % m == a % m
  {
    DivUnique(a + m * k, m, a / m + k, a % m);
  }
}
