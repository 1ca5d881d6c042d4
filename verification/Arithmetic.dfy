// Facts about division and powers of two that several components need.
module Arithmetic {

  function Two(n: nat): (p: nat)
    ensures p >= 1
  {
    if n == 0 then 1 else 2 * Two(n - 1)
  }

  lemma Remainder(y: nat, q: nat, r: nat, d: nat)
    requires r < d && y == d * q + r
    ensures y % d == r
  {
    assert y == d * (y / d) + y % d;
    if y / d > q { Larger(d, q, y / d); } else if y / d < q { Larger(d, y / d, q); }
  }

  lemma Larger(d: nat, q: nat, p: nat)
    requires q < p
    ensures d * p >= d * q + d
  {
    var x := p - q - 1;
    assert p == q + 1 + x;
    assert d * p == d * q + d + d * x;
  }
}
