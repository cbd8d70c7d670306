/** Euclidean division by a positive divisor, from its defining equation. */
module Division {
  lemma MulMonotone(d: nat, x: int, y: int)
    requires x <= y
    ensures d * x <= d * y
  {
  }

  lemma DivMod(a: int, d: nat)
    requires d > 0
    ensures a == d * (a / d) + a % d && 0 <= a % d < d
  {
  }

  lemma Distribute(d: int, x: int, y: int)
    ensures d * (x + y) == d * x + d * y
  {
  }

  lemma QuotientIs(a: int, d: nat, q: int, r: int)
    requires 0 <= r < d && a == d * q + r
    ensures a / d == q && a % d == r
  {
    DivMod(a, d);
    var p := a / d;
    if p > q {
      MulMonotone(d, q + 1, p);
      Distribute(d, q, 1);
    } else if p < q {
      MulMonotone(d, p + 1, q);
      Distribute(d, p, 1);
    }
  }

  lemma DivDiv(a: nat, d: nat)
    requires d > 0
    ensures a / 2 / d == a / (2 * d)
    ensures a % (2 * d) == 2 * (a / 2 % d) + a % 2
  {
    DivMod(a / 2, d);
    var q, r := a / 2 / d, a / 2 % d;
    var r' := 2 * r + a % 2;
    assert a == 2 * (d * q + r) + a % 2;
    assert 2 * (d * q) == (2 * d) * q;
    QuotientIs(a, 2 * d, q, r');
  }

  lemma ModBelow(a: nat, d: nat)
    requires a < d
    ensures a % d == a
  {
    QuotientIs(a, d, 0, a);
  }
}
