/** Inequalities between products and quotients that the clock drivers' arithmetic needs. */
module Division {
  lemma MulMonotone(d: nat, a: nat, b: nat)
    requires a <= b
    ensures d * a <= d * b
  {
    assert d * b == d * a + d * (b - a);
  }

  lemma DivBounds(x: nat, d: nat)
    requires d > 0
    ensures d * (x / d) <= x < d * (x / d) + d
  {
    assert x == d * (x / d) + x % d;
  }

  lemma DivLess(x: nat, d: nat, k: nat)
    requires d > 0
    ensures x / d < k <==> x < d * k
  {
    DivBounds(x, d);
    var q := x / d;
    if q < k {
      assert d * (q + 1) <= d * k by { MulMonotone(d, q + 1, k); }
    } else {
      assert d * k <= d * q by { MulMonotone(d, k, q); }
    }
  }

  lemma Cancel(s: nat, a: nat, b: nat)
    requires s > 0 && s * a <= s * b
    ensures a <= b
  {
    if a > b {
      MulMonotone(s, b + 1, a);
      assert false;
    }
  }

  // Two roundings down, by ref and then by s, lose less than ref / s + 1.
  lemma CloseFrom(rate: nat, ref: nat, s: nat, x: nat, g: nat)
    requires s > 0 && x <= rate * s < x + ref && s * g <= x < s * g + s
    ensures g <= rate && (rate - g - 1) * s < ref
  {
    if g > rate {
      MulMonotone(s, rate + 1, g);
      assert false;
    }
    assert (rate - g - 1) * s == rate * s - s * g - s;
  }
}
