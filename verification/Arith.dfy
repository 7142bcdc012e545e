/** Facts about real quotients used by the drop rates. */
module Arith {
  lemma {:induction false} Fraction(a: int, b: int)
    requires 0 < a <= b
    ensures 0.0 < a as real / b as real <= 1.0
    ensures a as real / b as real == 1.0 <==> a == b
    ensures (a as real / b as real) * b as real == a as real
  {
    var q := a as real / b as real;
    assert q * b as real == a as real;
  }

  lemma {:induction false} QuotientBelow(x: real, y: real, d: real)
    requires d > 0.0 && x < y * d
    ensures x / d < y
  {
    assert (x / d) * d == x;
  }

  lemma {:induction false} QuotientAbove(x: real, y: real, d: real)
    requires d > 0.0 && y * d <= x
    ensures y <= x / d
  {
    assert (x / d) * d == x;
  }
}
