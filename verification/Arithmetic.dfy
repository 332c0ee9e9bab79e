/** Facts about multiplication and division that the array modules share. */
module Arithmetic {
  lemma QuotientUnique(a: int, b: int, q: int, r: int)
    requires b > 0 && a == b * q + r && 0 <= r < b
    ensures a / b == q && a % b == r
  {
    var d := a / b - q;
    assert a == b * (a / b) + a % b;
    assert b * d == r - a % b;
    assert d > 0 ==> b * d >= b;
    assert d < 0 ==> b * d <= -b;
  }

  lemma MulMonotone(a: int, b: int, factor: int)
    requires 0 <= a <= b && 0 <= factor
    ensures 0 <= a * factor <= b * factor
  {
  }

  lemma MulNonZero(a: int, b: int)
    requires a != 0 && b != 0
    ensures a * b != 0
  {
  }
}
