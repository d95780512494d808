/** The few facts about products that the solver needs one at a time. */
module Arith {

  lemma MulMono(a: int, b: int, x: int, y: int)
    requires 0 <= a <= b && 0 <= x <= y
    ensures a * x <= b * y
  {
    MulNonNeg(b - a, x);
    Distribute(b, -a, x);
    MulNonNeg(b, y - x);
    Distribute(y, -x, b);
  }

  lemma MulNonNeg(a: int, b: int)
    requires a >= 0 && b >= 0
    ensures a * b >= 0
  {}

  lemma Distribute(a: int, b: int, x: int)
    ensures (a + b) * x == a * x + b * x
    ensures x * (a + b) == x * a + x * b
    ensures b * -x == -(b * x) && -b * x == -(b * x)
  {}

  lemma Associate(a: int, b: int, c: int)
    ensures (a * b) * c == a * (b * c)
    ensures (a * b) * c == (a * c) * b
  {}

  lemma Commute(a: int, b: int)
    ensures a * b == b * a
  {}

  /** A quotient and a remainder below the base determine each other. */
  lemma QuotientUnique(b: int, q1: int, r1: int, q2: int, r2: int)
    requires 0 <= r1 < b && 0 <= r2 < b && q1 * b + r1 == q2 * b + r2
    ensures q1 == q2 && r1 == r2
  {
    if q1 < q2 {
      MulMono(1, q2 - q1, b, b);
      Distribute(q2, -q1, b);
    } else if q2 < q1 {
      MulMono(1, q1 - q2, b, b);
      Distribute(q1, -q2, b);
    }
  }
}
