/** The few facts of nonlinear integer arithmetic that the window proofs use. */
module Arithmetic {

  lemma {:induction false} Distribute(a: int, b: int, c: int)
    ensures (a + b) * c == a * c + b * c
    ensures (a - b) * c == a * c - b * c
    ensures c * (a + b) == c * a + c * b
    ensures c * (a - b) == c * a - c * b
  {
  }

  lemma {:induction false} Grow(x: int, c: int)
    requires x >= 1 && c > 0
    ensures x * c >= c
  {
  }

  /** Multiplication by a positive number keeps and reflects the order. */
  lemma {:induction false} Cancel(a: int, b: int, c: int)
    requires c > 0
    ensures a <= b <==> a * c <= b * c
    ensures a < b <==> a * c < b * c
  {
    Distribute(b, a, c);
    Distribute(a, b, c);
    if b > a {
      Grow(b - a, c);
    } else if b < a {
      Grow(a - b, c);
    }
  }

  lemma {:induction false} Divide(n: int, d: int)
    requires d > 0
    ensures (n / d) * d <= n < (n / d + 1) * d
  {
    assert n == d * (n / d) + n % d;
    Distribute(n / d, 1, d);
  }

  /** A floor is the largest multiple that fits. */
  lemma {:induction false} FloorIff(c: int, n: int, d: int)
    requires d > 0
    ensures c <= n / d <==> c * d <= n
  {
    Divide(n, d);
    Cancel(c, n / d, d);
    Cancel(n / d + 1, c, d);
  }
}
