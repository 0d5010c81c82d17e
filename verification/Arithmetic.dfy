/** Facts about quotients and remainders that the calendar and cycle proofs share. */
module Arithmetic {

  lemma ScaleUp(a: int, b: int)
    requires 0 < a && 1 <= b
    ensures a <= a * b
  {
  }

  lemma Quotient(n: int, divisor: int, q: int)
    requires 0 < divisor && divisor * q <= n < divisor * q + divisor
    ensures n / divisor == q && n % divisor == n - divisor * q
  {
    var d := n / divisor;
    assert n == divisor * d + n % divisor;
    assert divisor * (q - d) == divisor * q - divisor * d;
    assert divisor * (d - q) == divisor * d - divisor * q;
    if d < q {
      ScaleUp(divisor, q - d);
    } else if q < d {
      ScaleUp(divisor, d - q);
    }
  }

  lemma Divided(n: nat, divisor: nat)
    requires 0 < divisor
    ensures n == divisor * (n / divisor) + n % divisor && 0 <= divisor * (n / divisor)
  {
  }

  lemma Remainder(divisor: nat, q: int, r: nat)
    requires r < divisor
    ensures (divisor * q + r) % divisor == r && (divisor * q + r) / divisor == q
  {
    Quotient(divisor * q + r, divisor, q);
  }

  /** Adding whole multiples does not change a remainder. */
  lemma WholeTurns(n: int, divisor: nat, q: int)
    requires 0 < divisor
    ensures (n + divisor * q) % divisor == n % divisor
  {
    assert n == divisor * (n / divisor) + n % divisor;
    assert divisor * (n / divisor + q) == divisor * (n / divisor) + divisor * q;
    Remainder(divisor, n / divisor + q, n % divisor);
  }
}
