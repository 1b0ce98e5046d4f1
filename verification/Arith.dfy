/** Facts about products, quotients and remainders that the verifier needs one at a time. */
module Arith {

  lemma MulMonotone(a: int, b: int, c: int)
    requires a <= b && 0 <= c
    ensures a * c <= b * c
  {
  }

  lemma Distribute(a: int, b: int, c: int)
    ensures (a + b) * c == a * c + b * c
    ensures (a - b) * c == a * c - b * c
    ensures c * (a + b) == c * a + c * b
    ensures c * (a - b) == c * a - c * b
  {
  }

  lemma DivMod(a: int, n: int)
    requires n > 0
    ensures a == n * (a / n) + a % n && 0 <= a % n < n
  {
  }

  /** Multiples of n that are less than n apart coincide. */
  lemma SameMultiple(n: int, x: int, y: int)
    requires n > 0 && -n < n * x - n * y < n
    ensures x == y
  {
    Distribute(x, y, n);
    if x - y >= 1 {
      MulMonotone(1, x - y, n);
    } else if x - y <= -1 {
      MulMonotone(x - y, -1, n);
    }
  }

  lemma DivModUnique(a: int, n: int, q: int, r: int)
    requires n > 0 && a == n * q + r && 0 <= r < n
    ensures a / n == q && a % n == r
  {
    DivMod(a, n);
    SameMultiple(n, q, a / n);
  }
}
