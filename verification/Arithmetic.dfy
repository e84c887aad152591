/** Division by a variable, in steps the solver can take. */
module Arithmetic {

  lemma DivLaw(a: int, n: int)
    requires n >= 1
    ensures a == n * (a / n) + a % n
  {}

  lemma MulAtLeast(n: int, k: int)
    requires n >= 1 && k >= 1
    ensures n * k >= n
  {}

  lemma Distribute(n: int, x: int, y: int)
    ensures n * (x - y) == n * x - n * y
  {}

  /** Quotient and remainder are unique. */
  lemma ModOf(a: int, q: int, r: int, n: int)
    requires n >= 1 && a == n * q + r && 0 <= r < n
    ensures a % n == r && a / n == q
  {
    var q' := a / n;
    DivLaw(a, n);
    if q' > q { MulAtLeast(n, q' - q); Distribute(n, q', q); assert false; }
    if q' < q { MulAtLeast(n, q - q'); Distribute(n, q, q'); assert false; }
  }

  /** A stride of `step` does not change the remainder. */
  lemma ModStep(x: int, step: int)
    requires step >= 1
    ensures (x + step) % step == x % step
  {
    DivLaw(x, step);
    Distribute(step, x / step + 1, 1);
    ModOf(x + step, x / step + 1, x % step, step);
  }

  /** Nor do whole multiples of it. */
  lemma ModMany(x: int, k: int, step: int)
    requires step >= 1
    ensures (x + step * k) % step == x % step
  {
    DivLaw(x, step);
    Distribute(step, x / step, -k);
    ModOf(x + step * k, x / step + k, x % step, step);
  }
}
