/** Facts about products and remainders that the solver needs spelled out. */
module Arithmetic {

  lemma MulBounds(n: int, d: int)
    requires n >= 0
    ensures d >= 1 ==> n * d >= n
    ensures d <= -1 ==> n * d <= -n
    ensures d >= 2 ==> n * d >= 2 * n
  {
    assert n * d == n * (d - 1) + n;
    assert n * d == n * (d + 1) - n;
    assert n * d == n * (d - 2) + 2 * n;
  }

  lemma Twice(a: int, b: int)
    ensures (2 * a) * b == 2 * (a * b) == a * (2 * b)
  {
  }

  // A remainder is determined by any division with a small remainder.
  lemma ModUnique(x: int, n: nat, q: int, r: nat)
    requires r < n && x == n * q + r
    ensures x % n == r
  {
    var d := x / n - q;
    assert x == n * (x / n) + x % n;
    assert n * d == r - x % n;
    MulBounds(n, d);
  }

  lemma ModAdd(a: nat, b: nat, n: nat)
    requires n > 0
    ensures (a % n + b) % n == (a + b) % n
  {
    ModShift(a % n + b, a / n, n);
    assert a == n * (a / n) + a % n;
  }

  lemma ModShift(a: nat, q: nat, n: nat)
    requires n > 0
    ensures (a + n * q) % n == a % n
  {
    assert a == n * (a / n) + a % n;
    assert n * (a / n) + n * q == n * (a / n + q);
    ModUnique(a + n * q, n, a / n + q, a % n);
  }

  lemma MulMonotone(n: nat, a: int, b: int)
    requires a <= b
    ensures n * a <= n * b
  {
  }

  // A product of remainders is a remainder of the product.
  lemma ModMul(k: nat, a: nat, n: nat)
    requires n > 0
    ensures k * (a % n) % n == k * a % n
  {
    assert a == n * (a / n) + a % n;
    assert k * a == k * (a % n) + n * (k * (a / n)) by {
      assert k * (n * (a / n)) == n * (k * (a / n));
    }
    ModShift(k * (a % n), k * (a / n), n);
  }
}
