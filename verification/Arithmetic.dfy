/** Minimum and natural division. */
module Arithmetic {

  function Min(a: nat, b: nat): nat { if a < b then a else b }

  lemma DivNat(x: nat, n: nat)
    requires n > 0
    ensures x / n >= 0 && 0 <= x % n < n && x == x / n * n + x % n
  {
  }

  lemma Multiples(d: int, n: nat)
    requires n > 0
    ensures (d >= 1 ==> d * n >= n) && (d <= -1 ==> d * n <= -(n as int))
  {
  }

  lemma DivUnique(x: nat, n: nat, q: nat, r: nat)
    requires r < n && x == q * n + r
    ensures x / n == q
  {
    DivNat(x, n);
    Multiples(x / n - q, n);
    assert (x / n - q) * n == x / n * n - q * n;
  }

  lemma DivStep(x: nat, n: nat)
    requires n > 0
    ensures (x + n) / n == x / n + 1
  {
    var q, r := x / n, x % n;
    DivNat(x, n);
    DivUnique(x + n, n, q + 1, r);
  }

  lemma DivMonotone(x: nat, y: nat, n: nat)
    requires n > 0 && x <= y
    ensures x / n <= y / n
  {
    DivNat(x, n);
    DivNat(y, n);
    Multiples(x / n - y / n, n);
    assert (x / n - y / n) * n == x / n * n - y / n * n;
  }

  lemma Nested(q: nat, s: nat, t: nat, a: nat, b: nat)
    requires s < b && t < a
    ensures a * b > 0 && (q * b + s) * a + t == q * (a * b) + (s * a + t) && s * a + t < a * b
  {
    assert s * a <= (b - 1) * a;
  }

  lemma DivDiv(x: nat, a: nat, b: nat)
    requires a > 0 && b > 0
    ensures a * b > 0 && x / (a * b) == x / a / b
  {
    var y, t := x / a, x % a;
    var q, s := y / b, y % b;
    DivNat(x, a);
    DivNat(y, b);
    Nested(q, s, t, a, b);
    DivUnique(x, a * b, q, s * a + t);
  }
}
