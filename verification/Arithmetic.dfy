/** Facts about division and multiplication that the solver needs step by step. */
module Arithmetic {
  lemma Divided(n: nat, a: nat, b: nat)
    requires a > 0 && b > 0
    ensures n / a / b == n / (a * b)
  {
    var q := n / a / b;
    var r := n - q * (a * b);
    assert r == (n / a - q * b) * a + n % a;
    Bounded(n / a - q * b, b, a, n % a);
    Quotient(n, a * b, q, r);
  }

  lemma Bounded(x: nat, b: nat, a: nat, y: nat)
    requires x < b && y < a
    ensures x * a + y < a * b
  {
    assert x * a <= (b - 1) * a;
  }

  lemma Quotient(n: nat, d: nat, q: nat, r: nat)
    requires 0 < d && n == q * d + r && r < d
    ensures n / d == q
  {
    var p := n / d;
    assert p * d <= n < (p + 1) * d;
    Between(p, q, d, r);
  }

  lemma Between(p: nat, q: nat, d: nat, r: nat)
    requires r < d && p * d <= q * d + r < (p + 1) * d
    ensures p == q
  {
    if p < q { assert (p + 1) * d <= q * d by { MulMonotone(p + 1, q, d); } }
    if q < p { assert (q + 1) * d <= p * d by { MulMonotone(q + 1, p, d); } }
  }

  lemma MulMonotone(a: nat, b: nat, d: nat)
    requires a <= b
    ensures a * d <= b * d
  {
  }

  /** dividing by a, where a * b is a multiple of 256 * a, looks at the bits below a * b only */
  lemma LowBits(n: nat, a: nat, b: nat)
    requires a > 0 && b > 0 && b % 256 == 0
    ensures a * b > 0 && n % (a * b) / a % 256 == n / a % 256
  {
    var h, l := n / (a * b), n % (a * b);
    assert n == (a * b) * h + l;
    assert n == (h * b) * a + l;
    DividedSum(h * b, a, l);
    Multiple(h, b / 256, l / a);
  }

  lemma DividedSum(m: nat, a: nat, l: nat)
    requires a > 0
    ensures (m * a + l) / a == m + l / a
  {
    assert m * a + l == (m + l / a) * a + l % a;
    Quotient(m * a + l, a, m + l / a, l % a);
  }

  lemma Multiple(h: nat, c: nat, x: nat)
    ensures (h * (256 * c) + x) % 256 == x % 256
  {
    assert h * (256 * c) == 256 * (h * c);
  }

  lemma Remainder(n: nat, d: nat, q: nat, r: nat)
    requires 0 < d && n == q * d + r && r < d
    ensures n % d == r
  {
    Quotient(n, d, q, r);
    assert n == d * (n / d) + n % d;
  }

  /** multiples of m differ by at least m */
  lemma Apart(x: nat, y: nat, m: nat)
    requires m > 0 && x % m == 0 && y % m == 0 && x < y
    ensures x + m <= y
  {
    var p, q := x / m, y / m;
    assert x == p * m && y == q * m;
    if q <= p {
      MulMonotone(q, p, m);
      assert false;
    }
    MulMonotone(p + 1, q, m);
    assert (p + 1) * m == p * m + m;
  }

  lemma Product(q: nat, m: nat)
    requires m > 0
    ensures q * m % m == 0
  {
    Remainder(q * m, m, q, 0);
  }

  lemma Factor(x: nat, a: nat, b: nat)
    requires a > 0 && b > 0 && x % (a * b) == 0
    ensures x % a == 0
  {
    var q := x / (a * b);
    assert x == q * (a * b);
    Regroup(q, a, b);
    Product(q * b, a);
  }

  lemma Regroup(q: nat, a: nat, b: nat)
    ensures q * (a * b) == (q * b) * a
  {
  }

  lemma Difference(x: nat, q: nat, n: nat, m: nat)
    requires m > 0 && x % m == 0 && n % m == 0 && q * n <= x
    ensures (x - q * n) % m == 0
  {
    var a, b := x / m, n / m;
    assert x == a * m && n == b * m;
    Distribute(a, q, b, m);
    Product(a - q * b, m);
  }

  lemma Distribute(a: nat, q: nat, b: nat, m: nat)
    requires m > 0 && q * (b * m) <= a * m
    ensures a - q * b >= 0 && a * m - q * (b * m) == (a - q * b) * m
  {
    assert q * (b * m) == (q * b) * m;
    if a < q * b {
      MulMonotone(a + 1, q * b, m);
    }
  }
}
