/**
 * The nonlinear facts about products and quotients that the other modules rely on.  Each is stated over plain
 * integers, so that a proof that needs one can call it by name instead of leaving it to the solver
 * in the middle of other reasoning: monotonicity of products, bounds of quotients, the quotient
 * and remainder of a number already written as a multiple plus a rest, and cancellation of
 * a positive factor.
 */
module Arith {

  lemma MulMono(a: int, b: int, c: int)
    requires a <= b && c >= 0
    ensures a * c <= b * c
  {
    assert (b - a) * c >= 0;
  }

  /** Multiplying lower bounds multiplies the bound. */
  lemma MulMono2(a: int, b: int, c: int, d: int)
    requires 0 <= a <= b && 0 <= c <= d
    ensures a * c <= b * d
  {
    MulMono(a, b, c);
    MulMono(c, d, b);
  }

  lemma DivBounds(n: int, d: int)
    requires d > 0
    ensures n / d * d <= n < n / d * d + d
  {
    assert n == d * (n / d) + n % d;
  }

  lemma DivAtLeast(q: int, n: int, d: int)
    requires d > 0 && q * d <= n
    ensures q <= n / d
  {
    DivBounds(n, d);
    if q > n / d {
      MulMono(n / d + 1, q, d);
    }
  }

  lemma DivBelow(q: int, n: int, d: int)
    requires d > 0 && n < q * d
    ensures n / d < q
  {
    DivBounds(n, d);
    if q <= n / d {
      MulMono(q, n / d, d);
    }
  }

  lemma DivMono(a: int, b: int, d: int)
    requires d > 0 && a <= b
    ensures a / d <= b / d
  {
    DivBounds(a, d);
    DivAtLeast(a / d, b, d);
  }

  lemma DivUnique(n: int, d: int, q: int, m: int)
    requires 0 <= m < d && n == q * d + m
    ensures n / d == q && n % d == m
  {
    DivAtLeast(q, n, d);
    assert (q + 1) * d == q * d + d;
    DivBelow(q + 1, n, d);
    assert n == d * (n / d) + n % d;
  }

  lemma MulDiv(r: int, d: int)
    requires d > 0
    ensures r * d / d == r
  {
    DivUnique(r * d, d, r, 0);
  }

  lemma DivNat(n: int, d: int)
    requires d > 0 && n >= 0
    ensures n / d >= 0
  {
    DivAtLeast(0, n, d);
  }

  lemma MulCancel(a: int, b: int, c: int)
    requires a * c <= b * c && c > 0
    ensures a <= b
  {
    if a > b {
      MulMono(b + 1, a, c);
    }
  }

  lemma DivShrinks(n: int, d: int)
    requires d > 0 && n >= 0
    ensures n / d <= n
  {
    DivBounds(n, d);
    DivNat(n, d);
    MulMono(1, d, n / d);
  }

  lemma DivDiv(x: nat, p: nat, q: nat)
    requires p > 0 && q > 0
    ensures p * q > 0 && x / p / q == x / (p * q)
  {
    MulMono(1, p, q);
    var y := x / p;
    DivBounds(x, p);
    DivBounds(y, q);
    DivNat(x, p);
    DivNat(y, q);
    var d, r := y / q, y % q;
    assert x == d * (p * q) + (r * p + x % p) by {
      assert x == y * p + x % p && y == d * q + r;
      assert (d * q + r) * p == d * (p * q) + r * p;
    }
    assert r * p + x % p < p * q by {
      MulMono(r, q - 1, p);
      assert (q - 1) * p == p * q - p;
    }
    DivUnique(x, p * q, d, r * p + x % p);
  }
}
