/**
 * How far the fixed-point logarithm and powers may fall below the true ones.  FixedPoint shows that they are never
 * above; every truncation here costs at most a factor 1 + 2^-16, and these factors are counted.
 */
module FixedPointAccuracy {
  import opened Words
  import opened Arith
  import opened FixedPoint
  import opened NoDivide
  import Distribution

  const UNIT := 0x1_0000
  const NEXT := 0x1_0001

  // ----- logarithm -----

  /**
   * After n-th powers, what truncation has taken off the mantissa m and the digits res so far is less than 2n
   * factors of NEXT / UNIT.
   */
  ghost predicate LogAbove(x: nat, n: nat, m: nat, res: nat) {
    Power(x, n) * Power(UNIT, n) * NEXT <= Pow2(res) * m * (Power(NEXT, n) * Power(NEXT, n))
  }

  /** Where a truncation leaves q of y, at least UNIT, y is at most q * NEXT / UNIT. */
  lemma Truncated(y: nat, q: nat)
    requires q >= UNIT && y < (q + 1) * UNIT
    ensures y <= q * NEXT
  {
  }

  /** One round of squaring: the digit d and the mantissa m' that it leaves. */
  lemma Round(m: nat, sq: nat)
    requires IsMantissa(m) && sq == m * m / UNIT
    ensures sq >= 2 * UNIT ==> IsMantissa(sq / 2) && m * m <= 2 * (sq / 2) * NEXT
    ensures sq < 2 * UNIT ==> IsMantissa(sq) && m * m <= sq * NEXT
  {
    SquareMantissa(m);
    DivBounds(m * m, UNIT);
    if sq < 2 * UNIT {
      Truncated(m * m, sq);
    } else {
      var h := sq / 2;
      assert m * m < (sq + 1) * UNIT <= (2 * h + 2) * UNIT;
    }
  }

  lemma SquareRound(a: nat, p: nat, m: nat, v: nat, q: nat)
    requires a * NEXT <= p * m * v && m * m <= q * NEXT
    ensures a * a * NEXT <= p * p * q * (v * v)
  {
    MulMono2(a * NEXT, p * m * v, a * NEXT, p * m * v);
    MulMono(m * m, q * NEXT, p * p * (v * v));
    assert p * m * v * (p * m * v) == m * m * (p * p * (v * v));
    assert q * NEXT * (p * p * (v * v)) == p * p * q * (v * v) * NEXT;
    assert a * NEXT * (a * NEXT) == a * a * NEXT * NEXT;
    MulCancel(a * a * NEXT, p * p * q * (v * v), NEXT);
  }

  lemma LogAboveSquared(x: nat, n: nat, m: nat, res: nat, q: nat)
    requires LogAbove(x, n, m, res) && m * m <= q * NEXT
    ensures Power(x, 2 * n) * Power(UNIT, 2 * n) * NEXT <= Pow2(2 * res) * q * (Power(NEXT, 2 * n) * Power(NEXT, 2 * n))
  {
    var a, b, v := Power(x, n), Power(UNIT, n), Power(NEXT, n);
    hide Power, Pow2;
    PowerDouble(x, n);
    PowerDouble(UNIT, n);
    PowerDouble(NEXT, n);
    Pow2Add(res, res);
    SquareRound(a * b, Pow2(res), m, v * v, q);
    TakeRight(a, b, a, b);
  }

  lemma {:induction false} LogDigitsAbove(x: nat, n: nat, m: nat, res: nat, k: nat)
    requires IsMantissa(m) && LogAbove(x, n, m, res)
    ensures exists m' :: IsMantissa(m') && LogAbove(x, n * Pow2(k), m', LogDigits(m, res, k))
    decreases k
  {
    if k == 0 {
      assert n * Pow2(0) == n;
    } else {
      var sq := m * m / UNIT;
      Round(m, sq);
      assert 2 * n * Pow2(k - 1) == n * Pow2(k);
      if sq >= 2 * UNIT {
        LogAboveSquared(x, n, m, res, 2 * (sq / 2));
        TakenDigit(Pow2(2 * res), sq / 2, Power(NEXT, 2 * n) * Power(NEXT, 2 * n));
        assert Pow2(2 * res + 1) == 2 * Pow2(2 * res);
        LogDigitsAbove(x, 2 * n, sq / 2, 2 * res + 1, k - 1);
      } else {
        LogAboveSquared(x, n, m, res, sq);
        LogDigitsAbove(x, 2 * n, sq, 2 * res, k - 1);
      }
    }
  }

  lemma TakenDigit(p: nat, h: nat, w: nat)
    ensures p * (2 * h) * w == 2 * p * h * w
  {
  }

  lemma LogStart(x: nat)
    requires x >= UNIT
    ensures Msb(x) >= 16 && LogAbove(x, 1, Mantissa(x), Msb(x) - 16)
  {
    hide Power, Pow2, Mantissa, Msb, LogAbove;
    MantissaRange(x);
    MantissaAbove(x);
    FirstPower(x, Mantissa(x), Msb(x) - 16);
  }

  lemma MantissaAbove(x: nat)
    requires x >= UNIT && Msb(x) >= 16
    ensures x < Mantissa(x) * Pow2(Msb(x) - 16) + Pow2(Msb(x) - 16)
  {
    var ip := Msb(x) - 16;
    assert Mantissa(x) == Shr(x, ip);
    hide *;
    ShrIsDiv(x, ip);
    DivBounds(x, Pow2(ip));
  }

  lemma FirstPower(x: nat, m: nat, ip: nat)
    requires IsMantissa(m) && x < m * Pow2(ip) + Pow2(ip)
    ensures LogAbove(x, 1, m, ip)
  {
    hide Power, Pow2;
    PowerOne(x);
    PowerOne(UNIT);
    PowerOne(NEXT);
    StartFits(x, m, Pow2(ip));
  }

  lemma StartFits(x: nat, m: nat, p: nat)
    requires x < m * p + p && m >= UNIT
    ensures x * UNIT * NEXT <= p * m * (NEXT * NEXT)
  {
    MulMono(UNIT, m, p);
    assert (m * p + p) * UNIT == m * p * UNIT + UNIT * p;
    assert m * p * NEXT == m * p * UNIT + m * p;
    MulMono(x * UNIT, m * p * NEXT, NEXT);
    assert m * p * NEXT * NEXT == p * m * (NEXT * NEXT);
  }

  /** (1 + 1/UNIT)^n is at most 1 + n/UNIT + (n/UNIT)^2 for n up to UNIT. */
  lemma {:induction false} NextPower(n: nat)
    requires n <= UNIT
    ensures Power(NEXT, n) * (UNIT * UNIT) <= Power(UNIT, n) * (UNIT * UNIT + n * UNIT + n * n)
  {
    if n > 0 {
      NextPower(n - 1);
      var a, b := Power(UNIT, n - 1), Power(NEXT, n - 1);
      assert Power(UNIT, n) == UNIT * a && Power(NEXT, n) == NEXT * b;
      hide Power;
      GrowthStep(a, b, n - 1);
    }
  }

  lemma GrowthStep(a: nat, b: nat, n: nat)
    requires n < UNIT && b * (UNIT * UNIT) <= a * (UNIT * UNIT + n * UNIT + n * n)
    ensures NEXT * b * (UNIT * UNIT) <= UNIT * a * (UNIT * UNIT + (n + 1) * UNIT + (n + 1) * (n + 1))
  {
    var s := UNIT * UNIT + n * UNIT + n * n;
    MulMono(b * (UNIT * UNIT), a * s, NEXT);
    assert NEXT * b * (UNIT * UNIT) <= a * (s * NEXT);
    MulMono(n, UNIT, n);
    assert (n + 1) * (n + 1) == n * n + 2 * n + 1;
    var s' := UNIT * UNIT + (n + 1) * UNIT + (n + 1) * (n + 1);
    assert s * NEXT <= s' * UNIT;
    MulMono(s * NEXT, s' * UNIT, a);
    assert a * (s' * UNIT) == UNIT * a * s';
  }

  /** A whole unit's worth of factors is at most 3. */
  lemma UnitPower(n: nat)
    requires n == UNIT
    ensures Power(NEXT, n) <= 3 * Power(UNIT, n)
  {
    hide Power;
    NextPower(n);
    AtUnit(Power(UNIT, n), Power(NEXT, n), n);
  }

  lemma AtUnit(a: nat, b: nat, n: nat)
    requires n == UNIT && b * (UNIT * UNIT) <= a * (UNIT * UNIT + n * UNIT + n * n)
    ensures b <= 3 * a
  {
  }

  lemma {:induction false} UnitPowerIs(n: nat)
    ensures Power(UNIT, n) == Pow2(16 * n)
  {
    if n > 0 {
      UnitPowerIs(n - 1);
      Pow2Add(16, 16 * (n - 1));
      Pow2Values();
    }
  }

  lemma FractionUnit(k: nat)
    requires k == FRACTION_DIGITS
    ensures Pow2(k) == UNIT
  {
    Pow2Values();
  }

  /** The logarithm is less than five units of its last place below the true one. */
  lemma Log2Above(x: nat, k: nat)
    requires x >= UNIT && k == FRACTION_DIGITS
    ensures Power(x, Pow2(k)) < Pow2(Log2Q16(x) + 5) * Pow2(16 * Pow2(k))
  {
    var n, r := Pow2(k), Log2Q16(x);
    hide Power, Pow2, LogDigits;
    LogStart(x);
    MantissaRange(x);
    LogDigitsAbove(x, 1, Mantissa(x), Msb(x) - 16, k);
    assert 1 * n == n;
    var m' :| IsMantissa(m') && LogAbove(x, n, m', r);
    FractionUnit(k);
    LessThanFive(x, n, m', r);
  }

  lemma LessThanFive(x: nat, n: nat, m: nat, r: nat)
    requires n == UNIT && IsMantissa(m) && LogAbove(x, n, m, r)
    ensures Power(x, n) < Pow2(r + 5) * Pow2(16 * n)
  {
    hide Power, Pow2;
    UnitPower(n);
    UnitPowerIs(n);
    PowerPositive(UNIT, n);
    ThirtyTwo();
    Pow2Add(r, 5);
    FiveUnits(Power(x, n), Power(UNIT, n), Power(NEXT, n), Pow2(r), m);
  }

  lemma ThirtyTwo()
    ensures Pow2(5) == 32
  {
  }

  lemma FiveUnits(y: nat, a: nat, b: nat, p: nat, m: nat)
    requires y * a * NEXT <= p * m * (b * b) && m < 2 * UNIT && b <= 3 * a && a > 0 && p > 0
    ensures y < p * 32 * a
  {
    MulMono2(b, 3 * a, b, 3 * a);
    assert 3 * a * (3 * a) == 9 * (a * a);
    MulMono2(m, 2 * UNIT, b * b, 9 * (a * a));
    assert p * m * (b * b) == p * (m * (b * b));
    MulMono(m * (b * b), 2 * UNIT * (9 * (a * a)), p);
    assert 2 * UNIT * (9 * (a * a)) * p == 18 * p * a * a * UNIT;
    MulMono(0, y * a, 1);
    assert y * a * UNIT <= y * a * NEXT;
    MulCancel(y * a, 18 * p * a * a, UNIT);
    MulCancel(y, 18 * p * a, a);
    MulMono2(1, p, 1, a);
  }

  // ----- fractional powers -----

  /** A root rounded down to t: the square of t is at most two factors below. */
  lemma RootTruncated(n: nat, t: nat)
    requires IsRoot(n, t) && t >= UNIT
    ensures n * (UNIT * UNIT) <= t * t * (NEXT * NEXT)
  {
    assert (t + 1) * UNIT <= t * NEXT;
    MulMono2((t + 1) * UNIT, t * NEXT, (t + 1) * UNIT, t * NEXT);
    assert (t + 1) * UNIT * ((t + 1) * UNIT) == (t + 1) * (t + 1) * (UNIT * UNIT);
    assert t * NEXT * (t * NEXT) == t * t * (NEXT * NEXT);
    MulMono(n, (t + 1) * (t + 1), UNIT * UNIT);
  }

  /** The k-th root is at most 2^(2^-k) * (UNIT / NEXT)^2 below: 2 * UNIT^3n <= t^n * NEXT^2n for n = 2^k. */
  lemma {:induction false} RootAbove(t: seq<nat>, k: nat)
    requires Roots(t) && k <= 16
    ensures var n := Pow2(k);
      2 * Power(UNIT, n) * (Power(UNIT, n) * Power(UNIT, n)) <= Power(t[k], n) * (Power(NEXT, n) * Power(NEXT, n))
  {
    if k == 0 {
      PowerOne(t[0]);
      PowerOne(UNIT);
      PowerOne(NEXT);
    } else {
      RootAbove(t, k - 1);
      assert IsRoot(t[k - 1] * UNIT, t[k]);
      assert Pow2(k) == 2 * Pow2(k - 1);
      hide *;
      RootTruncated(t[k - 1] * UNIT, t[k]);
      RootRound(t[k - 1], t[k], Pow2(k - 1));
    }
  }

  lemma RootRound(t: nat, t': nat, h: nat)
    requires t * UNIT * (UNIT * UNIT) <= t' * t' * (NEXT * NEXT)
    requires 2 * Power(UNIT, h) * (Power(UNIT, h) * Power(UNIT, h)) <= Power(t, h) * (Power(NEXT, h) * Power(NEXT, h))
    ensures var n := 2 * h;
      2 * Power(UNIT, n) * (Power(UNIT, n) * Power(UNIT, n)) <= Power(t', n) * (Power(NEXT, n) * Power(NEXT, n))
  {
    hide Power;
    var a, b, y := Power(UNIT, h), Power(NEXT, h), Power(t, h);
    PowerMono(t * UNIT * (UNIT * UNIT), t' * t' * (NEXT * NEXT), h);
    PowerTimes(t * UNIT, UNIT * UNIT, h);
    PowerTimes(t, UNIT, h);
    PowerTimes(UNIT, UNIT, h);
    PowerTimes(t' * t', NEXT * NEXT, h);
    PowerTimes(t', t', h);
    PowerTimes(NEXT, NEXT, h);
    PowerDouble(UNIT, h);
    PowerDouble(NEXT, h);
    PowerDouble(t', h);
    CubeStep(a, b, y, Power(t', h) * Power(t', h));
  }

  lemma CubeStep(a: nat, b: nat, y: nat, z: nat)
    requires y * a * (a * a) <= z * (b * b) && 2 * a * (a * a) <= y * (b * b)
    ensures 2 * (a * a) * (a * a * (a * a)) <= z * (b * b * (b * b))
  {
    var a3, b2 := a * (a * a), b * b;
    MulMono(2 * a * (a * a), y * b2, a3);
    MulMono(y * a * (a * a), z * b2, b2);
    assert 2 * a * (a * a) * a3 == 2 * (a * a) * (a * a * (a * a));
    assert y * b2 * a3 == y * a * (a * a) * b2;
    assert z * b2 * b2 == z * (b2 * b2);
  }

  /**
   * The product e of the roots for the k highest bits of the fraction, to the power n = 2^k, is at most 3kn
   * factors below the power of two that these bits are.
   */
  ghost predicate FracAbove(bits: nat, e: nat, n: nat, k: nat) {
    Pow2(bits) * Power(UNIT, n) * Power(Power(UNIT, n), 3 * k) <= Power(e, n) * Power(Power(NEXT, n), 3 * k)
  }

  lemma {:induction false} FracPowerAbove(frac: nat, t: seq<nat>, k: nat)
    requires Roots(t) && k <= 16 && frac < 0x1_0000
    ensures FracPower(frac, t, k) >= UNIT
    ensures FracAbove(Shr(frac, 16 - k), FracPower(frac, t, k), Pow2(k), k)
  {
    if k == 0 {
      Pow2Values();
      NoHighBits(frac, 16);
    } else {
      FracPowerAbove(frac, t, k - 1);
      RootAbove(t, k);
      var e, s := FracPower(frac, t, k - 1), Shr(frac, 16 - k);
      assert Pow2(k) == 2 * Pow2(k - 1);
      assert Shr(frac, 17 - k) == s / 2;
      assert FracPower(frac, t, k) == if s % 2 == 1 then ScaledProduct(e, t[k]) else e;
      assert t[k] >= UNIT;
      hide *;
      FracSquared(s / 2, e, Pow2(k - 1), k);
      if s % 2 == 1 {
        FracTake(s, e, t[k], Pow2(k), k);
      } else {
        FracSkip(s, e, Pow2(k), k);
      }
    }
  }

  /** The square of the previous bound. */
  ghost predicate FracHalf(bits: nat, e: nat, n: nat, k: nat)
    requires k > 0
  {
    Pow2(2 * bits) * Power(UNIT, n) * Power(Power(UNIT, n), 3 * (k - 1))
      <= Power(e, n) * Power(Power(NEXT, n), 3 * (k - 1))
  }

  lemma FracSquared(bits: nat, e: nat, h: nat, k: nat)
    requires k > 0 && FracAbove(bits, e, h, k - 1)
    ensures FracHalf(bits, e, 2 * h, k)
  {
    var a, b, c := Power(UNIT, h), Power(NEXT, h), 3 * (k - 1);
    hide Power, Pow2;
    Pow2Add(bits, bits);
    PowerDouble(UNIT, h);
    PowerDouble(NEXT, h);
    PowerDouble(e, h);
    PowerTimes(a, a, c);
    PowerTimes(b, b, c);
    SquaredBound(Pow2(bits), a, Power(a, c), Power(e, h), Power(b, c));
  }

  lemma SquaredBound(p: nat, a: nat, x: nat, e: nat, y: nat)
    requires p * a * x <= e * y
    ensures p * p * (a * a) * (x * x) <= e * e * (y * y)
  {
    MulMono2(p * a * x, e * y, p * a * x, e * y);
    assert p * a * x * (p * a * x) == p * p * (a * a) * (x * x);
    assert e * y * (e * y) == e * e * (y * y);
  }

  lemma PowerThree(a: nat, k: nat)
    requires k > 0
    ensures Power(a, 3 * k) == Power(a, 3 * (k - 1)) * (a * (a * a))
  {
    Cube(a);
    hide Power;
    PowerAdd(a, 3 * (k - 1), 3);
    assert 3 * (k - 1) + 3 == 3 * k;
  }

  lemma Cube(a: nat)
    ensures Power(a, 3) == a * (a * a)
  {
    assert Power(a, 3) == a * Power(a, 2);
    assert Power(a, 2) == a * Power(a, 1);
    PowerOne(a);
  }

  lemma FracSkip(s: nat, e: nat, n: nat, k: nat)
    requires k > 0 && s % 2 == 0 && FracHalf(s / 2, e, n, k)
    ensures FracAbove(s, e, n, k)
  {
    var a, b := Power(UNIT, n), Power(NEXT, n);
    assert s == 2 * (s / 2);
    hide Power, Pow2;
    PowerThree(a, k);
    PowerThree(b, k);
    PowerMono(UNIT, NEXT, n);
    var x, y := Power(a, 3 * (k - 1)), Power(b, 3 * (k - 1));
    SkipBound(Pow2(s), a, b, x, y, Power(e, n));
  }

  lemma SkipBound(p: nat, a: nat, b: nat, x: nat, y: nat, e: nat)
    requires p * a * x <= e * y && a <= b
    ensures p * a * (x * (a * (a * a))) <= e * (y * (b * (b * b)))
  {
    MulMono2(a, b, a, b);
    MulMono2(a, b, a * a, b * b);
    MulMono2(p * a * x, e * y, a * (a * a), b * (b * b));
    assert p * a * (x * (a * (a * a))) == p * a * x * (a * (a * a));
    assert e * (y * (b * (b * b))) == e * y * (b * (b * b));
  }

  lemma FracTake(s: nat, e: nat, t: nat, n: nat, k: nat)
    requires k > 0 && s % 2 == 1 && FracHalf(s / 2, e, n, k) && e >= UNIT && t >= UNIT
    requires 2 * Power(UNIT, n) * (Power(UNIT, n) * Power(UNIT, n)) <= Power(t, n) * (Power(NEXT, n) * Power(NEXT, n))
    ensures ScaledProduct(e, t) >= UNIT && FracAbove(s, ScaledProduct(e, t), n, k)
  {
    var a, b, e' := Power(UNIT, n), Power(NEXT, n), ScaledProduct(e, t);
    assert Pow2(s) == 2 * Pow2(2 * (s / 2));
    MulMono2(UNIT, e, UNIT, t);
    DivAtLeast(UNIT, e * t, UNIT);
    DivBounds(e * t, UNIT);
    Truncated(e * t, e');
    hide Power, Pow2;
    PowerMono(e * t, e' * NEXT, n);
    PowerTimes(e, t, n);
    PowerTimes(e', NEXT, n);
    PowerThree(a, k);
    PowerThree(b, k);
    var x, y := Power(a, 3 * (k - 1)), Power(b, 3 * (k - 1));
    TakeBound(Pow2(2 * (s / 2)), a, b, x, y, Power(e, n), Power(t, n), Power(e', n));
  }

  lemma TakeBound(p: nat, a: nat, b: nat, x: nat, y: nat, e: nat, t: nat, e': nat)
    requires p * a * x <= e * y && 2 * a * (a * a) <= t * (b * b) && e * t <= e' * b
    ensures 2 * p * a * (x * (a * (a * a))) <= e' * (y * (b * (b * b)))
  {
    var a3, b2, b3 := a * (a * a), b * b, b * (b * b);
    MulMono2(p * a * x, e * y, 2 * a * (a * a), t * b2);
    MulMono(e * t, e' * b, y * b2);
    TakeLeft(p * a, x, a3, 2 * a * (a * a));
    TakeRight(e, y, t, b2);
    TakeRight(e', y, b, b2);
    assert 2 * (p * a) == 2 * p * a;
    assert e' * b * (y * b2) == e' * (y * b3);
  }

  lemma TakeLeft(q: nat, x: nat, a3: nat, r: nat)
    requires r == 2 * a3
    ensures q * x * r == 2 * q * (x * a3)
  {
    assert q * x * (2 * a3) == 2 * (q * x * a3);
    assert q * x * a3 == q * (x * a3);
  }

  lemma TakeRight(e: nat, y: nat, t: nat, b2: nat)
    ensures e * y * (t * b2) == e * t * (y * b2) == e * (y * (t * b2))
  {
    assert e * y * (t * b2) == e * (y * (t * b2));
    assert y * (t * b2) == t * (y * b2);
  }

  /**
   * The whole fraction: e^65536 falls below 2^frac * 2^(16 * 65536) by less than a factor 3^48, which is e itself
   * falling short by less than one part in 1200.
   */
  lemma FracPowerWithin(frac: nat, t: seq<nat>, k: nat)
    requires Roots(t) && frac < 0x1_0000 && k == FRACTION_DIGITS
    ensures Pow2(frac) * Power(UNIT, Pow2(k)) <= Power(FracPower(frac, t, 16), Pow2(k)) * Power(3, 3 * k)
  {
    var e, n := FracPower(frac, t, 16), Pow2(k);
    hide Power, Pow2, FracPower;
    FracPowerAbove(frac, t, k);
    assert Shr(frac, 0) == frac;
    FractionUnit(k);
    UnitPower(n);
    PowerPositive(UNIT, n);
    ThreePerUnit(Power(UNIT, n), Power(NEXT, n), 3 * k, Pow2(frac) * Power(UNIT, n), Power(e, n));
  }

  lemma ThreePerUnit(a: nat, b: nat, c: nat, l: nat, e: nat)
    requires 0 < a && b <= 3 * a && l * Power(a, c) <= e * Power(b, c)
    ensures l <= e * Power(3, c)
  {
    hide Power;
    PowerMono(b, 3 * a, c);
    PowerTimes(3, a, c);
    PowerPositive(a, c);
    WholeBound(l, Power(a, c), e, Power(b, c), Power(3, c));
  }

  lemma WholeBound(l: nat, x: nat, e: nat, y: nat, c: nat)
    requires l * x <= e * y && y <= c * x && x > 0
    ensures l <= e * c
  {
    MulMono(y, c * x, e);
    assert c * x * e == e * c * x;
    MulCancel(l, e * c, x);
  }

  // ----- the tables -----

  /** l is 16 binary digits of log2(c / 2^16), never above and less than five units of its last place below. */
  ghost predicate LogOf(l: nat, c: nat, k: nat) {
    Pow2(l) * Pow2(16 * Pow2(k)) <= Power(c, Pow2(k)) < Pow2(l + 5) * Pow2(16 * Pow2(k))
  }

  /**
   * Entry i of the confidence table is 20 times the logarithm of (i + 1/2) / pres * 256 in 16 binary digits, the
   * confidence counting as at least 1.
   */
  lemma ConfAccurate(t: seq<nat>, pres: nat, i: nat, k: nat)
    requires |t| == pres && i < pres && k == FRACTION_DIGITS
    requires forall j :: 0 <= j < pres ==> t[j] == 20 * Log2Q16(ConfQ16(j, pres))
    ensures exists c: nat, l: nat :: t[i] == 20 * l && LogOf(l, c, k) && c >= 0x1_0000
                           && (2 * i + 1) * 0x80_0000 < (c + 1) * pres
                           && (c > 0x1_0000 ==> c * pres <= (2 * i + 1) * 0x80_0000)
  {
    hide *;
    var c := ConfQ16(i, pres);
    var l := Log2Q16(c);
    assert t[i] == 20 * l;
    ConfIs(i, pres);
    LogIs(l, c, k);
  }

  lemma LogIs(l: nat, c: nat, k: nat)
    requires c >= 0x1_0000 && l == Log2Q16(c) && k == FRACTION_DIGITS
    ensures LogOf(l, c, k)
  {
    hide Pow2, Power, Log2Q16;
    Log2Below(c, k);
    Log2Above(c, k);
  }

  lemma ConfIs(i: nat, pres: nat)
    requires i < pres
    ensures var c := ConfQ16(i, pres);
      && c >= 0x1_0000 && (2 * i + 1) * 0x80_0000 < (c + 1) * pres
      && (c > 0x1_0000 ==> c * pres <= (2 * i + 1) * 0x80_0000)
  {
    var n := (2 * i + 1) * 128 * 0x1_0000;
    assert n == (2 * i + 1) * 0x80_0000;
    DivBounds(n, pres);
    var q := n / pres;
    var c := ConfQ16(i, pres);
    assert c == if q < 0x1_0000 then 0x1_0000 else q;
    assert (q + 1) * pres == q * pres + pres;
    MulMono(q + 1, c + 1, pres);
  }

  /** e is 2^(frac / 2^16) in Q16: never above, and below by at most 48 truncations. */
  ghost predicate PowerOf(e: nat, frac: nat, k: nat) {
    && e >= UNIT
    && Power(e, Pow2(k)) <= Pow2(frac) * Power(UNIT, Pow2(k)) <= Power(e, Pow2(k)) * Power(3, 3 * k)
  }

  /** Entry f of n of the table of halves is 2^28 divided by a power of two of f / n, rounded down to 16 digits. */
  lemma ExpAccurate(t: seq<nat>, twoPow: seq<nat>, n: nat, f: nat, k: nat)
    requires Roots(twoPow) && n > 0 && FractionTable(t, twoPow, n) && f < |t| && k == FRACTION_DIGITS
    ensures exists e: nat, frac: nat :: PowerOf(e, frac, k)
                              && frac * n <= f * 0x1_0000 < (frac + 1) * n
                              && t[f] * e <= 0x1000_0000 * 0x1_0000 < (t[f] + 1) * e
  {
    var frac := FracOf(f, n);
    var e := FracPower(frac, twoPow, 16);
    FracIs(f, n);
    assert e >= UNIT && t[f] == Distribution.WSCALE * 0x1_0000 / e;
    assert FRACTION_DIGITS == 16 && Distribution.WSCALE == 0x1000_0000 && UNIT == 0x1_0000;
    hide *;
    QuotientIs(0x1000_0000 * 0x1_0000, e);
    FracPowerIs(frac, twoPow, e, k);
  }

  lemma FracPowerIs(frac: nat, t: seq<nat>, e: nat, k: nat)
    requires Roots(t) && frac < 0x1_0000 && k == FRACTION_DIGITS && e == FracPower(frac, t, 16) && e >= UNIT
    ensures PowerOf(e, frac, k)
  {
    hide Power, Pow2, FracPower, Roots;
    FracPowerBelow(frac, t, k);
    assert Shr(frac, 0) == frac;
    FracPowerWithin(frac, t, k);
  }

  lemma FracIs(f: nat, n: nat)
    requires f < n
    ensures var q := FracOf(f, n); q * n <= f * 0x1_0000 < (q + 1) * n && q < 0x1_0000
  {
    DivBounds(f * 0x1_0000, n);
    var q := FracOf(f, n);
    assert (q + 1) * n == q * n + n;
    DivBelow(0x1_0000, f * 0x1_0000, n);
  }

  lemma QuotientIs(n: nat, e: nat)
    requires e > 0
    ensures n / e >= 0 && n / e * e <= n < (n / e + 1) * e
  {
    DivBounds(n, e);
    DivNat(n, e);
    assert (n / e + 1) * e == n / e * e + e;
  }
}
