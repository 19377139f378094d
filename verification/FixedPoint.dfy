module FixedPoint {
  // The integer builders of the lookup tables: square root, base-2 logarithm and powers, without floating point.

  import opened Words
  import opened Arith
  import opened Occurrences
  import opened Distribution
  import opened NoDivide
  import opened Bitwise

  // ----- integer square root -----

  ghost predicate IsRoot(n: nat, r: nat) {
    r * r <= n < (r + 1) * (r + 1)
  }

  /**
   * Between rounds: s is the root found so far, p the place of the next digit (0 at the end), x what
   * is left of n, and r is twice the root times the place.
   */
  ghost predicate Rooting(n: nat, x: nat, r: nat, bit: nat, s: nat, p: nat) {
    && s * s + x == n
    && bit == p * p
    && (if p == 0 then r == s && n < (s + 1) * (s + 1) else r == 2 * (s * p) && n < (s + 2 * p) * (s + 2 * p))
    && s + 2 * p <= TWO32 && s < TWO32
    && (p == 0 || IsPow2(p))
  }

  lemma Halves(p: nat)
    requires IsPow2(p)
    ensures p / 2 == 0 || IsPow2(p / 2)
    ensures p == 1 || p == 2 * (p / 2)
    ensures p * p / 4 == p / 2 * (p / 2)
  {
    if p > 1 {
      QuarterSquare(p, p / 2);
    }
  }

  lemma QuarterSquare(p: nat, q: nat)
    requires p == 2 * q
    ensures p * p / 4 == q * q
  {
    assert p * p == q * q * 4;
    MulDiv(q * q, 4);
  }

  lemma SquareStep(s: nat, p: nat)
    ensures (s + p) * (s + p) == s * s + 2 * (s * p) + p * p
  {
  }

  /** The word r + bit is a difference of squares below 2^64, and it is at most x exactly when the digit is 1. */
  lemma DigitTest(n: nat, x: nat, r: nat, bit: nat, s: nat, p: nat)
    requires Rooting(n, x, r, bit, s, p) && p > 0
    ensures r + bit < TWO64
    ensures x >= r + bit <==> (s + p) * (s + p) <= n
  {
    SquareStep(s, p);
    MulMono2(s + p, TWO32 - 1, s + p, TWO32 - 1);
    MulMono(0, s, s);
  }

  lemma RootRound(n: nat, x: nat, r: nat, bit: nat, s: nat, p: nat)
    requires Rooting(n, x, r, bit, s, p) && p > 0
    ensures x < r + bit ==> Rooting(n, x, r / 2, bit / 4, s, p / 2)
    ensures x >= r + bit ==> Rooting(n, x - (r + bit), r / 2 + bit, bit / 4, s + p, p / 2)
  {
    DigitTest(n, x, r, bit, s, p);
    Halves(p);
    SquareStep(s, p);
    if p == 1 {
      assert s + 1 + 1 == s + 2 * p;
    } else {
      var q := p / 2;
      HalfPlace(s, p, q);
      assert s + p + 2 * q == s + 2 * p;
    }
  }

  lemma HalfPlace(s: nat, p: nat, q: nat)
    requires p == 2 * q
    ensures 2 * (s * p) / 2 == 2 * (s * q)
    ensures 2 * (s * p) / 2 + p * p == 2 * ((s + p) * q)
  {
    assert s * p == 2 * (s * q);
    assert (s + p) * q == s * q + p * q;
    assert p * p == 2 * (p * q);
  }

  /** Digit-by-digit square root; exact for every 64-bit input. */
  method Isqrt64(x0: uint64) returns (r: uint64)
    ensures IsRoot(x0, r)
  {
    var x: uint64, bit: uint64 := x0, 0x4000_0000_0000_0000;
    ghost var p: nat, s: nat := 0x8000_0000, 0;
    r := 0;
    TopPlace(x0);
    hide Rooting;
    while bit > x
      invariant Rooting(x0, x, 0, bit, 0, p)
      decreases bit
    {
      SkipPlace(x0, x, bit, p);
      bit := bit / 4;
      p := p / 2;
    }
    while bit > 0
      invariant Rooting(x0, x, r, bit, s, p)
      decreases bit
    {
      PlaceOf(x0, x, r, bit, s, p);
      DigitTest(x0, x, r, bit, s, p);
      RootRound(x0, x, r, bit, s, p);
      RootFits(x0, x, r, bit, s, p);
      if x >= r + bit {
        x := x - (r + bit);
        r := r / 2 + bit;
        s := s + p;
      } else {
        r := r / 2;
      }
      bit := bit / 4;
      p := p / 2;
    }
    PlaceOf(x0, x, r, bit, s, p);
    RootDone(x0, x, r, s);
  }

  lemma TopPlace(n: uint64)
    ensures Rooting(n, n, 0, 0x4000_0000_0000_0000, 0, 0x8000_0000)
  {
    Pow2Values();
    Pow2Add(15, 16);
    PowerOfTwo(31);
  }

  lemma PlaceOf(n: nat, x: nat, r: nat, bit: nat, s: nat, p: nat)
    requires Rooting(n, x, r, bit, s, p)
    ensures bit > 0 <==> p > 0
  {
    if p > 0 {
      MulMono(1, p, p);
    }
  }

  lemma SkipPlace(n: nat, x: nat, bit: nat, p: nat)
    requires Rooting(n, x, 0, bit, 0, p) && bit > x
    ensures Rooting(n, x, 0, bit / 4, 0, p / 2)
  {
    PlaceOf(n, x, 0, bit, 0, p);
    RootRound(n, x, 0, bit, 0, p);
  }

  lemma RootFits(n: nat, x: nat, r: nat, bit: nat, s: nat, p: nat)
    requires Rooting(n, x, r, bit, s, p) && r + bit < TWO64
    ensures r / 2 + bit < TWO64
  {
  }

  lemma RootDone(n: nat, x: nat, r: nat, s: nat)
    requires Rooting(n, x, r, 0, s, 0)
    ensures IsRoot(n, r)
  {
  }

  // ----- base-2 logarithm -----

  /** The position of the highest bit of x. */
  function Msb(x: nat): (k: nat)
    requires x > 0
    ensures Pow2(k) <= x < Pow2(k + 1)
  {
    if x == 1 then 0 else Msb(x / 2) + 1
  }

  /** k rounds of squaring a mantissa in [2^16, 2^17): each round yields one more binary digit of the logarithm. */
  function LogDigits(m: nat, res: nat, k: nat): nat
    decreases k
  {
    if k == 0 then res
    else
      var sq := m * m / 0x1_0000;
      if sq >= 0x2_0000 then LogDigits(sq / 2, 2 * res + 1, k - 1) else LogDigits(sq, 2 * res, k - 1)
  }

  function Mantissa(x: nat): nat
    requires x >= 0x1_0000
  {
    Pow2Values();
    MsbAtLeast(x, 16);
    Shr(x, Msb(x) - 16)
  }

  /** Sixteen binary digits of log2(x / 2^16) for x >= 2^16, rounded down. */
  function Log2Q16(x: nat): nat
    requires x >= 0x1_0000
  {
    Pow2Values();
    MsbAtLeast(x, 16);
    LogDigits(Mantissa(x), Msb(x) - 16, 16)
  }

  lemma MsbAtLeast(x: nat, k: nat)
    requires x >= Pow2(k)
    ensures Msb(x) >= k
  {
    Pow2Mono(Msb(x) + 1, k);
  }

  method Log2Loop(x: uint32) returns (res: nat)
    requires x >= 0x1_0000
    ensures res == Log2Q16(x)
  {
    var msb, t := 0, x;
    assert Msb(x) == Msb(x) + 0;
    while t > 1
      invariant t > 0 && Msb(x) == Msb(t) + msb
    {
      t := t / 2;
      msb := msb + 1;
    }
    Pow2Values();
    MsbAtLeast(x, 16);
    res := msb - 16;
    var m := Shr(x, msb - 16);
    for i := 0 to 16
      invariant LogDigits(m, res, 16 - i) == Log2Q16(x)
    {
      m := m * m / 0x1_0000;
      res := 2 * res;
      if m >= 0x2_0000 {
        m := m / 2;
        res := res + 1;
      }
    }
  }

  predicate IsMantissa(m: nat) {
    0x1_0000 <= m < 0x2_0000
  }

  lemma SquareMantissa(m: nat)
    requires IsMantissa(m)
    ensures 0x1_0000 <= m * m / 0x1_0000 < 0x4_0000
    ensures m * m >= 0x1_0000 * (m * m / 0x1_0000)
  {
    MulMono2(0x1_0000, m, 0x1_0000, m);
    MulMono2(m, 0x1_FFFF, m, 0x1_FFFF);
    DivBounds(m * m, 0x1_0000);
  }

  lemma MantissaRange(x: nat)
    requires x >= 0x1_0000
    ensures Msb(x) >= 16 && IsMantissa(Mantissa(x))
    ensures Mantissa(x) * Pow2(Msb(x) - 16) <= x
  {
    Pow2Values();
    MsbAtLeast(x, 16);
    var k := Msb(x) - 16;
    ShrIsDiv(x, k);
    Pow2Values();
    Pow2Add(k, 16);
    Pow2Add(k, 17);
    assert Pow2(17) == 0x2_0000;
    DivAtLeast(0x1_0000, x, Pow2(k));
    DivBelow(0x2_0000, x, Pow2(k));
  }

  /** The digits stay within one unit of the integer part. */
  lemma {:induction false} LogDigitsRange(m: nat, res: nat, k: nat)
    requires IsMantissa(m)
    ensures res * Pow2(k) <= LogDigits(m, res, k) < (res + 1) * Pow2(k)
    decreases k
  {
    if k > 0 {
      SquareMantissa(m);
      var sq := m * m / 0x1_0000;
      var p := Pow2(k - 1);
      assert res * Pow2(k) == 2 * res * p && (res + 1) * Pow2(k) == (2 * res + 2) * p;
      if sq >= 0x2_0000 {
        LogDigitsRange(sq / 2, 2 * res + 1, k - 1);
        assert (2 * res + 1) * p == 2 * res * p + p;
      } else {
        LogDigitsRange(sq, 2 * res, k - 1);
        assert (2 * res + 1) * p == 2 * res * p + p;
        assert (2 * res + 2) * p == (2 * res + 1) * p + p;
      }
    }
  }

  /** A larger mantissa, or a larger integer part, never gives a smaller logarithm. */
  lemma {:induction false} LogDigitsMono(m: nat, res: nat, m': nat, res': nat, k: nat)
    requires IsMantissa(m) && IsMantissa(m')
    requires res < res' || (res == res' && m <= m')
    ensures LogDigits(m, res, k) <= LogDigits(m', res', k)
    decreases k
  {
    if k > 0 {
      SquareMantissa(m);
      SquareMantissa(m');
      var sq, sq' := m * m / 0x1_0000, m' * m' / 0x1_0000;
      if m <= m' {
        MulMono2(m, m', m, m');
        DivMono(m * m, m' * m', 0x1_0000);
      }
      var a, r := if sq >= 0x2_0000 then sq / 2 else sq, if sq >= 0x2_0000 then 2 * res + 1 else 2 * res;
      var a', r' := if sq' >= 0x2_0000 then sq' / 2 else sq', if sq' >= 0x2_0000 then 2 * res' + 1 else 2 * res';
      LogDigitsMono(a, r, a', r', k - 1);
    }
  }

  lemma Log2Mono(x: nat, y: nat)
    requires 0x1_0000 <= x <= y
    ensures Log2Q16(x) <= Log2Q16(y)
  {
    MantissaRange(x);
    MantissaRange(y);
    Pow2Mono(Msb(y) + 1, Msb(x));
    if Msb(x) == Msb(y) {
      var p := Pow2(Msb(x) - 16);
      ShrIsDiv(x, Msb(x) - 16);
      ShrIsDiv(y, Msb(x) - 16);
      DivMono(x, y, p);
    }
    LogDigitsMono(Mantissa(x), Msb(x) - 16, Mantissa(y), Msb(y) - 16, 16);
  }

  function Power(b: nat, e: nat): nat {
    if e == 0 then 1 else b * Power(b, e - 1)
  }

  lemma {:induction false} PowerAdd(b: nat, m: nat, n: nat)
    ensures Power(b, m + n) == Power(b, m) * Power(b, n)
  {
    if m > 0 {
      PowerAdd(b, m - 1, n);
      assert Power(b, m + n) == b * Power(b, m - 1 + n);
      assert b * (Power(b, m - 1) * Power(b, n)) == Power(b, m) * Power(b, n);
    }
  }

  /**
   * From mantissa m after n-th powers, 2^res * m * 2^(16n) <= x^n * 2^16, k more squarings keep the
   * logarithm below the true one: 2^digits * 2^(16 * n * 2^k) <= x^(n * 2^k).
   */
  lemma {:induction false} LogDigitsBelow(x: nat, n: nat, m: nat, res: nat, k: nat)
    requires IsMantissa(m)
    requires Pow2(res) * m * Pow2(16 * n) <= Power(x, n) * 0x1_0000
    ensures Pow2(LogDigits(m, res, k)) * Pow2(16 * (n * Pow2(k))) <= Power(x, n * Pow2(k))
    decreases k
  {
    if k == 0 {
      assert n * Pow2(0) == n;
      DropMantissa(Pow2(res), m, Pow2(16 * n), Power(x, n));
    } else {
      SquareMantissa(m);
      var sq := m * m / 0x1_0000;
      Pow2Add(16 * n, 16 * n);
      assert 16 * n + 16 * n == 16 * (2 * n);
      PowerAdd(x, n, n);
      Pow2Add(res, res);
      SquareBound(Pow2(res), m, Pow2(16 * n), Power(x, n), sq);
      assert 2 * n * Pow2(k - 1) == n * Pow2(k);
      if sq >= 0x2_0000 {
        TakeDigit(Pow2(2 * res), sq, Pow2(16 * (2 * n)), Power(x, 2 * n));
        assert Pow2(2 * res + 1) == 2 * Pow2(2 * res);
        LogDigitsBelow(x, 2 * n, sq / 2, 2 * res + 1, k - 1);
      } else {
        LogDigitsBelow(x, 2 * n, sq, 2 * res, k - 1);
      }
    }
  }

  lemma DropMantissa(a: nat, m: nat, b: nat, c: nat)
    requires a * m * b <= c * 0x1_0000 && m >= 0x1_0000
    ensures a * b <= c
  {
    assert a * m * b == a * b * m;
    MulMono(0x1_0000, m, a * b);
    MulCancel(a * b, c, 0x1_0000);
  }

  lemma SquareBound(a: nat, m: nat, b: nat, c: nat, sq: nat)
    requires a * m * b <= c * 0x1_0000 && m * m >= 0x1_0000 * sq
    ensures a * a * sq * (b * b) <= c * c * 0x1_0000
  {
    var l, r := a * m * b, c * 0x1_0000;
    MulMono2(l, r, l, r);
    assert l * l == (a * a) * (b * b) * (m * m);
    MulMono(0x1_0000 * sq, m * m, (a * a) * (b * b));
    assert 0x1_0000 * sq * ((a * a) * (b * b)) == a * a * sq * (b * b) * 0x1_0000;
    assert r * r == c * c * 0x1_0000 * 0x1_0000;
    MulCancel(a * a * sq * (b * b), c * c * 0x1_0000, 0x1_0000);
  }

  lemma TakeDigit(a: nat, sq: nat, b: nat, c: nat)
    requires a * sq * b <= c * 0x1_0000
    ensures 2 * a * (sq / 2) * b <= c * 0x1_0000
  {
    MulMono(2 * (sq / 2), sq, a * b);
    assert 2 * a * (sq / 2) * b == 2 * (sq / 2) * (a * b);
    assert a * sq * b == sq * (a * b);
  }

  lemma LogBelow(x: nat, ip: nat, m: nat, k: nat)
    requires IsMantissa(m) && m * Pow2(ip) <= x
    ensures Pow2(LogDigits(m, ip, k)) * Pow2(16 * Pow2(k)) <= Power(x, Pow2(k))
  {
    PowerOne(x);
    StartBound(m, Pow2(ip), x);
    LogDigitsBelow(x, 1, m, ip, k);
    assert 1 * Pow2(k) == Pow2(k);
  }

  lemma StartBound(m: nat, p: nat, x: nat)
    requires m * p <= x
    ensures p * m * 0x1_0000 <= x * 0x1_0000
  {
  }

  /** The binary digits of a logarithm that follow its point. */
  const FRACTION_DIGITS := 16

  /**
   * The logarithm is never above the true one: 2^res * 2^(16 * 65536) <= x^65536.  The number of digits is a
   * parameter only so that the powers it is an exponent of are not multiplied out.
   */
  lemma Log2Below(x: nat, k: nat)
    requires x >= 0x1_0000 && k == FRACTION_DIGITS
    ensures Pow2(Log2Q16(x)) * Pow2(16 * Pow2(k)) <= Power(x, Pow2(k))
  {
    MantissaRange(x);
    hide LogDigits, Pow2, Power;
    LogBelow(x, Msb(x) - 16, Mantissa(x), k);
  }

  lemma PowerOne(x: nat)
    ensures Power(x, 1) == x && Pow2(16 * 1) == 0x1_0000
  {
    Pow2Values();
    assert Power(x, 1) == x * Power(x, 0);
  }

  // ----- the tables -----

  /** The confidence at table index i in Q16, at least 1. */
  function ConfQ16(i: nat, pres: nat): (c: nat)
    requires pres > 0
    ensures c >= 0x1_0000
  {
    var c := (2 * i + 1) * 128 * 0x1_0000 / pres;
    if c < 0x1_0000 then 0x1_0000 else c
  }

  lemma ConfBelow(i: nat, pres: nat)
    requires i < pres
    ensures ConfQ16(i, pres) < 0x100_0000
  {
    DivBelow(0x100_0000, (2 * i + 1) * 128 * 0x1_0000, pres);
  }

  lemma ConfMono(i: nat, j: nat, pres: nat)
    requires i <= j && pres > 0
    ensures ConfQ16(i, pres) <= ConfQ16(j, pres)
  {
    DivMono((2 * i + 1) * 128 * 0x1_0000, (2 * j + 1) * 128 * 0x1_0000, pres);
  }

  lemma Log2Below8(x: nat)
    requires 0x1_0000 <= x < 0x100_0000
    ensures Log2Q16(x) < 8 * LOG2_UNIT
  {
    MantissaRange(x);
    Pow2Values();
    assert Pow2(24) == 0x100_0000 by {
      Pow2Add(8, 16);
    }
    Pow2Mono(24, Msb(x));
    LogDigitsRange(Mantissa(x), Msb(x) - 16, 16);
    MulMono(Msb(x) - 15, 8, Pow2(16));
  }

  /** 20 log2(confidence) for each quantised probability; the table never decreases. */
  method BuildConf(pres: nat) returns (t: seq<nat>)
    requires 0 < pres <= LOG2_UNIT
    ensures |t| == pres && forall i :: 0 <= i < pres ==> t[i] == 20 * Log2Q16(ConfQ16(i, pres))
    ensures forall i :: 0 <= i < pres ==> t[i] < 20 * 8 * LOG2_UNIT
    ensures forall i, j :: 0 <= i <= j < pres ==> t[i] <= t[j]
  {
    t := [];
    for i := 0 to pres
      invariant |t| == i && forall k :: 0 <= k < i ==> t[k] == 20 * Log2Q16(ConfQ16(k, pres)) < 20 * 8 * LOG2_UNIT
    {
      ConfBelow(i, pres);
      Log2Below8(ConfQ16(i, pres));
      var l := Log2Loop(ConfQ16(i, pres));
      t := t + [20 * l];
    }
    forall i, j | 0 <= i <= j < pres
      ensures t[i] <= t[j]
    {
      ConfMono(i, j, pres);
      Log2Mono(ConfQ16(i, pres), ConfQ16(j, pres));
    }
  }

  /** Each entry is the root of its predecessor, starting from 2, in Q16. */
  ghost predicate Roots(t: seq<nat>) {
    && |t| == 17 && t[0] == 0x2_0000
    && (forall k :: 1 <= k < 17 ==> IsRoot(t[k - 1] * 0x1_0000, t[k]))
    && (forall k :: 0 <= k < 17 ==> 0x1_0000 <= t[k] <= 0x2_0000)
  }

  /** 2^(2^-k) in Q16 for k = 0..16, by repeated square roots; all lie between 1 and 2. */
  method BuildTwoPow() returns (t: seq<nat>)
    ensures Roots(t)
  {
    t := [0x2_0000];
    for k := 1 to 17
      invariant |t| == k && t[0] == 0x2_0000
      invariant forall j :: 0 <= j < k ==> 0x1_0000 <= t[j] <= 0x2_0000
      invariant forall j :: 1 <= j < k ==> IsRoot(t[j - 1] * 0x1_0000, t[j])
    {
      hide IsRoot;
      var r := Isqrt64(t[k - 1] * 0x1_0000);
      RootBetween(t[k - 1] * 0x1_0000, r);
      t := t + [r];
    }
  }

  lemma RootBetween(n: nat, r: nat)
    requires 0x1_0000_0000 <= n <= 0x2_0000_0000 && IsRoot(n, r)
    ensures 0x1_0000 <= r <= 0x2_0000
  {
    if r < 0x1_0000 {
      MulMono2(r + 1, 0x1_0000, r + 1, 0x1_0000);
    } else if r > 0x2_0000 {
      MulMono2(0x2_0001, r, 0x2_0001, r);
    }
  }

  /** The product of the roots for the set bits of a 16-bit fraction, the k highest ones. */
  function FracPower(frac: nat, twoPow: seq<nat>, k: nat): (e: nat)
    requires |twoPow| == 17 && k <= 16
  {
    if k == 0 then 0x1_0000
    else
      var e := FracPower(frac, twoPow, k - 1);
      if Shr(frac, 16 - k) % 2 == 1 then ScaledProduct(e, twoPow[k]) else e
  }

  function ScaledProduct(e: nat, t: nat): nat {
    DivNat(e * t, 0x1_0000);
    e * t / 0x1_0000
  }

  /** WSCALE divided by the fractional power of two of each index. */
  ghost predicate FractionTable(t: seq<nat>, twoPow: seq<nat>, n: nat)
    requires |twoPow| == 17 && n > 0
  {
    |t| <= n && forall f :: 0 <= f < |t| ==>
      var e2 := FracPower(FracOf(f, n), twoPow, 16); e2 >= 0x1_0000 && t[f] == WSCALE * 0x1_0000 / e2
  }

  function FracOf(f: nat, n: nat): nat
    requires n > 0
  {
    DivNat(f * 0x1_0000, n);
    f * 0x1_0000 / n
  }

  /** WSCALE * 2^(-f / n): the factors of the set bits of the fraction, multiplied and divided out. */
  method BuildExp2(n: nat) returns (t: seq<nat>)
    requires n > 0
    ensures |t| == n && t[0] == WSCALE && forall f :: 0 <= f < n ==> t[f] <= WSCALE
    ensures exists twoPow :: Roots(twoPow) && FractionTable(t, twoPow, n)
  {
    var twoPow := BuildTwoPow();
    t := [];
    assert |twoPow| == 17;
    hide Roots, FracPower;
    for f := 0 to n
      invariant |t| == f && (f > 0 ==> t[0] == WSCALE) && forall g :: 0 <= g < f ==> t[g] <= WSCALE
      invariant |twoPow| == 17 && FractionTable(t, twoPow, n)
    {
      var e2 := FractionPower(FracOf(f, n), twoPow);
      if f == 0 {
        DivUnique(0, n, 0, 0);
      }
      FracBelow(e2);
      t := t + [WSCALE * 0x1_0000 / e2];
    }
  }

  lemma FracBelow(e2: nat)
    requires e2 >= 0x1_0000
    ensures 0 <= WSCALE * 0x1_0000 / e2 <= WSCALE
    ensures e2 == 0x1_0000 ==> WSCALE * 0x1_0000 / e2 == WSCALE
  {
    MulMono(0x1_0000, e2, WSCALE + 1);
    DivBelow(WSCALE + 1, WSCALE * 0x1_0000, e2);
    DivNat(WSCALE * 0x1_0000, e2);
  }

  lemma {:induction false} ShrZero(k: nat)
    ensures Shr(0, k) == 0
  {
    if k > 0 {
      ShrZero(k - 1);
    }
  }

  method FractionPower(frac: nat, twoPow: seq<nat>) returns (e2: nat)
    requires Roots(twoPow)
    ensures e2 == FracPower(frac, twoPow, 16) && e2 >= 0x1_0000 && (frac == 0 ==> e2 == 0x1_0000)
  {
    e2 := 0x1_0000;
    for k := 1 to 17
      invariant e2 == FracPower(frac, twoPow, k - 1)
      invariant e2 >= 0x1_0000 && (frac == 0 ==> e2 == 0x1_0000)
    {
      ShrZero(16 - k);
      hide Shr;
      if Shr(frac, 16 - k) % 2 == 1 {
        MulMono2(e2, e2, 0x1_0000, twoPow[k]);
        DivAtLeast(e2, e2 * twoPow[k], 0x1_0000);
        e2 := ScaledProduct(e2, twoPow[k]);
      }
    }
  }

  // ----- the fractional powers are never above the true ones -----

  lemma {:induction false} PowerMono(a: nat, b: nat, n: nat)
    requires a <= b
    ensures Power(a, n) <= Power(b, n)
  {
    if n > 0 {
      PowerMono(a, b, n - 1);
      MulMono2(a, b, Power(a, n - 1), Power(b, n - 1));
    }
  }

  lemma {:induction false} PowerTimes(a: nat, b: nat, n: nat)
    ensures Power(a * b, n) == Power(a, n) * Power(b, n)
  {
    if n > 0 {
      PowerTimes(a, b, n - 1);
      var x, y := Power(a, n - 1), Power(b, n - 1);
      assert Power(a * b, n) == a * b * (x * y);
      assert Power(a, n) == a * x && Power(b, n) == b * y;
      hide Power;
      Interleave(a, b, x, y);
    }
  }

  lemma Interleave(a: nat, b: nat, x: nat, y: nat)
    ensures a * b * (x * y) == a * x * (b * y)
  {
    assert a * b * (x * y) == a * (b * (x * y));
    assert b * (x * y) == x * (b * y);
    assert a * (x * (b * y)) == a * x * (b * y);
  }

  lemma {:induction false} PowerPositive(a: nat, n: nat)
    requires a > 0
    ensures Power(a, n) > 0
  {
    if n > 0 {
      PowerPositive(a, n - 1);
      MulMono(1, a, Power(a, n - 1));
    }
  }

  lemma PowerDouble(a: nat, n: nat)
    ensures Power(a, 2 * n) == Power(a, n) * Power(a, n)
  {
    PowerAdd(a, n, n);
  }

  /** The k-th root is at most 2^(2^-k). */
  lemma {:induction false} RootPower(t: seq<nat>, k: nat)
    requires Roots(t) && k <= 16
    ensures Power(t[k], Pow2(k)) <= 2 * Power(0x1_0000, Pow2(k))
  {
    if k == 0 {
      PowerOne(t[0]);
      PowerOne(0x1_0000);
    } else {
      var n, u := Pow2(k - 1), 0x1_0000;
      RootPower(t, k - 1);
      assert IsRoot(t[k - 1] * u, t[k]);
      assert Pow2(k) == 2 * n;
      hide Power, Pow2;
      PowerDouble(t[k], n);
      PowerTimes(t[k], t[k], n);
      PowerMono(t[k] * t[k], t[k - 1] * u, n);
      PowerTimes(t[k - 1], u, n);
      PowerDouble(u, n);
      TwiceSquare(Power(t[k], 2 * n), Power(t[k - 1], n), Power(u, n));
    }
  }

  lemma TwiceSquare(x: nat, a: nat, v: nat)
    requires x <= a * v && a <= 2 * v
    ensures x <= 2 * (v * v)
  {
    MulMono(a, 2 * v, v);
    assert 2 * v * v == 2 * (v * v);
  }

  /** (e2 / 2^16)^(2^k) <= 2^(the k highest bits of the fraction); with all 16 bits, e2 <= 2^(frac / 2^16) * 2^16. */
  lemma {:induction false} FracPowerBelow(frac: nat, t: seq<nat>, k: nat)
    requires Roots(t) && k <= 16 && frac < 0x1_0000
    ensures Power(FracPower(frac, t, k), Pow2(k)) <= Pow2(Shr(frac, 16 - k)) * Power(0x1_0000, Pow2(k))
  {
    if k == 0 {
      Pow2Values();
      NoHighBits(frac, 16);
    } else {
      FracPowerBelow(frac, t, k - 1);
      RootPower(t, k);
      assert Pow2(k) == 2 * Pow2(k - 1);
      assert Shr(frac, 17 - k) == Shr(frac, 16 - k) / 2;
      FracPowerStep(FracPower(frac, t, k - 1), t[k], Pow2(k - 1), Shr(frac, 16 - k));
    }
  }

  lemma NoHighBits(frac: nat, k: nat)
    requires frac < Pow2(k)
    ensures Shr(frac, k) == 0
  {
    ShrIsDiv(frac, k);
    DivUnique(frac, Pow2(k), 0, frac);
  }

  lemma FracPowerStep(e: nat, t: nat, n: nat, s: nat)
    requires Power(e, n) <= Pow2(s / 2) * Power(0x1_0000, n)
    requires Power(t, 2 * n) <= 2 * Power(0x1_0000, 2 * n)
    ensures Power(if s % 2 == 1 then ScaledProduct(e, t) else e, 2 * n) <= Pow2(s) * Power(0x1_0000, 2 * n)
  {
    var u, q := 0x1_0000, s / 2;
    PowerDouble(e, n);
    PowerDouble(u, n);
    Pow2Add(q, q);
    SquareOfBound(Power(e, n), Pow2(q), Power(u, n));
    assert Power(e, 2 * n) <= Pow2(2 * q) * Power(u, 2 * n);
    if s % 2 == 1 {
      var e' := ScaledProduct(e, t);
      DivBounds(e * t, u);
      PowerMono(e' * u, e * t, 2 * n);
      PowerTimes(e', u, 2 * n);
      PowerTimes(e, t, 2 * n);
      PowerPositive(u, 2 * n);
      assert Pow2(s) == 2 * Pow2(2 * q);
      CancelUnit(Power(e', 2 * n), Power(e, 2 * n), Power(t, 2 * n), Pow2(2 * q), Power(u, 2 * n));
    }
  }

  lemma SquareOfBound(a: nat, p: nat, v: nat)
    requires a <= p * v
    ensures a * a <= p * p * (v * v)
  {
    MulMono2(a, p * v, a, p * v);
    assert p * v * (p * v) == p * p * (v * v);
  }

  lemma CancelUnit(x: nat, a: nat, b: nat, p: nat, v: nat)
    requires v > 0 && x * v <= a * b && a <= p * v && b <= 2 * v
    ensures x <= 2 * p * v
  {
    MulMono2(a, p * v, b, 2 * v);
    assert p * v * (2 * v) == 2 * p * v * v;
    MulCancel(x, 2 * p * v, v);
  }

  /** The tables of a build: what the distribution's bounds rely on. */
  method BuildLuts(presBits: nat, fracBits: nat) returns (t: Luts)
    requires presBits <= 16 && fracBits <= 16
    ensures GoodLuts(t) && |t.confLog2| == Pow2(presBits) && |t.exp2Frac| == Pow2(fracBits)
    ensures t.exp2Step * |t.exp2Frac| == LOG2_UNIT
    ensures forall i, j :: 0 <= i <= j < |t.confLog2| ==> t.confLog2[i] <= t.confLog2[j]
    ensures forall i :: 0 <= i < |t.confLog2| ==> t.confLog2[i] == 20 * Log2Q16(ConfQ16(i, |t.confLog2|))
    ensures exists twoPow :: Roots(twoPow) && FractionTable(t.exp2Frac, twoPow, |t.exp2Frac|)
  {
    Pow2Mono(presBits, 16);
    Pow2Values();
    Pow2Add(16 - fracBits, fracBits);
    var expLog2 := seq(MAX_DEPTH + 1, n => 94548 * n);
    var conf := BuildConf(Pow2(presBits));
    var frac := BuildExp2(Pow2(fracBits));
    t := Luts(expLog2, conf, frac, Pow2(16 - fracBits));
  }
}
