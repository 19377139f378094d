/** Division-free quotients used by builds for processors without a hardware divider. */
module NoDivide {
  import opened Words
  import opened Arith
  import opened Bitwise

  /** The logical right shift of n by i places. */
  function Shr(n: nat, i: nat): nat {
    if i == 0 then n else Shr(n, i - 1) / 2
  }

  lemma {:induction false} ShrIsDiv(n: nat, i: nat)
    ensures Shr(n, i) == n / Pow2(i)
    ensures Shr(n, i) * Pow2(i) <= n
  {
    if i == 0 {
    } else {
      ShrIsDiv(n, i - 1);
      HalveQuotient(n, Pow2(i - 1), Shr(n, i - 1));
    }
  }

  lemma HalveQuotient(n: nat, p: nat, s: nat)
    requires p > 0 && s == n / p
    ensures s / 2 == n / (2 * p)
    ensures s / 2 * (2 * p) <= n
  {
    var q, b := s / 2, s % 2;
    DivBounds(n, p);
    assert s * p == q * (2 * p) + b * p;
    MulMono(b, 1, p);
    MulMono(0, b, p);
    DivUnique(n, 2 * p, q, n - q * (2 * p));
  }

  /** One round of the division: k digits found, remainder rem, digit d brought in below s1. */
  lemma DivisionRound(den: nat, k: nat, rem: nat, s1: nat, s: nat, d: nat, p: nat)
    requires rem < den && k * den + rem == s1 && s == 2 * s1 + d && d < 2
    ensures 2 * rem + d <= s
    ensures 2 * k * den + (2 * rem + d) == s
    ensures 2 * rem + d >= den ==> 2 * k + 1 <= s
    ensures (2 * k + 1) * den == 2 * k * den + den
    ensures (2 * k + 1) * p == 2 * k * p + p
    ensures 2 * k * p == k * (2 * p)
  {
    MulMono(0, k, den);
    assert 2 * k * den == 2 * (k * den);
    assert (2 * k + 1) * den == 2 * k * den + den;
    MulMono(1, den, 2 * k + 1);
  }

  /** After the digits of num above place i: q holds the quotient digits so far and rem the remainder. */
  ghost predicate Divided(num: uint64, den: uint64, i: nat, k: nat, q: nat, rem: nat) {
    q == k * Pow2(i) && k * den + rem == Shr(num, i) && rem < den
  }

  /**
   * Radix-2 shift-subtract division over the full 64-bit width.  The left shift of the remainder
   * is taken modulo 2^64, and never loses a bit.
   */
  method DivQ64(num: uint64, den: uint64) returns (q: uint64)
    ensures q == if den == 0 then 0 else num / den
  {
    if den == 0 {
      return 0;
    }
    var rem: uint64 := 0;
    q := 0;
    ghost var k: nat := 0;       // the quotient digits found so far
    var i := 64;
    NoDigitsYet(num, den);
    while i > 0
      invariant 0 <= i <= 64
      invariant Divided(num, den, i, k, q, rem)
    {
      i := i - 1;
      q, rem, k := DivRound(num, den, i, q, rem, k);
    }
    assert Pow2(0) == 1;
    DivUnique(num, den, q, rem);
  }

  method DivRound(num: uint64, den: uint64, i: nat, q0: uint64, rem0: uint64, ghost k0: nat)
    returns (q: uint64, rem: uint64, ghost k: nat)
    requires Divided(num, den, i + 1, k0, q0, rem0)
    ensures Divided(num, den, i, k, q, rem)
  {
    var bit := Shr(num, i) % 2;
    RoundKeeps(num, den, i, k0, q0, rem0, 2 * (rem0 as int) + bit);
    NoLostBit(rem0, bit, num);
    hide Divided;
    rem := U64(U64(2 * (rem0 as int)) + bit);
    if rem >= den {
      q, rem, k := q0 + Pow2(i), rem - den, 2 * k0 + 1;
    } else {
      q, k := q0, 2 * k0;
    }
  }

  lemma NoLostBit(rem: uint64, b: nat, num: uint64)
    requires b < 2 && 2 * rem + b <= num
    ensures U64(U64(2 * (rem as int)) + b) == 2 * rem + b
  {
  }

  lemma RoundKeeps(num: uint64, den: uint64, i: nat, k: nat, q: nat, rem: nat, next: nat)
    requires Divided(num, den, i + 1, k, q, rem)
    requires next == 2 * rem + Shr(num, i) % 2
    ensures next <= num
    ensures next < den ==> Divided(num, den, i, 2 * k, q, next)
    ensures next >= den ==> Divided(num, den, i, 2 * k + 1, q + Pow2(i), next - den) && q + Pow2(i) <= num
  {
    var p, s := Pow2(i), Shr(num, i);
    DivisionRound(den, k, rem, Shr(num, i + 1), s, s % 2, p);
    assert Pow2(i + 1) == 2 * p;
    ShrIsDiv(num, i);
    MulMono(1, p, s);
    if next >= den {
      MulMono(2 * k + 1, s, p);
    }
  }

  lemma NoDigitsYet(num: uint64, den: uint64)
    requires den > 0
    ensures Divided(num, den, 64, 0, 0, 0)
  {
    Pow2Values();
    Pow2Add(32, 32);
    ShrIsDiv(num, 64);
    DivUnique(num, Pow2(64), 0, num);
  }

  /** The position of the single bit of d. */
  method Log2Pow2(d: uint32) returns (s: nat)
    requires IsPow2(d)
    ensures Pow2(s) == d
  {
    s := 0;
    var t: uint32 := d;
    assert Pow2(0) == 1;
    while t > 1
      invariant IsPow2(t) && t * Pow2(s) == d
    {
      HalfTimes(t, Pow2(s));
      t := t / 2;
      s := s + 1;
    }
  }

  lemma HalfTimes(t: nat, p: nat)
    requires t % 2 == 0
    ensures t * p == t / 2 * (2 * p)
  {
    assert t == 2 * (t / 2);
  }

  /** The quotient step of the coder in the division-free build: a shift when possible, else DivQ64. */
  method Quotient(num: uint64, tot: uint32) returns (q: nat)
    requires tot > 0
    ensures q == num / tot
  {
    SingleBit(tot);
    if And(tot, tot - 1) == 0 {
      var s := Log2Pow2(tot);
      q := Shr(num, s);
      ShrIsDiv(num, s);
    } else {
      q := DivQ64(num, tot);
    }
  }
}
