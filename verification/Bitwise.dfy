/**
 * Bitwise AND on natural numbers, and the two masks the code uses.  Masking with a power of two minus one takes
 * the remainder, which is how slots and record positions wrap; and a number has a single bit
 * set exactly when it has no bit in common with its predecessor, which is how the code
 * tests for powers of two.
 */
module Bitwise {
  import opened Words
  import opened Arith

  function And(a: nat, b: nat): nat {
    if a == 0 || b == 0 then 0 else 2 * And(a / 2, b / 2) + a % 2 * (b % 2)
  }

  /** Exactly one bit set. */
  predicate IsPow2(n: nat) {
    n == 1 || (n > 1 && n % 2 == 0 && IsPow2(n / 2))
  }

  lemma {:induction false} PowerOfTwo(k: nat)
    ensures IsPow2(Pow2(k))
  {
    if k > 0 {
      PowerOfTwo(k - 1);
    }
  }

  /** A mask of all ones below a power of two takes the remainder. */
  lemma {:induction false} MaskIsRemainder(x: nat, n: nat)
    requires IsPow2(n)
    ensures And(x, n - 1) == x % n
    decreases n
  {
    if n > 1 {
      MaskIsRemainder(x / 2, n / 2);
      AndOdd(x, n / 2);
      RemainderByHalves(x, n / 2);
    } else {
      assert x % 1 == 0;
    }
  }

  lemma AndOdd(x: nat, h: nat)
    requires h > 0
    ensures And(x, 2 * h - 1) == 2 * And(x / 2, h - 1) + x % 2
  {
    assert (2 * h - 1) / 2 == h - 1;
  }

  lemma RemainderByHalves(x: nat, h: nat)
    requires h > 0
    ensures x % (2 * h) == 2 * (x / 2 % h) + x % 2
  {
    var y, q, m := x / 2, x / 2 / h, x / 2 % h;
    assert y == h * q + m;
    assert x == q * (2 * h) + (2 * m + x % 2) by {
      assert q * (2 * h) == 2 * (h * q);
    }
    DivUnique(x, 2 * h, q, 2 * m + x % 2);
  }

  /** n & (n - 1) is zero exactly for the powers of two. */
  lemma {:induction false} SingleBit(n: nat)
    requires n > 0
    ensures And(n, n - 1) == 0 <==> IsPow2(n)
  {
    if n > 1 {
      if n % 2 == 0 {
        SingleBit(n / 2);
        assert (n - 1) / 2 == n / 2 - 1;
      } else {
        assert (n - 1) / 2 == n / 2;
        AndSelf(n / 2);
      }
    }
  }

  lemma {:induction false} AndSelf(a: nat)
    ensures And(a, a) == a
  {
    if a > 0 {
      AndSelf(a / 2);
      var r := a % 2;
      assert r == 0 || r == 1;
      assert r * r == r && a == 2 * (a / 2) + r;
    }
  }
}
