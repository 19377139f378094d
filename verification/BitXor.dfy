/**
 * Bitwise exclusive or on natural numbers, bit by bit from the lowest.  The checksum needs its group laws
 * (zero, inverse, commutativity, associativity), that it stays below a power of two,
 * that the top bit of one operand alone survives, and that it adds numbers whose bits do
 * not overlap.
 */
module BitXor {
  import opened Words

  function Xor(a: nat, b: nat): nat {
    if a == 0 && b == 0 then 0 else 2 * Xor(a / 2, b / 2) + (if a % 2 == b % 2 then 0 else 1)
  }

  lemma XorParts(a: nat, b: nat)
    ensures Xor(a, b) / 2 == Xor(a / 2, b / 2)
    ensures Xor(a, b) % 2 == (if a % 2 == b % 2 then 0 else 1)
  {
  }

  lemma {:induction false} XorZero(a: nat)
    ensures Xor(a, 0) == a
  {
    if a > 0 {
      XorZero(a / 2);
    }
  }

  lemma {:induction false} XorSelf(a: nat)
    ensures Xor(a, a) == 0
  {
    if a > 0 {
      XorSelf(a / 2);
    }
  }

  lemma {:induction false} XorComm(a: nat, b: nat)
    ensures Xor(a, b) == Xor(b, a)
  {
    if a > 0 || b > 0 {
      XorComm(a / 2, b / 2);
    }
  }

  lemma {:induction false} XorAssoc(a: nat, b: nat, c: nat)
    ensures Xor(Xor(a, b), c) == Xor(a, Xor(b, c))
  {
    if a > 0 || b > 0 || c > 0 {
      XorAssoc(a / 2, b / 2, c / 2);
      XorParts(a, b);
      XorParts(b, c);
      XorParts(Xor(a, b), c);
      XorParts(a, Xor(b, c));
    }
  }

  lemma XorCancel(a: nat, b: nat, d: nat)
    requires Xor(a, d) == Xor(b, d)
    ensures a == b
  {
    XorAssoc(a, d, d);
    XorAssoc(b, d, d);
    XorSelf(d);
    XorZero(a);
    XorZero(b);
  }

  lemma XorShuffle(a: nat, b: nat, p: nat, q: nat)
    ensures Xor(Xor(a, b), Xor(p, q)) == Xor(Xor(a, p), Xor(b, q))
  {
    XorAssoc(a, b, Xor(p, q));
    XorAssoc(b, p, q);
    XorComm(b, p);
    XorAssoc(p, b, q);
    XorAssoc(a, p, Xor(b, q));
  }

  lemma {:induction false} XorBound(a: nat, b: nat, k: nat)
    requires a < Pow2(k) && b < Pow2(k)
    ensures Xor(a, b) < Pow2(k)
  {
    if k > 0 {
      XorBound(a / 2, b / 2, k - 1);
      XorParts(a, b);
    }
  }

  /** A top bit that only one side has stays. */
  lemma {:induction false} XorTop(a: nat, b: nat, k: nat)
    requires a < Pow2(k) <= b < Pow2(k + 1)
    ensures Xor(a, b) >= Pow2(k)
  {
    if k > 0 {
      XorTop(a / 2, b / 2, k - 1);
      XorParts(a, b);
    } else {
      assert a == 0 && b == 1;
      XorParts(0, 1);
    }
  }

  /** Disjoint parts add. */
  lemma {:induction false} XorDisjoint(a: nat, q: nat, k: nat)
    requires a < Pow2(k)
    ensures Xor(a, q * Pow2(k)) == a + q * Pow2(k)
  {
    if k == 0 {
      XorComm(0, q);
      XorZero(q);
    } else {
      var b, h := q * Pow2(k), q * Pow2(k - 1);
      HalfTimes(q, k);
      HalfBelow(a, k);
      hide *;
      XorDisjoint(a / 2, q, k - 1);
      XorParts(a, b);
    }
  }

  lemma HalfBelow(a: nat, k: nat)
    requires a < Pow2(k) && k > 0
    ensures a / 2 < Pow2(k - 1)
  {
  }

  lemma HalfTimes(q: nat, k: nat)
    requires k > 0
    ensures var b, h := q * Pow2(k), q * Pow2(k - 1); b == 2 * h && h >= 0 && b / 2 == h && b % 2 == 0
  {
    var p, h := Pow2(k - 1), q * Pow2(k - 1);
    assert Pow2(k) == 2 * p;
    hide *;
    Doubles(q, p);
  }

  lemma Doubles(q: nat, p: nat)
    ensures q * (2 * p) == 2 * (q * p) && q * p >= 0
  {
  }
}
