module Crc {
  // The CRC-32 of section 8 of RFC 1952: its bit step is invertible and linear, so short bursts of damage show.

  import opened Words
  import opened Arith
  import opened BitXor
  import Bitwise

  const POLYNOMIAL := 0xEDB8_8320
  const ALL_ONES := 0xFFFF_FFFF

  /** The polynomial, if the bit shifted out is 1. */
  function Pick(low: nat): nat {
    if low == 1 then POLYNOMIAL else 0
  }

  function BitStep(c: nat): nat {
    Xor(c / 2, Pick(c % 2))
  }

  function Steps(c: nat, k: nat): nat {
    if k == 0 then c else BitStep(Steps(c, k - 1))
  }

  function ByteStep(c: nat, d: byte): nat {
    Steps(Xor(c, d), 8)
  }

  /** The register after a message. */
  function Register(c: nat, s: seq<byte>): nat {
    if s == [] then c else ByteStep(Register(c, s[..|s| - 1]), s[|s| - 1])
  }

  function Crc32(s: seq<byte>): uint32 {
    RegisterIsWord(ALL_ONES, s);
    Pow2Values();
    XorBound(Register(ALL_ONES, s), ALL_ONES, 32);
    Xor(Register(ALL_ONES, s), ALL_ONES)
  }

  // ----- the register is a 32-bit word -----

  lemma PolynomialTop()
    ensures Pow2(31) <= POLYNOMIAL < Pow2(32) && Pow2(32) == TWO32 && Pow2(31) == 0x8000_0000
  {
    Pow2Values();
    Pow2Add(15, 16);
  }

  lemma BitStepIsWord(c: nat)
    requires c < TWO32
    ensures BitStep(c) < TWO32
  {
    PolynomialTop();
    XorBound(c / 2, Pick(c % 2), 32);
  }

  lemma {:induction false} StepsIsWord(c: nat, k: nat)
    requires c < TWO32
    ensures Steps(c, k) < TWO32
  {
    if k > 0 {
      StepsIsWord(c, k - 1);
      BitStepIsWord(Steps(c, k - 1));
    }
  }

  lemma {:induction false} RegisterIsWord(c: nat, s: seq<byte>)
    requires c < TWO32
    ensures Register(c, s) < TWO32
  {
    if s != [] {
      var r, d := Register(c, s[..|s| - 1]), s[|s| - 1];
      RegisterIsWord(c, s[..|s| - 1]);
      PolynomialTop();
      XorBound(r, d, 32);
      StepsIsWord(Xor(r, d), 8);
    }
  }

  /** The loops over bytes and bits. */
  method Crc32Loop(s: seq<byte>) returns (c: uint32)
    ensures c == Crc32(s)
  {
    c := ALL_ONES;
    hide Steps, BitStep, Xor;
    for i := 0 to |s|
      invariant c == Register(ALL_ONES, s[..i])
    {
      c := ByteLoop(c, s[i]);
      assert s[..i + 1][..i] == s[..i];
    }
    assert s[..|s|] == s;
    assert Xor(c, ALL_ONES) == Crc32(s);
    c := Xor(c, ALL_ONES);
  }

  method ByteLoop(c0: uint32, d: byte) returns (c: uint32)
    ensures c == ByteStep(c0, d)
  {
    PolynomialTop();
    XorBound(c0, d, 32);
    hide BitStep, Xor, Pow2;
    c := Xor(c0, d);
    ghost var x := c;
    for k := 0 to 8
      invariant c == Steps(x, k)
    {
      BitStepIsWord(c);
      c := BitStep(c);
    }
  }

  // ----- invertible and linear -----

  /** The bit step loses nothing: the polynomial's top bit tells which way it went. */
  lemma BitStepInjective(a: nat, b: nat)
    requires a < TWO32 && b < TWO32 && BitStep(a) == BitStep(b)
    ensures a == b
  {
    PolynomialTop();
    if a % 2 == b % 2 {
      XorCancel(a / 2, b / 2, Pick(a % 2));
    } else if a % 2 == 1 {
      XorTop(a / 2, POLYNOMIAL, 31);
      XorZero(b / 2);
    } else {
      XorTop(b / 2, POLYNOMIAL, 31);
      XorZero(a / 2);
    }
  }

  lemma BitStepLinear(a: nat, b: nat)
    ensures BitStep(Xor(a, b)) == Xor(BitStep(a), BitStep(b))
  {
    XorParts(a, b);
    XorShuffle(a / 2, b / 2, Pick(a % 2), Pick(b % 2));
    XorSelf(POLYNOMIAL);
    XorZero(POLYNOMIAL);
    XorComm(0, POLYNOMIAL);
    XorZero(0);
    hide Xor;
  }

  lemma {:induction false} StepsInjective(a: nat, b: nat, k: nat)
    requires a < TWO32 && b < TWO32 && Steps(a, k) == Steps(b, k)
    ensures a == b
  {
    if k > 0 {
      StepsIsWord(a, k - 1);
      StepsIsWord(b, k - 1);
      BitStepInjective(Steps(a, k - 1), Steps(b, k - 1));
      StepsInjective(a, b, k - 1);
    }
  }

  lemma {:induction false} StepsLinear(a: nat, b: nat, k: nat)
    ensures Steps(Xor(a, b), k) == Xor(Steps(a, k), Steps(b, k))
  {
    if k > 0 {
      hide BitStep, Xor;
      StepsLinear(a, b, k - 1);
      BitStepLinear(Steps(a, k - 1), Steps(b, k - 1));
    }
  }

  lemma {:induction false} StepsAdd(a: nat, j: nat, k: nat)
    ensures Steps(Steps(a, j), k) == Steps(a, j + k)
  {
    if k > 0 {
      hide BitStep;
      StepsAdd(a, j, k - 1);
      assert Steps(a, j + k) == BitStep(Steps(a, j + k - 1));
    }
  }

  /** Zero bits shift out untouched. */
  lemma {:induction false} StepsOfShifted(x: nat, k: nat)
    ensures Steps(x * Pow2(k), k) == x
    decreases k
  {
    if k > 0 {
      assert Pow2(k) == 2 * Pow2(k - 1);
      Regroup(x, Pow2(k - 1));
      BitStepEven(x);
      assert Steps(x * Pow2(k), k) == BitStep(Steps(x * Pow2(k), k - 1));
      hide *;
      StepsOfShifted(2 * x, k - 1);
    }
  }

  lemma Regroup(x: nat, p: nat)
    ensures x * (2 * p) == 2 * x * p
  {
  }

  lemma BitStepEven(x: nat)
    ensures BitStep(2 * x) == x
  {
    XorZero(x);
  }

  // ----- bursts -----

  /** d moved up k places. */
  function Above(d: nat, k: nat): nat {
    d * Pow2(k)
  }

  /** A byte string as one number, the first byte lowest. */
  function Packed(s: seq<byte>): nat {
    if s == [] then 0 else Packed(s[..|s| - 1]) + Above(s[|s| - 1], 8 * (|s| - 1))
  }

  lemma {:induction false} PackedBound(s: seq<byte>)
    ensures Packed(s) < Pow2(8 * |s|)
  {
    if s != [] {
      var i := |s| - 1;
      PackedBound(s[..i]);
      Pow2Add(8 * i, 8);
      ByteAbove(Packed(s[..i]), s[i], Pow2(8 * i));
    }
  }

  lemma ByteAbove(low: nat, d: byte, p: nat)
    requires low < p
    ensures low + d * p < p * 256
  {
  }

  lemma {:induction false} PackedInjective(s: seq<byte>, t: seq<byte>)
    requires |s| == |t| && Packed(s) == Packed(t)
    ensures s == t
  {
    if s != [] {
      var i := |s| - 1;
      PackedBound(s[..i]);
      PackedBound(t[..i]);
      SameTop(Packed(s[..i]), s[i], Packed(t[..i]), t[i], Pow2(8 * i));
      PackedInjective(s[..i], t[..i]);
      assert s == s[..i] + [s[i]] && t == t[..i] + [t[i]];
    }
  }

  lemma SameTop(a: nat, d: nat, b: nat, e: nat, p: nat)
    requires a < p && b < p && a + d * p == b + e * p
    ensures d == e && a == b
  {
    DivUnique(a + d * p, p, d, a);
    DivUnique(a + d * p, p, e, b);
  }

  /** The register after a byte string: mix it all in at once, then step eight times per byte. */
  lemma {:induction false} RegisterOfFew(c: nat, s: seq<byte>)
    ensures Register(c, s) == Steps(Xor(c, Packed(s)), 8 * |s|)
  {
    if s == [] {
      XorZero(c);
    } else {
      var i := |s| - 1;
      RegisterOfFew(c, s[..i]);
      MixOneMore(c, s[..i], s[i]);
      assert s == s[..i] + [s[i]];
    }
  }

  lemma MixOneMore(c: nat, front: seq<byte>, d: byte)
    requires Register(c, front) == Steps(Xor(c, Packed(front)), 8 * |front|)
    ensures Register(c, front + [d]) == Steps(Xor(c, Packed(front + [d])), 8 * |front + [d]|)
  {
    var k := 8 * |front|;
    PackedBound(front);
    PackedSnoc(front, d);
    RegisterSnoc(c, front, d);
    hide *;
    PlaceAbove(Packed(front), d, k);
    OneMore(c, Packed(front), Above(d, k), d, k);
    assert 8 * |front + [d]| == k + 8;
  }

  lemma PackedSnoc(front: seq<byte>, d: byte)
    ensures Packed(front + [d]) == Packed(front) + Above(d, 8 * |front|)
  {
    assert (front + [d])[..|front|] == front;
  }

  lemma RegisterSnoc(c: nat, front: seq<byte>, d: byte)
    ensures Register(c, front + [d]) == ByteStep(Register(c, front), d)
  {
    assert (front + [d])[..|front|] == front;
  }

  lemma PlaceAbove(p: nat, d: byte, k: nat)
    requires p < Pow2(k)
    ensures Xor(p, Above(d, k)) == p + Above(d, k)
    ensures Steps(Above(d, k), k) == d
  {
    XorDisjoint(p, d, k);
    StepsOfShifted(d, k);
  }

  lemma OneMore(c: nat, p: nat, up: nat, d: byte, k: nat)
    requires Steps(up, k) == d
    ensures ByteStep(Steps(Xor(c, p), k), d) == Steps(Xor(c, Xor(p, up)), k + 8)
  {
    hide Xor, BitStep;
    XorAssoc(c, p, up);
    StepsLinear(Xor(c, p), up, k);
    StepsAdd(Xor(Xor(c, p), up), k, 8);
  }

  // ----- numbers that differ in few bits -----

  lemma HalfParts(a: nat, p: nat)
    requires p > 0
    ensures a % (2 * p) == 2 * (a / 2 % p) + a % 2 && a / (2 * p) == a / 2 / p >= 0
  {
    Bitwise.RemainderByHalves(a, p);
    DivDiv(a, 2, p);
    DivNat(a, 2 * p);
  }

  /** Equal low bits cancel. */
  lemma {:induction false} XorAbove(a: nat, b: nat, k: nat)
    requires a % Pow2(k) == b % Pow2(k)
    ensures a / Pow2(k) >= 0 && b / Pow2(k) >= 0
    ensures Xor(a, b) == Xor(a / Pow2(k), b / Pow2(k)) * Pow2(k)
  {
    if k == 0 {
      assert a / 1 == a && b / 1 == b;
    } else {
      var p := Pow2(k - 1);
      assert Pow2(k) == 2 * p;
      hide *;
      HalfParts(a, p);
      HalfParts(b, p);
      LowBits(a / 2 % p, a % 2, b / 2 % p, b % 2);
      XorAbove(a / 2, b / 2, k - 1);
      XorParts(a, b);
      Rejoin(Xor(a, b), Xor(a / 2, b / 2), Xor(a / (2 * p), b / (2 * p)), p);
    }
  }

  lemma Rejoin(x: nat, y: nat, z: nat, p: nat)
    requires x / 2 == y && x % 2 == 0 && y == z * p
    ensures x == z * (2 * p)
  {
  }

  lemma LowBits(h: int, l: int, i: int, m: int)
    requires 2 * h + l == 2 * i + m && 0 <= l < 2 && 0 <= m < 2
    ensures h == i && l == m
  {
  }

  /** Equal high bits cancel. */
  lemma {:induction false} XorBelow(a: nat, b: nat, k: nat)
    requires a / Pow2(k) == b / Pow2(k)
    ensures Xor(a, b) < Pow2(k)
  {
    if k == 0 {
      assert a / 1 == a && b / 1 == b;
      XorSelf(a);
    } else {
      DivDiv(a, 2, Pow2(k - 1));
      DivDiv(b, 2, Pow2(k - 1));
      XorBelow(a / 2, b / 2, k - 1);
      XorParts(a, b);
    }
  }

  lemma XorNonzero(a: nat, b: nat)
    requires Xor(a, b) == 0
    ensures a == b
  {
    XorSelf(b);
    XorCancel(a, b, b);
  }

  // ----- error detection -----

  /**
   * Two byte strings of one length that differ, but only within 32 consecutive bits: they agree below bit k
   * and from bit k + 32 on, in the order in which the checksum takes the bits.
   */
  predicate Burst(s: seq<byte>, t: seq<byte>, k: nat) {
    && |s| == |t| && s != t
    && Packed(s) % Pow2(k) == Packed(t) % Pow2(k)
    && Packed(s) / Pow2(k + 32) == Packed(t) / Pow2(k + 32)
  }

  /** The difference of the two as a word e at bit k. */
  lemma Difference(s: seq<byte>, t: seq<byte>, k: nat) returns (e: nat)
    requires Burst(s, t, k)
    ensures 0 < e < TWO32 && Xor(Packed(s), Packed(t)) == e * Pow2(k)
  {
    var a, b := Packed(s), Packed(t);
    XorAbove(a, b, k);
    e := Xor(a / Pow2(k), b / Pow2(k));
    Pow2Values();
    Pow2Add(k, 32);
    DivDiv(a, Pow2(k), Pow2(32));
    DivDiv(b, Pow2(k), Pow2(32));
    XorBelow(a / Pow2(k), b / Pow2(k), 32);
    if e == 0 {
      XorNonzero(a, b);
      PackedInjective(s, t);
    }
  }

  /** A difference of at most 32 bits survives any number of steps. */
  lemma DifferenceStays(e: nat, k: nat, n: nat)
    requires 0 < e < TWO32 && k <= n
    ensures Steps(e * Pow2(k), n) != 0
  {
    StepsAdd(e * Pow2(k), k, n - k);
    StepsOfShifted(e, k);
    StepsOfShifted(0, n - k);
    hide Steps;
    assert 0 * Pow2(n - k) == 0;
    if Steps(e, n - k) == 0 {
      StepsInjective(e, 0, n - k);
    }
  }

  lemma PlaceFits(e: nat, k: nat, n: nat)
    requires e > 0 && e * Pow2(k) < Pow2(n)
    ensures k <= n
  {
    MulMono(1, e, Pow2(k));
    Pow2Mono(n, k);
  }

  /** The registers after two byte strings differ as the stepped difference of the strings. */
  lemma RegistersDiffer(c: nat, s: seq<byte>, t: seq<byte>)
    requires |s| == |t|
    ensures Xor(Register(c, s), Register(c, t)) == Steps(Xor(Packed(s), Packed(t)), 8 * |s|)
  {
    RegisterOfFew(c, s);
    RegisterOfFew(c, t);
    hide Xor, Steps, Packed, Register;
    StepsLinear(Xor(c, Packed(s)), Xor(c, Packed(t)), 8 * |s|);
    XorShuffle(c, Packed(s), c, Packed(t));
    XorSelf(c);
    XorComm(0, Xor(Packed(s), Packed(t)));
    XorZero(Xor(Packed(s), Packed(t)));
  }

  /**
   * Error detection: two messages of equal length, of any size, that differ only within 32 consecutive bits, at
   * any bit offset, have different checksums.
   */
  lemma BitBurstDetected(s: seq<byte>, t: seq<byte>, k: nat)
    requires Burst(s, t, k)
    ensures Crc32(s) != Crc32(t)
  {
    var e := Difference(s, t, k);
    PackedBound(s);
    PackedBound(t);
    XorBound(Packed(s), Packed(t), 8 * |s|);
    PlaceFits(e, k, 8 * |s|);
    DifferenceStays(e, k, 8 * |s|);
    RegistersDiffer(ALL_ONES, s, t);
    if Crc32(s) == Crc32(t) {
      XorCancel(Register(ALL_ONES, s), Register(ALL_ONES, t), ALL_ONES);
      XorSelf(Register(ALL_ONES, s));
    }
  }

  lemma {:induction false} PackedConcat(s: seq<byte>, t: seq<byte>)
    ensures Packed(s + t) == Packed(s) + Above(Packed(t), 8 * |s|)
  {
    if t == [] {
      assert s + t == s;
    } else {
      var front, d := t[..|t| - 1], t[|t| - 1];
      PackedConcat(s, front);
      assert (s + t)[..|s + t| - 1] == s + front && (s + t)[|s + t| - 1] == d;
      Pow2Add(8 * |front|, 8 * |s|);
      Lift(Packed(front), d, Pow2(8 * |front|), Pow2(8 * |s|));
    }
  }

  lemma Lift(f: nat, d: nat, p: nat, q: nat)
    ensures (f + d * p) * q == f * q + d * (p * q)
  {
  }

  /** Strings that differ within four consecutive bytes differ within 32 consecutive bits. */
  lemma FourBytes(head: seq<byte>, s: seq<byte>, t: seq<byte>, tail: seq<byte>)
    requires |s| == |t| <= 4 && s != t
    ensures Burst(head + s + tail, head + t + tail, 8 * |head|)
  {
    var k := 8 * |head|;
    Middle(head, s, tail);
    Middle(head, t, tail);
    hide Packed, Pow2, Above;
    Outside(head, s, tail, k);
    Outside(head, t, tail, k);
  }

  lemma Middle(head: seq<byte>, s: seq<byte>, tail: seq<byte>)
    ensures head + s + tail == head + (s + tail) && (head + s + tail)[|head|..|head| + |s|] == s
  {
  }

  /** What the bits outside the four bytes are. */
  lemma Outside(head: seq<byte>, s: seq<byte>, tail: seq<byte>, k: nat)
    requires |s| <= 4 && k == 8 * |head|
    ensures Packed(head + (s + tail)) % Pow2(k) == Packed(head)
    ensures Packed(head + (s + tail)) / Pow2(k + 32) == Packed(tail) / Pow2(32 - 8 * |s|)
  {
    var m, n := 8 * |s|, 32 - 8 * |s|;
    PackedConcat(head, s + tail);
    PackedConcat(s, tail);
    PackedBound(head);
    PackedBound(s);
    var x, y, p := Packed(head + (s + tail)), Packed(s + tail), Pow2(k);
    DivUnique(x, p, y, Packed(head));
    DivUnique(y, Pow2(m), Packed(tail), Packed(s));
    Pow2Add(k, 32);
    Pow2Add(m, n);
    DivDiv(x, p, Pow2(32));
    DivDiv(y, Pow2(m), Pow2(n));
  }

  /** Two messages that agree except within four consecutive bytes and differ there have different checksums. */
  lemma BurstDetected(head: seq<byte>, s: seq<byte>, t: seq<byte>, tail: seq<byte>)
    requires |s| == |t| <= 4 && s != t
    ensures Crc32(head + s + tail) != Crc32(head + t + tail)
  {
    FourBytes(head, s, t, tail);
    BitBurstDetected(head + s + tail, head + t + tail, 8 * |head|);
  }
}
