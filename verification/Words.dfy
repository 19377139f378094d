/**
 * Machine words, bits and bit strings shared by every component.  Words are subsets of the integers, so
 * every truncation is written out (U32, U64).  Bit strings are sequences of 0 and 1, most significant bit first:
 * Val reads a whole string as a number, Prefix its first bits padded with zeros, and ByteBits and BytesBits spell
 * bytes as the coder transmits them.
 */
module Words {

  type bit = x: int | 0 <= x < 2
  type byte = x: int | 0 <= x < 0x100
  type uint32 = x: int | 0 <= x < 0x1_0000_0000
  type uint64 = x: int | 0 <= x < 0x1_0000_0000_0000_0000

  const TWO32 := 0x1_0000_0000
  const TWO64 := 0x1_0000_0000_0000_0000

  /** Conversion to an unsigned 32-bit word: the remainder modulo 2^32. */
  function U32(x: int): uint32 {
    x % TWO32
  }

  /** Conversion to an unsigned 64-bit word. */
  function U64(x: int): uint64 {
    x % TWO64
  }

  type int64 = x: int | -0x8000_0000_0000_0000 <= x < 0x8000_0000_0000_0000

  const TWO63 := 0x8000_0000_0000_0000

  /** A 32-bit word read as a signed one. */
  function Signed(v: int): int {
    if v < 0x8000_0000 then v else v - TWO32
  }

  function Pow2(n: nat): (p: nat)
    ensures p > 0
  {
    if n == 0 then 1 else 2 * Pow2(n - 1)
  }

  lemma {:induction false} Pow2Add(a: nat, b: nat)
    ensures Pow2(a + b) == Pow2(a) * Pow2(b)
  {
    if a == 0 {
    } else {
      Pow2Add(a - 1, b);
      assert Pow2(a + b) == 2 * Pow2(a - 1 + b);
    }
  }

  lemma Pow2Values()
    ensures Pow2(15) == 0x8000 && Pow2(16) == 0x1_0000
    ensures Pow2(30) == 0x4000_0000 && Pow2(32) == TWO32
  {
    assert Pow2(8) == 0x100;
    assert Pow2(15) == 0x8000;
    assert Pow2(16) == 0x1_0000;
    Pow2Add(15, 15);
    Pow2Add(16, 16);
  }

  lemma Pow2Word()
    ensures 2 * Pow2(63) == TWO64 == Pow2(64)
  {
    Pow2Values();
    Pow2Add(32, 32);
    Pow2Add(1, 63);
  }

  lemma {:induction false} Pow2Mono(a: nat, b: nat)
    ensures a <= b ==> Pow2(a) <= Pow2(b)
    ensures a < b ==> Pow2(a) < Pow2(b)
    decreases b
  {
    if a < b {
      Pow2Mono(a, b - 1);
    }
  }

  /** The number a bit string spells, most significant bit first. */
  function Val(bits: seq<bit>): nat {
    if bits == [] then 0 else 2 * Val(bits[..|bits| - 1]) + bits[|bits| - 1]
  }

  lemma ValAppend(bits: seq<bit>, b: bit)
    ensures Val(bits + [b]) == 2 * Val(bits) + b
  {
    assert (bits + [b])[..|bits|] == bits;
  }

  /** A bit string read with zeros past its end. */
  function BitAt(bits: seq<bit>, k: nat): bit {
    if k < |bits| then bits[k] else 0
  }

  /** The number spelled by the first k bits, with zeros past the end. */
  function Prefix(bits: seq<bit>, k: nat): nat {
    if k == 0 then 0 else 2 * Prefix(bits, k - 1) + BitAt(bits, k - 1)
  }

  lemma {:induction false} PrefixIsVal(bits: seq<bit>, k: nat)
    requires k <= |bits|
    ensures Prefix(bits, k) == Val(bits[..k])
  {
    if k == 0 {
    } else {
      PrefixIsVal(bits, k - 1);
      assert bits[..k][..k - 1] == bits[..k - 1];
    }
  }

  /** The k low bits of x, most significant first. */
  function Digits(x: nat, k: nat): (s: seq<bit>)
    ensures |s| == k
  {
    if k == 0 then [] else Digits(x / 2, k - 1) + [x % 2]
  }

  lemma {:induction false} ValDigits(x: nat, k: nat)
    requires x < Pow2(k)
    ensures Val(Digits(x, k)) == x
  {
    if k == 0 {
    } else {
      var y, r := x / 2, x % 2;
      assert x == 2 * y + r && Pow2(k) == 2 * Pow2(k - 1);
      assert Digits(x, k) == Digits(y, k - 1) + [r];
      hide Pow2, Digits, Val;
      ValDigits(y, k - 1);
      ValAppend(Digits(y, k - 1), r);
    }
  }

  lemma {:induction false} DigitsVal(t: seq<bit>)
    ensures Val(t) < Pow2(|t|)
    ensures Digits(Val(t), |t|) == t
  {
    if t == [] {
    } else {
      DigitsVal(t[..|t| - 1]);
    }
  }

  lemma {:induction false} ValPrepend(b: bit, t: seq<bit>)
    ensures Val([b] + t) == b * Pow2(|t|) + Val(t)
  {
    if t == [] {
      ValAppend([], b);
      assert [b] + t == [] + [b];
    } else {
      var u := t[..|t| - 1];
      ValPrepend(b, u);
      assert [b] + t == ([b] + u) + [t[|t| - 1]];
      ValAppend([b] + u, t[|t| - 1]);
      assert 2 * (b * Pow2(|u|)) == b * Pow2(|t|);
    }
  }

  /** The eight bits of a byte, most significant first. */
  function ByteBits(x: byte): (s: seq<bit>)
    ensures |s| == 8
  {
    Digits(x, 8)
  }

  /** The bits of a byte string, in transmission order. */
  function BytesBits(s: seq<byte>): (b: seq<bit>)
    ensures |b| == 8 * |s|
  {
    if s == [] then [] else BytesBits(s[..|s| - 1]) + ByteBits(s[|s| - 1])
  }

  lemma {:induction false} BytesBitsAt(s: seq<byte>, i: nat)
    requires i < |s|
    ensures BytesBits(s)[8 * i..8 * i + 8] == ByteBits(s[i])
    decreases |s|
  {
    if i < |s| - 1 {
      BytesBitsAt(s[..|s| - 1], i);
      var front := s[..|s| - 1];
      assert BytesBits(s) == BytesBits(front) + ByteBits(s[|s| - 1]);
      assert 8 * i + 8 <= |BytesBits(front)|;
    }
  }

  /** The first of k digits and the digits after it. */
  lemma SplitDigits(x: nat, k: nat)
    requires k > 0 && x < Pow2(k)
    ensures x == Digits(x, k)[0] * Pow2(k - 1) + Val(Digits(x, k)[1..])
    ensures Val(Digits(x, k)[1..]) < Pow2(k - 1)
  {
    var t := Digits(x, k);
    ValDigits(x, k);
    assert t == [t[0]] + t[1..];
    ValPrepend(t[0], t[1..]);
    DigitsVal(t[1..]);
  }

  /** Dropping the first of k digits and bringing in a zero. */
  lemma ShiftOut(x: nat, k: nat, p: nat, t: seq<bit>)
    requires k > 0 && p == Pow2(k - 1) && x < 2 * p && t == Digits(x, k)
    ensures exists v: nat :: v < p && x == t[0] * p + v && Digits(2 * v, k) == t[1..] + [0]
  {
    SplitDigits(x, k);
    var v := Val(t[1..]);
    ValAppend(t[1..], 0);
    DigitsVal(t[1..] + [0]);
    assert v < p && x == t[0] * p + v && Digits(2 * v, k) == t[1..] + [0];
  }

  /** Shifting a byte left brings out its first bit and brings in a zero. */
  lemma ShiftByte(x: byte)
    ensures ByteBits(2 * (x as int) % 0x100) == ByteBits(x)[1..] + [0]
    ensures x / 128 == ByteBits(x)[0]
  {
    assert Pow2(7) == 128;
    var t := ByteBits(x);
    ShiftOut(x, 8, 128, t);
    var v: nat :| v < 128 && x == t[0] * 128 + v && Digits(2 * v, 8) == t[1..] + [0];
    ShiftValue(x, t[0], v);
  }

  lemma ShiftValue(x: byte, b: bit, v: nat)
    requires v < 128 && x == b * 128 + v
    ensures 2 * (x as int) % 0x100 == 2 * v && x / 128 == b
  {
  }

  /** Eight bits packed into a byte come back out of it. */
  lemma ByteOfBits(t: seq<bit>)
    requires |t| == 8
    ensures Val(t) < 0x100 && ByteBits(Val(t)) == t
  {
    assert Pow2(8) == 256;
    DigitsVal(t);
  }
}
