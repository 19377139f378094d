/** The length field of the container: seven bits a byte, low bits first, the top bit marks more to come. */
module Varint {
  import opened Words
  import opened Arith

  const MAX_BYTES := 10

  /** The field for a number. */
  function Field(v: nat): (s: seq<byte>)
    ensures s != []
  {
    if v < 128 then [v] else [v % 128 + 128] + Field(v / 128)
  }

  /** The number that the low seven bits of the bytes spell, first byte lowest. */
  function Groups(s: seq<byte>): nat {
    if s == [] then 0 else s[0] % 128 + 128 * Groups(s[1..])
  }

  /** The shape of one field: every byte but the last is marked, and there are at most ten. */
  predicate IsField(s: seq<byte>) {
    && 1 <= |s| <= MAX_BYTES
    && (forall i :: 0 <= i < |s| - 1 ==> s[i] >= 128)
    && s[|s| - 1] < 128
  }

  // ----- writing -----

  /** Writing: take seven bits, mark the byte if more are left. */
  method Put(v0: uint64) returns (buf: seq<byte>)
    ensures buf == Field(v0)
  {
    buf := [];
    var v, more := v0, true;
    while more
      invariant Field(v0) == if more then buf + Field(v) else buf
      decreases more, v
    {
      var b: byte := v % 128;
      v := v / 128;
      if v > 0 {
        b := b + 128;
      }
      assert buf + ([b] + Field(v)) == (buf + [b]) + Field(v);
      buf := buf + [b];
      more := v > 0;
    }
  }

  lemma {:induction false} FieldSize(v: nat, k: nat)
    requires v < Pow2(7 * k) && k > 0
    ensures |Field(v)| <= k
    decreases k
  {
    if v >= 128 {
      Pow2Add(7, 7 * (k - 1));
      assert Pow2(7) == 128;
      if k == 1 {
        assert false;
      }
      DivBelow(Pow2(7 * (k - 1)), v, 128);
      FieldSize(v / 128, k - 1);
    }
  }

  /** The field of a 64-bit number has the shape of a field and spells the number. */
  lemma {:induction false} FieldSpells(v: nat)
    ensures Groups(Field(v)) == v
    ensures forall i :: 0 <= i < |Field(v)| - 1 ==> Field(v)[i] >= 128
    ensures Field(v)[|Field(v)| - 1] < 128
  {
    if v >= 128 {
      FieldSpells(v / 128);
      assert Field(v)[1..] == Field(v / 128);
    }
  }

  lemma FieldOf(v: uint64)
    ensures IsField(Field(v))
  {
    FieldSpells(v);
    TenBytes();
    FieldSize(v, MAX_BYTES);
  }

  lemma TenBytes()
    ensures Pow2(7 * MAX_BYTES) > TWO64
  {
    Pow2Values();
    Pow2Add(32, 32);
    Pow2Mono(64, 70);
  }

  // ----- reading -----

  /** The length of the field at the start of s, looked for from byte i on, or 0 if there is none. */
  function FieldLength(s: seq<byte>, i: nat): (n: nat)
    requires i <= |s|
    ensures n <= |s|
    decreases |s| - i
  {
    if i == |s| || i >= MAX_BYTES then 0 else if s[i] < 128 then i + 1 else FieldLength(s, i + 1)
  }

  lemma {:induction false} FieldFound(s: seq<byte>, i: nat)
    requires i <= |s| && i <= MAX_BYTES && forall k :: 0 <= k < i ==> s[k] >= 128
    ensures var n := FieldLength(s, i); n > 0 ==> IsField(s[..n])
    ensures FieldLength(s, i) == 0 ==> forall n :: 0 < n <= |s| ==> !IsField(s[..n])
    decreases |s| - i
  {
    if i < |s| && i < MAX_BYTES && s[i] >= 128 {
      FieldFound(s, i + 1);
    } else if i == |s| || i == MAX_BYTES {
      forall n | 0 < n <= |s|
        ensures !IsField(s[..n])
      {
        assert s[..n][n - 1] == s[n - 1];
      }
    }
  }

  lemma FieldUnique(s: seq<byte>, m: nat, n: nat)
    requires 0 < m <= |s| && 0 < n <= |s| && IsField(s[..m]) && IsField(s[..n])
    ensures m == n
  {
    assert forall i :: 0 <= i < m ==> s[..m][i] == s[i];
    assert forall i :: 0 <= i < n ==> s[..n][i] == s[i];
  }

  lemma {:induction false} GroupsAppend(s: seq<byte>, b: byte)
    ensures Groups(s + [b]) == Groups(s) + b % 128 * Pow2(7 * |s|)
    ensures Groups(s) < Pow2(7 * |s|)
  {
    if s == [] {
    } else {
      GroupsAppend(s[1..], b);
      assert (s + [b])[1..] == s[1..] + [b];
      var p, n := Pow2(7 * |s[1..]|), |s[1..]|;
      Pow2Add(7, 7 * n);
      assert Pow2(7) == 128;
      Times128(b % 128, p);
    }
  }

  lemma Times128(d: nat, p: nat)
    ensures 128 * (d * p) == d * (128 * p)
  {
  }

  /** Reading: ten bytes at most; the shifts drop what does not fit 64 bits. */
  method Get(buf: seq<byte>) returns (used: nat, v: uint64)
    ensures used == FieldLength(buf, 0)
    ensures used > 0 ==> v == U64(Groups(buf[..used]))
  {
    v := 0;
    var shift, i := 0, 0;
    while i < |buf| && i < MAX_BYTES
      invariant i <= |buf| && shift == 7 * i
      invariant v == U64(Groups(buf[..i])) && FieldLength(buf, 0) == FieldLength(buf, i)
    {
      var b := buf[i];
      assert buf[..i + 1] == buf[..i] + [b];
      GroupsAppend(buf[..i], b);
      // the bits shifted in lie above those of v, so OR is addition
      ShiftedIn(Groups(buf[..i]), b % 128, 7 * i);
      v := v + U64(b % 128 * Pow2(shift));
      if b < 128 {
        return i + 1, v;
      }
      shift := shift + 7;
      i := i + 1;
    }
    return 0, 0;
  }

  lemma ShiftedIn(g: nat, d: nat, shift: nat)
    requires g < Pow2(shift) && shift <= 63 && d < 128 && shift % 7 == 0
    ensures U64(g) == g && U64(g) + U64(d * Pow2(shift)) == U64(g + d * Pow2(shift))
  {
    var top := 63;
    Pow2Word();
    Pow2Mono(shift, top);
    if shift < top {
      Pow2Add(shift, 7);
      assert Pow2(7) == 128;
      Pow2Mono(shift + 7, top);
      MulMono(d, 127, Pow2(shift));
      Below(g, d, Pow2(shift), Pow2(top));
    } else {
      LastGroup(g, d, Pow2(top));
    }
  }

  lemma Below(g: nat, d: nat, p: nat, h: nat)
    requires g < p && d * p <= 127 * p && p * 128 <= h && 2 * h == TWO64
    ensures U64(g) == g && U64(g) + U64(d * p) == U64(g + d * p)
  {
    var n := d * p;
    assert 0 <= n && g + n < TWO64;
  }

  lemma LastGroup(g: nat, d: nat, p: nat)
    requires g < p
    ensures g + d * p % (2 * p) == (g + d * p) % (2 * p)
  {
    var q, r := d / 2, d % 2;
    Halves(d, p, q, r);
    SameLow(g, d * p, 2 * p, q, if r == 0 then 0 else p);
  }

  lemma SameLow(g: nat, n: nat, m: nat, q: nat, low: nat)
    requires n == q * m + low && g + low < m
    ensures g + n % m == (g + n) % m
  {
    DivUnique(n, m, q, low);
    DivUnique(g + n, m, q, g + low);
  }

  lemma Halves(d: nat, p: nat, q: nat, r: nat)
    requires d == 2 * q + r
    ensures r == 0 ==> d * p == q * (2 * p)
    ensures r == 1 ==> d * p == q * (2 * p) + p
  {
  }

  /** A written field is read back, whatever follows it. */
  lemma ReadBack(v: uint64, rest: seq<byte>)
    ensures var s := Field(v) + rest; FieldLength(s, 0) == |Field(v)| && U64(Groups(s[..FieldLength(s, 0)])) == v
  {
    var s := Field(v) + rest;
    FieldOf(v);
    FieldSpells(v);
    assert s[..|Field(v)|] == Field(v);
    FieldFound(s, 0);
    FieldUnique(s, |Field(v)|, FieldLength(s, 0));
  }
}
