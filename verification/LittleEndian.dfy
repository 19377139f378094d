/**
 * Numbers as bytes, lowest byte first; records of fixed-width fields; arrays of fixed-size elements.  Writing
 * and reading are inverse at each level, whatever bytes follow, and whatever bytes are read a field
 * is a number of its width.  The container uses it for its checksum field, the prior file for its
 * header and tables.
 */
module LittleEndian {
  import opened Words
  import opened Arith

  function Le(v: nat, k: nat): (s: seq<byte>)
    ensures |s| == k
  {
    if k == 0 then [] else [v % 256] + Le(v / 256, k - 1)
  }

  function FromLe(s: seq<byte>): nat {
    if s == [] then 0 else s[0] + 256 * FromLe(s[1..])
  }

  /** The number fits in k bytes. */
  predicate Fits(v: nat, k: nat) {
    v < Pow2(8 * k)
  }

  lemma {:induction false} LeBack(v: nat, k: nat)
    requires Fits(v, k)
    ensures FromLe(Le(v, k)) == v
  {
    if k > 0 {
      Pow2Add(8, 8 * (k - 1));
      assert Pow2(8) == 256;
      DivBelow(Pow2(8 * (k - 1)), v, 256);
      LeBack(v / 256, k - 1);
      assert Le(v, k)[1..] == Le(v / 256, k - 1);
    }
  }

  lemma WordFits(c: uint32)
    ensures Fits(c, 4)
  {
    Pow2Values();
  }

  /** A 32-bit word takes four bytes, and they give it back. */
  lemma WordBack(c: uint32)
    ensures |Le(c, 4)| == 4 && FromLe(Le(c, 4)) == c
  {
    hide Le, FromLe, Fits;
    WordFits(c);
    LeBack(c, 4);
  }

  lemma {:induction false} FromLeInjective(s: seq<byte>, t: seq<byte>)
    requires |s| == |t| && FromLe(s) == FromLe(t)
    ensures s == t
  {
    if s != [] {
      LowByte(s[0], FromLe(s[1..]), t[0], FromLe(t[1..]));
      FromLeInjective(s[1..], t[1..]);
      assert s == [s[0]] + s[1..] && t == [t[0]] + t[1..];
    }
  }

  lemma LowByte(a: byte, q: int, b: byte, r: int)
    requires a as int + 256 * q == b as int + 256 * r
    ensures a == b && q == r
  {
  }

  // ----- records -----

  function Sum(ws: seq<nat>): nat {
    if ws == [] then 0 else ws[0] + Sum(ws[1..])
  }

  lemma {:induction false} SumConcat(a: seq<nat>, b: seq<nat>)
    ensures Sum(a + b) == Sum(a) + Sum(b)
  {
    if a == [] {
      assert a + b == b;
    } else {
      SumConcat(a[1..], b);
      assert (a + b)[1..] == a[1..] + b;
    }
  }

  /** n fields of one width. */
  function Run(n: nat, w: nat): (ws: seq<nat>)
    ensures |ws| == n
  {
    seq(n, i => w)
  }

  lemma {:induction false} SumRun(n: nat, w: nat)
    ensures Sum(Run(n, w)) == n * w
  {
    if n > 0 {
      SumRun(n - 1, w);
      assert Run(n, w)[1..] == Run(n - 1, w);
      assert n * w == (n - 1) * w + w;
    }
  }

  predicate FieldsFit(ws: seq<nat>, vs: seq<nat>) {
    |ws| == |vs| && forall i :: 0 <= i < |ws| ==> Fits(vs[i], ws[i])
  }

  /** The fields of a record one after the other. */
  function Struct(ws: seq<nat>, vs: seq<nat>): (s: seq<byte>)
    requires |ws| == |vs|
    ensures |s| == Sum(ws)
  {
    if ws == [] then [] else Le(vs[0], ws[0]) + Struct(ws[1..], vs[1..])
  }

  function FieldsOf(ws: seq<nat>, s: seq<byte>): (vs: seq<nat>)
    requires |s| >= Sum(ws)
    ensures |vs| == |ws|
  {
    if ws == [] then [] else [FromLe(s[..ws[0]])] + FieldsOf(ws[1..], s[ws[0]..])
  }

  /** Reading a record gives its fields, whatever follows it. */
  lemma {:induction false} StructBack(ws: seq<nat>, vs: seq<nat>, rest: seq<byte>)
    requires FieldsFit(ws, vs)
    ensures FieldsOf(ws, Struct(ws, vs) + rest) == vs
  {
    hide Fits, Le, FromLe;
    if ws != [] {
      var s := Struct(ws, vs) + rest;
      LeBack(vs[0], ws[0]);
      StructBack(ws[1..], vs[1..], rest);
      assert s[..ws[0]] == Le(vs[0], ws[0]);
      assert s[ws[0]..] == Struct(ws[1..], vs[1..]) + rest;
      assert vs == [vs[0]] + vs[1..];
    }
  }

  lemma {:induction false} FromLeFits(s: seq<byte>)
    ensures Fits(FromLe(s), |s|)
  {
    if s != [] {
      FromLeFits(s[1..]);
      Pow2Add(8, 8 * (|s| - 1));
      assert Pow2(8) == 256;
    }
  }

  /** Whatever bytes are read, every field is a number of its width. */
  lemma {:induction false} FieldsOfFit(ws: seq<nat>, s: seq<byte>)
    requires |s| >= Sum(ws)
    ensures FieldsFit(ws, FieldsOf(ws, s))
  {
    hide Fits, FromLe;
    if ws != [] {
      FromLeFits(s[..ws[0]]);
      FieldsOfFit(ws[1..], s[ws[0]..]);
    }
  }

  // ----- arrays -----

  /** The elements of an array one after the other. */
  function Elements<T>(enc: T -> seq<byte>, xs: seq<T>): seq<byte> {
    if xs == [] then [] else Elements(enc, xs[..|xs| - 1]) + enc(xs[|xs| - 1])
  }

  lemma {:induction false} ElementsSize<T>(enc: T -> seq<byte>, xs: seq<T>, size: nat)
    requires forall x :: x in xs ==> |enc(x)| == size
    ensures |Elements(enc, xs)| == |xs| * size
  {
    if xs != [] {
      ElementsSize(enc, xs[..|xs| - 1], size);
      assert |xs| * size == (|xs| - 1) * size + size;
    }
  }

  /** The bytes of one element. */
  function Slot(s: seq<byte>, size: nat, i: nat): (e: seq<byte>)
    requires (i + 1) * size <= |s|
    ensures |e| == size
  {
    assert (i + 1) * size == i * size + size;
    MulMono(0, i, size);
    s[i * size..i * size + size]
  }

  lemma {:induction false} ElementFound<T>(enc: T -> seq<byte>, xs: seq<T>, size: nat, i: nat)
    requires (forall x :: x in xs ==> |enc(x)| == size) && i < |xs|
    ensures (i + 1) * size <= |Elements(enc, xs)|
    ensures Slot(Elements(enc, xs), size, i) == enc(xs[i])
  {
    var n := |xs| - 1;
    var front := Elements(enc, xs[..n]);
    assert Elements(enc, xs) == front + enc(xs[n]);
    ElementsSize(enc, xs[..n], size);
    ElementsSize(enc, xs, size);
    hide Elements;
    MulMono(i + 1, |xs|, size);
    OneMore(i, size);
    if i < n {
      MulMono(i + 1, n, size);
      ElementFound(enc, xs[..n], size, i);
    }
  }

  lemma OneMore(i: nat, size: nat)
    ensures (i + 1) * size == i * size + size && i * size >= 0
  {
    MulMono(0, i, size);
  }

  /** n elements read from the front of a section. */
  function Array<T>(dec: seq<byte> -> T, size: nat, s: seq<byte>, n: nat): (xs: seq<T>)
    requires n * size <= |s|
    ensures |xs| == n
  {
    seq(n, i requires 0 <= i < n => (InArray(size, n, i); dec(Slot(s, size, i))))
  }

  lemma InArray(size: nat, n: nat, i: nat)
    requires i < n
    ensures (i + 1) * size <= n * size
  {
    MulMono(i + 1, n, size);
  }

  /** Reading an array gives its elements. */
  lemma ArrayBack<T>(enc: T -> seq<byte>, dec: seq<byte> -> T, size: nat, xs: seq<T>)
    requires forall x :: x in xs ==> |enc(x)| == size && dec(enc(x)) == x
    ensures |Elements(enc, xs)| == |xs| * size
    ensures Array(dec, size, Elements(enc, xs), |xs|) == xs
  {
    ElementsSize(enc, xs, size);
    forall i | 0 <= i < |xs|
      ensures Array(dec, size, Elements(enc, xs), |xs|)[i] == xs[i]
    {
      ElementFound(enc, xs, size, i);
    }
  }

  /** Only the first n * size bytes matter. */
  lemma ArrayFront<T>(dec: seq<byte> -> T, size: nat, s: seq<byte>, t: seq<byte>, n: nat)
    requires n * size <= |s| && s <= t
    ensures n * size <= |t| && Array(dec, size, t, n) == Array(dec, size, s, n)
  {
    forall i | 0 <= i < n
      ensures Array(dec, size, t, n)[i] == Array(dec, size, s, n)[i]
    {
      InArray(size, n, i);
      assert Slot(t, size, i) == Slot(s, size, i);
    }
  }
}
