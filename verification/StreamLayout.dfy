/** Where everything stands in a stream, byte by byte, and what a reader makes of a header that is cut short. */
module StreamLayout {
  import opened Words
  import opened Arith
  import opened LittleEndian
  import opened CodecModel
  import opened Container
  import Crc
  import Varint

  // ----- the fields -----

  /** Byte i of a length field holds seven bits of the number, and a mark unless it is the last one. */
  lemma {:induction false} FieldByte(v: nat, i: nat)
    requires i < |Varint.Field(v)|
    ensures Varint.Field(v)[i] == v / Pow2(7 * i) % 128 + if i < |Varint.Field(v)| - 1 then 128 else 0
  {
    if i > 0 {
      FieldByte(v / 128, i - 1);
      Pow2Add(7, 7 * (i - 1));
      assert Pow2(7) == 128;
      hide Pow2;
      DivDiv(v, 128, Pow2(7 * (i - 1)));
    } else {
      assert v / Pow2(0) == v;
    }
  }

  /** The number of k bytes of a length field needs all of them. */
  predicate NeedsAll(v: nat, k: nat) {
    k >= 1 && v < Pow2(7 * k) && (k > 1 ==> Pow2(7 * (k - 1)) <= v)
  }

  /** A length field is as short as it can be. */
  lemma {:induction false} FieldShortest(v: nat)
    ensures NeedsAll(v, |Varint.Field(v)|)
  {
    if v >= 128 {
      FieldShortest(v / 128);
      FieldGrows(v);
      hide Varint.Field, NeedsAll;
      NeedsOneMore(v, |Varint.Field(v / 128)|);
    } else {
      assert Pow2(7) == 128;
    }
  }

  lemma FieldGrows(v: nat)
    requires v >= 128
    ensures |Varint.Field(v)| == |Varint.Field(v / 128)| + 1
  {
  }

  lemma NeedsOneMore(v: nat, k: nat)
    requires v >= 128 && NeedsAll(v / 128, k)
    ensures NeedsAll(v, k + 1)
  {
    assert Pow2(7) == 128 && Pow2(0) == 1;
    hide Pow2;
    Pow2Add(7, 7 * k);
    Pow2Add(7, 7 * (k - 1));
    assert 7 + 7 * k == 7 * (k + 1) && 7 + 7 * (k - 1) == 7 * k;
    SevenMore(v, Pow2(7 * k), Pow2(7 * (k - 1)));
  }

  lemma SevenMore(v: nat, p: nat, low: nat)
    ensures v / 128 < p ==> v < 128 * p
    ensures low <= v / 128 ==> 128 * low <= v
  {
    DivBounds(v, 128);
  }

  /** Byte i of a little-endian field. */
  lemma {:induction false} LeByte(v: nat, k: nat, i: nat)
    requires i < k
    ensures Le(v, k)[i] == v / Pow2(8 * i) % 256
  {
    if i > 0 {
      LeByte(v / 256, k - 1, i - 1);
      Pow2Add(8, 8 * (i - 1));
      assert Pow2(8) == 256;
      hide Pow2;
      DivDiv(v, 256, Pow2(8 * (i - 1)));
    } else {
      assert v / Pow2(0) == v;
    }
  }

  // ----- the header -----

  /** The k bytes of h from 1 on are the number n: seven bits each, lowest first, all but the last marked. */
  predicate LengthAt(h: seq<byte>, k: nat, n: nat) {
    && 1 <= k && 1 + k <= |h|
    && (forall i: nat :: i < k ==> h[1 + i] == n / Pow2(7 * i) % 128 + if i < k - 1 then 128 else 0)
    && NeedsAll(n, k)
  }

  /** The four bytes of h from o on are the word c, lowest first. */
  predicate WordAt(h: seq<byte>, o: nat, c: uint32) {
    o + 4 <= |h| && forall i: nat :: i < 4 ==> h[o + i] == c / Pow2(8 * i) % 256
  }

  /** The bytes of a header: the flags 1, 2 and 4; k bytes of the length; the checksum; the id. */
  predicate LaidOut(h: seq<byte>, k: nat, sd: bool, crcOn: bool, idOn: bool, n: nat, crc: uint32, id: seq<byte>) {
    && |id| == 16
    && |h| == 1 + k + (if crcOn then 4 else 0) + (if idOn then 16 else 0)
    && h[0] == (if crcOn then 1 else 0) + (if idOn then 2 else 0) + (if sd then 4 else 0)
    && LengthAt(h, k, n)
    && (crcOn ==> WordAt(h, 1 + k, crc))
    && (idOn ==> h[|h| - 16..] == id)
  }

  lemma FieldAt(h: seq<byte>, t: byte, n: nat, rest: seq<byte>)
    requires h == [t] + Varint.Field(n) + rest
    ensures LengthAt(h, |Varint.Field(n)|, n)
  {
    var f := Varint.Field(n);
    FieldShortest(n);
    hide Pow2, Varint.Field;
    forall i: nat | i < |f|
      ensures h[1 + i] == n / Pow2(7 * i) % 128 + if i < |f| - 1 then 128 else 0
    {
      assert h[1 + i] == f[i];
      FieldByte(n, i);
    }
  }

  lemma ChecksumAt(h: seq<byte>, before: seq<byte>, c: uint32, rest: seq<byte>)
    requires h == before + Le(c, 4) + rest
    ensures WordAt(h, |before|, c)
  {
    var f := Le(c, 4);
    hide Pow2, Le;
    forall i: nat | i < 4
      ensures h[|before| + i] == c / Pow2(8 * i) % 256
    {
      assert h[|before| + i] == f[i];
      LeByte(c, 4, i);
    }
  }

  lemma PartsLaidOut(t: byte, f: seq<byte>, crc: seq<byte>, id: seq<byte>, sd: bool, crcOn: bool, idOn: bool, n: nat,
                     c: uint32, own: seq<byte>)
    requires t == Tag(crcOn, idOn, sd) && f == Varint.Field(n)
    requires crc == (if crcOn then Le(c, 4) else []) && id == (if idOn then own else []) && |own| == 16
    ensures LaidOut([t] + f + crc + id, |f|, sd, crcOn, idOn, n, c, own)
  {
    var h := [t] + f + crc + id;
    assert h == [t] + f + (crc + id);
    hide Varint.Field, Le, LengthAt, WordAt;
    FieldAt(h, t, n, crc + id);
    if crcOn {
      ChecksumAt(h, [t] + f, c, id);
    }
    assert idOn ==> h[|h| - 16..] == id;
  }

  lemma HeaderLaidOut(p: Prior, sd: bool, crcOn: bool, idOn: bool, msg: seq<byte>)
    requires |p.id| == ID_LEN
    ensures exists k :: LaidOut(Header(p, sd, crcOn, idOn, msg), k, sd, crcOn, idOn, |msg|, Crc.Crc32(msg), p.id)
  {
    var c := Crc.Crc32(msg);
    var crc, id := if crcOn then Le(c, 4) else [], if idOn then p.id else [];
    var t, f := Tag(crcOn, idOn, sd), Varint.Field(|msg|);
    assert Header(p, sd, crcOn, idOn, msg) == [t] + f + crc + id;
    assert ID_LEN == 16;
    hide *;
    PartsLaidOut(t, f, crc, id, sd, crcOn, idOn, |msg|, c, p.id);
  }

  // ----- reading -----

  /** The bits of the tag above the three flags are not looked at. */
  lemma SpareBits(id: seq<byte>, t: byte, rest: seq<byte>)
    ensures Parse(id, [t] + rest) == Parse(id, [t % 8] + rest)
  {
    AndFlag(t);
    AndFlag(t % 8);
    LowFlags(t);
    assert ([t] + rest)[1..] == rest == ([t % 8] + rest)[1..];
    hide Varint.FieldLength, Varint.Groups, Has, FromLe, U64;
    var used := Varint.FieldLength(rest, 0);
    assert ([t] + rest)[1 + used..] == rest[used..] == ([t % 8] + rest)[1 + used..];
    SameFlags(t);
  }

  lemma LowFlags(t: byte)
    ensures t % 2 == t % 8 % 2 && t / 2 % 2 == t % 8 / 2 % 2 && t / 2 / 2 % 2 == t % 8 / 2 / 2 % 2
  {
    var q, r := t / 8, t % 8;
    assert t == 8 * q + r;
    assert t / 2 == 4 * q + r / 2;
    assert t / 2 / 2 == 2 * q + r / 2 / 2;
  }

  lemma SameFlags(t: byte)
    ensures Has(t, TAG_CRC) == Has(t % 8, TAG_CRC) && Has(t, TAG_ID) == Has(t % 8, TAG_ID)
    ensures Has(t, TAG_SDELTA) == Has(t % 8, TAG_SDELTA)
  {
    AndFlag(t);
    AndFlag(t % 8);
    LowFlags(t);
  }

  lemma CutInField(id: seq<byte>, t: byte, n: uint64, j: nat)
    requires j < |Varint.Field(n)|
    ensures Parse(id, [t] + Varint.Field(n)[..j]) == Refused(Corrupted)
  {
    var f := Varint.Field(n)[..j];
    NoFieldYet(n, j);
    assert ([t] + f)[1..] == f;
    hide Varint.Field, Varint.FieldLength;
  }

  lemma NoFieldYet(v: uint64, n: nat)
    requires n < |Varint.Field(v)|
    ensures Varint.FieldLength(Varint.Field(v)[..n], 0) == 0
  {
    var s := Varint.Field(v)[..n];
    Varint.FieldOf(v);
    Varint.FieldFound(s, 0);
    assert forall i :: 0 <= i < |s| ==> s[i] == Varint.Field(v)[i] >= 128;
  }

  lemma CutAfterField(id: seq<byte>, t: byte, n: uint64, rest: seq<byte>)
    requires |rest| < (if Has(t, TAG_CRC) then 4 else 0) + (if Has(t, TAG_ID) then ID_LEN else 0)
    ensures Parse(id, [t] + (Varint.Field(n) + rest)) == Refused(Corrupted)
  {
    hide Varint.Field, Has, FromLe, Parse;
    LengthOfHeader(id, t, n, rest);
  }

  lemma NothingToParse(id: seq<byte>)
    ensures Parse(id, []) == Refused(Corrupted)
  {
  }

  /** The three parts of a header: the tag, the length, and the optional fields together. */
  lemma HeaderParts(p: Prior, sd: bool, crcOn: bool, idOn: bool, msg: seq<byte>) returns (t: byte, tail: seq<byte>)
    requires |p.id| == ID_LEN
    ensures Header(p, sd, crcOn, idOn, msg) == [t] + Varint.Field(|msg|) + tail
    ensures |tail| == (if Has(t, TAG_CRC) then 4 else 0) + (if Has(t, TAG_ID) then ID_LEN else 0)
  {
    var crc, id := if crcOn then Le(Crc.Crc32(msg), 4) else [], if idOn then p.id else [];
    t, tail := Tag(crc != [], id != [], sd), crc + id;
    TagBits(crc != [], id != [], sd);
    assert Header(p, sd, crcOn, idOn, msg) == Assembled(sd, |msg|, crc, id);
    assert Assembled(sd, |msg|, crc, id) == [t] + Varint.Field(|msg|) + crc + id;
    assert |crc| == (if crcOn then 4 else 0) && |id| == if idOn then ID_LEN else 0;
    hide *;
    assert [t] + Varint.Field(|msg|) + crc + id == [t] + Varint.Field(|msg|) + tail;
  }

  /** A header cut short anywhere is refused as corrupted, whoever reads it. */
  lemma CutShort(p: Prior, q: Prior, sd: bool, crcOn: bool, idOn: bool, msg: seq<byte>, j: nat)
    requires |p.id| == |q.id| == ID_LEN && |msg| < TWO64 && j < |Header(p, sd, crcOn, idOn, msg)|
    ensures Parse(q.id, Header(p, sd, crcOn, idOn, msg)[..j]) == Refused(Corrupted)
  {
    var n: uint64 := |msg|;
    hide *;
    var t, tail := HeaderParts(p, sd, crcOn, idOn, msg);
    var f := Varint.Field(n);
    NothingToParse(q.id);
    Cut(t, f, tail, j);
    if 0 < j <= |f| {
      CutInField(q.id, t, n, j - 1);
    } else if j > |f| {
      CutAfterField(q.id, t, n, tail[..j - 1 - |f|]);
    }
  }

  lemma Cut(t: byte, f: seq<byte>, tail: seq<byte>, j: nat)
    requires j <= 1 + |f| + |tail|
    ensures var h := [t] + f + tail;
      h[..j] == if j == 0 then [] else if j <= |f| then [t] + f[..j - 1] else [t] + (f + tail[..j - 1 - |f|])
  {
  }
}
