module Container {
  // The message container: tag, length, optional CRC and prior id, payload; and the calls that write and read it.

  import opened Words
  import opened Bitwise
  import opened LittleEndian
  import opened RangeCoder
  import opened CodecModel
  import CeCompress
  import Crc
  import Varint

  datatype Error = InvalidPrior | OutputTooSmall | Corrupted | PriorIdMismatch

  datatype Outcome = Ok(bytes: seq<byte>) | Err(error: Error)

  const TAG_CRC := 1
  const TAG_ID := 2
  const TAG_SDELTA := 4
  const ID_LEN := 16

  // ----- header fields -----

  function Tag(crcOn: bool, idOn: bool, sd: bool): byte {
    (if crcOn then TAG_CRC else 0) + (if idOn then TAG_ID else 0) + (if sd then TAG_SDELTA else 0)
  }

  predicate Has(tag: byte, flag: nat) {
    And(tag, flag) != 0
  }

  lemma TagBits(crcOn: bool, idOn: bool, sd: bool)
    ensures var t := Tag(crcOn, idOn, sd);
      Has(t, TAG_CRC) == crcOn && Has(t, TAG_ID) == idOn && Has(t, TAG_SDELTA) == sd
  {
    AndFlag(Tag(crcOn, idOn, sd));
  }

  lemma AndFlag(t: nat)
    ensures And(t, 1) == t % 2 && And(t, 2) == 2 * (t / 2 % 2) && And(t, 4) == 4 * (t / 2 / 2 % 2)
  {
    assert forall x: nat :: And(x, 0) == 0;
    assert And(t, 1) == 2 * And(t / 2, 0) + t % 2;
    assert And(t / 2, 1) == 2 * And(t / 2 / 2, 0) + t / 2 % 2;
    assert And(t / 2 / 2, 1) == 2 * And(t / 2 / 2 / 2, 0) + t / 2 / 2 % 2;
  }

  /** The fields before the payload; a checksum or an id is there or empty. */
  function Assembled(sd: bool, n: nat, crc: seq<byte>, id: seq<byte>): seq<byte> {
    [Tag(crc != [], id != [], sd)] + Varint.Field(n) + crc + id
  }

  function Header(p: Prior, sd: bool, crcOn: bool, idOn: bool, msg: seq<byte>): seq<byte> {
    Assembled(sd, |msg|, if crcOn then Le(Crc.Crc32(msg), 4) else [], if idOn then p.id else [])
  }

  // ----- what a stream is -----

  /** The container of a message in one of the two symbol formats. */
  ghost predicate IsStreamAs(p: Prior, sd: bool, crcOn: bool, idOn: bool, msg: seq<byte>, stream: seq<byte>)
    requires GoodPrior(p)
  {
    exists payload ::
      && stream == Header(p, sd, crcOn, idOn, msg) + payload
      && CeCompress.IsPayload(ModelOf(p, sd), Symbols(p, sd, msg), payload)
  }

  /** What the compressor writes: structural priors use the delta format. */
  ghost predicate IsStream(p: Prior, crcOn: bool, idOn: bool, msg: seq<byte>, stream: seq<byte>)
    requires GoodPrior(p)
  {
    IsStreamAs(p, Structural(p), crcOn, idOn, msg, stream)
  }

  // ----- what reading a byte string gives -----

  datatype Parsed =
    | Refused(error: Error)
    | Fields(sd: bool, orig: uint64, hasCrc: bool, want: int, payload: seq<byte>)

  /** The header of any byte string, field by field. */
  function Parse(id: seq<byte>, input: seq<byte>): Parsed {
    if input == [] then Refused(Corrupted) else
    var used := Varint.FieldLength(input[1..], 0);
    if used == 0 then Refused(Corrupted) else
    ParseRest(id, input[0], U64(Varint.Groups(input[1..][..used])), input[1 + used..])
  }

  function ParseRest(id: seq<byte>, tag: byte, orig: uint64, rest: seq<byte>): Parsed {
    var crcLen := if Has(tag, TAG_CRC) then 4 else 0;
    if |rest| < crcLen then Refused(Corrupted) else
    var want := if crcLen == 4 then FromLe(rest[..4]) else 0;
    var rest := rest[crcLen..];
    if !Has(tag, TAG_ID) then Fields(Has(tag, TAG_SDELTA), orig, crcLen == 4, want, rest)
    else if |rest| < ID_LEN then Refused(Corrupted)
    else if rest[..ID_LEN] != id then Refused(PriorIdMismatch)
    else Fields(Has(tag, TAG_SDELTA), orig, crcLen == 4, want, rest[ID_LEN..])
  }

  /** The bytes of a payload of the given length in the given format. */
  ghost function Unpacked(p: Prior, sd: bool, payload: seq<byte>, n: nat): (dec: seq<byte>)
    requires GoodPrior(p)
    ensures |dec| == n
  {
    Actuals(p, sd, DecodedBytes(ModelOf(p, sd), BytesBits(payload), n))
  }

  /** What follows from the header fields: the capacity first, then emptiness, then the payload and its checksum. */
  ghost function Outcomes(p: Prior, f: Parsed, cap: nat): Outcome
    requires GoodPrior(p)
  {
    match f
    case Refused(e) => Err(e)
    case Fields(sd, orig, hasCrc, want, payload) =>
      if orig > cap then Err(OutputTooSmall)
      else if orig == 0 then Ok([])
      else
        var dec := Unpacked(p, sd && Structural(p), payload, orig);
        if hasCrc && Crc.Crc32(dec) != want then Err(Corrupted) else Ok(dec)
  }

  /** The outcome of decompressing any byte string: it depends on the prior, the input and the capacity only. */
  ghost function Decoded(p: Prior, input: seq<byte>, cap: nat): Outcome
    requires GoodPrior(p)
  {
    Outcomes(p, Parse(p.id, input), cap)
  }

  // ----- round trip -----

  lemma ParseOfAssembled(myid: seq<byte>, sd: bool, n: uint64, crc: seq<byte>, id: seq<byte>, payload: seq<byte>)
    requires |myid| == ID_LEN && |crc| in {0, 4} && |id| in {0, ID_LEN}
    ensures Parse(myid, Assembled(sd, n, crc, id) + payload)
         == if id != [] && id != myid then Refused(PriorIdMismatch)
            else Fields(sd, n, crc != [], if crc != [] then FromLe(crc) else 0, payload)
  {
    var t := Tag(crc != [], id != [], sd);
    TagBits(crc != [], id != [], sd);
    hide *;
    FieldsInOrder(sd, n, crc, id, payload);
    LengthOfHeader(myid, t, n, crc + (id + payload));
    RestOfHeader(myid, t, n, crc, id, payload);
  }

  lemma FieldsInOrder(sd: bool, n: nat, crc: seq<byte>, id: seq<byte>, payload: seq<byte>)
    ensures Assembled(sd, n, crc, id) + payload
         == [Tag(crc != [], id != [], sd)] + (Varint.Field(n) + (crc + (id + payload)))
  {
    hide Tag, Varint.Field;
  }

  lemma LengthOfHeader(myid: seq<byte>, t: byte, n: uint64, rest: seq<byte>)
    ensures Parse(myid, [t] + (Varint.Field(n) + rest)) == ParseRest(myid, t, n, rest)
  {
    hide Varint.Field, Varint.FieldLength, Varint.Groups, ParseRest, U64;
    var f := Varint.Field(n);
    var s := [t] + (f + rest);
    assert s[1..] == f + rest;
    Varint.ReadBack(n, rest);
    assert s[1 + |f|..] == rest;
  }

  lemma RestOfHeader(myid: seq<byte>, t: byte, n: uint64, crc: seq<byte>, id: seq<byte>, payload: seq<byte>)
    requires |crc| == if Has(t, TAG_CRC) then 4 else 0
    requires |myid| == ID_LEN && |id| == if Has(t, TAG_ID) then ID_LEN else 0
    ensures ParseRest(myid, t, n, crc + (id + payload))
         == if id != [] && id != myid then Refused(PriorIdMismatch)
            else Fields(Has(t, TAG_SDELTA), n, crc != [], if crc != [] then FromLe(crc) else 0, payload)
  {
    hide Has, FromLe;
    var rest := crc + (id + payload);
    assert rest[|crc|..] == id + payload;
    assert |crc| == 4 ==> rest[..4] == crc;
    assert (id + payload)[..|id|] == id;
    assert (id + payload)[|id|..] == payload;
  }

  lemma ParseOfHeader(p: Prior, sd: bool, crcOn: bool, idOn: bool, msg: seq<byte>, payload: seq<byte>)
    requires |p.id| == ID_LEN && |msg| < TWO64
    ensures var r := Parse(p.id, Header(p, sd, crcOn, idOn, msg) + payload);
      r == Fields(sd, |msg|, crcOn, if crcOn then Crc.Crc32(msg) else 0, payload)
  {
    var c := Crc.Crc32(msg);
    WordBack(c);
    hide Assembled, Parse, Le, FromLe, Crc.Crc32;
    ParseOfAssembled(p.id, sd, |msg|, if crcOn then Le(c, 4) else [], if idOn then p.id else [], payload);
  }

  lemma UnpackedBack(p: Prior, sd: bool, msg: seq<byte>, payload: seq<byte>)
    requires GoodPrior(p)
    requires CeCompress.IsPayload(ModelOf(p, sd), Symbols(p, sd, msg), payload)
    ensures Unpacked(p, sd, payload, |msg|) == msg
  {
    hide GoodPrior, ModelOf, Symbols, Actuals, CeCompress.IsPayload, DecodedBytes, BytesBits;
    CeCompress.RoundTrip(ModelOf(p, sd), Symbols(p, sd, msg), payload, payload);
    TransformRoundTrip(p, sd, msg);
  }

  lemma DecodedOf(p: Prior, input: seq<byte>, cap: nat, sd: bool, orig: uint64, hasCrc: bool, want: int,
                  payload: seq<byte>)
    requires GoodPrior(p) && Parse(p.id, input) == Fields(sd, orig, hasCrc, want, payload) && (sd ==> Structural(p))
    ensures Decoded(p, input, cap)
         == if orig > cap then Err(OutputTooSmall) else if orig == 0 then Ok([])
            else if hasCrc && Crc.Crc32(Unpacked(p, sd, payload, orig)) != want then Err(Corrupted)
            else Ok(Unpacked(p, sd, payload, orig))
  {
    hide GoodPrior, Parse, Unpacked, Crc.Crc32;
  }

  lemma PayloadRead(p: Prior, sd: bool, crcOn: bool, idOn: bool, msg: seq<byte>, payload: seq<byte>, cap: nat)
    requires GoodPrior(p) && |p.id| == ID_LEN && |msg| < TWO64 && (sd ==> Structural(p))
    requires Unpacked(p, sd, payload, |msg|) == msg
    ensures Decoded(p, Header(p, sd, crcOn, idOn, msg) + payload, cap)
         == if |msg| <= cap then Ok(msg) else Err(OutputTooSmall)
  {
    hide *;
    ParseOfHeader(p, sd, crcOn, idOn, msg, payload);
    var crc := if crcOn then Crc.Crc32(msg) else 0;
    DecodedOf(p, Header(p, sd, crcOn, idOn, msg) + payload, cap, sd, |msg|, crcOn, crc, payload);
  }

  /**
   * Losslessness: whatever the mode of the prior, the flags and the symbol format, reading a stream
   * with enough room gives back the message, and with less room a refusal.
   */
  lemma RoundTrip(p: Prior, sd: bool, crcOn: bool, idOn: bool, msg: seq<byte>, stream: seq<byte>, cap: nat)
    requires GoodPrior(p) && |msg| < TWO64 && (sd ==> Structural(p))
    requires IsStreamAs(p, sd, crcOn, idOn, msg, stream)
    ensures Decoded(p, stream, cap) == if |msg| <= cap then Ok(msg) else Err(OutputTooSmall)
  {
    var payload :|
      && stream == Header(p, sd, crcOn, idOn, msg) + payload
      && CeCompress.IsPayload(ModelOf(p, sd), Symbols(p, sd, msg), payload);
    assert |p.id| == ID_LEN;
    hide *;
    UnpackedBack(p, sd, msg, payload);
    PayloadRead(p, sd, crcOn, idOn, msg, payload, cap);
  }

  /** A structural stream written before the delta format existed: rotated tables, plain symbols. */
  lemma LegacyRoundTrip(p: Prior, crcOn: bool, idOn: bool, msg: seq<byte>, stream: seq<byte>, payload: seq<byte>,
                        cap: nat)
    requires GoodPrior(p) && |msg| <= cap && |msg| < TWO64
    requires stream == Header(p, false, crcOn, idOn, msg) + payload
    requires CeCompress.IsPayload(ModelOf(p, false), msg, payload)
    ensures Decoded(p, stream, cap) == Ok(msg)
  {
    WithoutDelta(p, msg);
    hide GoodPrior, Header, ModelOf, Symbols, CeCompress.IsPayload, Decoded;
    RoundTrip(p, false, crcOn, idOn, msg, stream, cap);
  }

  /** One message has one stream: warm and cold handles, and all builds, write the same bytes. */
  lemma StreamUnique(p: Prior, sd: bool, crcOn: bool, idOn: bool, msg: seq<byte>, s: seq<byte>, t: seq<byte>)
    requires GoodPrior(p)
    requires IsStreamAs(p, sd, crcOn, idOn, msg, s) && IsStreamAs(p, sd, crcOn, idOn, msg, t)
    ensures s == t
  {
    var m, syms, h := ModelOf(p, sd), Symbols(p, sd, msg), Header(p, sd, crcOn, idOn, msg);
    var a :| s == h + a && CeCompress.IsPayload(m, syms, a);
    var b :| t == h + b && CeCompress.IsPayload(m, syms, b);
    hide GoodPrior, Header, ModelOf, Symbols, CeCompress.Packs;
    CeCompress.PacksUnique(a, b, EncodedBits(m, syms));
  }

  /** The id check is a prior check: a tagged stream read under a prior with another id is refused. */
  lemma WrongPrior(p: Prior, q: Prior, sd: bool, crcOn: bool, msg: seq<byte>, stream: seq<byte>, cap: nat)
    requires GoodPrior(p) && GoodPrior(q) && |msg| < TWO64
    requires IsStreamAs(p, sd, crcOn, true, msg, stream)
    ensures Decoded(q, stream, cap) == Err(PriorIdMismatch) <==> q.id != p.id
  {
    var payload :|
      && stream == Header(p, sd, crcOn, true, msg) + payload
      && CeCompress.IsPayload(ModelOf(p, sd), Symbols(p, sd, msg), payload);
    assert |p.id| == ID_LEN == |q.id|;
    var crc := if crcOn then Le(Crc.Crc32(msg), 4) else [];
    hide GoodPrior, ModelOf, Symbols, CeCompress.IsPayload, Outcomes, Parse, Unpacked, Crc.Crc32, Le, Assembled;
    ParseOfAssembled(q.id, sd, |msg|, crc, p.id, payload);
    NoMismatch(q, Parse(q.id, stream), cap);
  }

  lemma NoMismatch(p: Prior, f: Parsed, cap: nat)
    requires GoodPrior(p)
    ensures Outcomes(p, f, cap) == Err(PriorIdMismatch) <==> f == Refused(PriorIdMismatch)
  {
    hide GoodPrior, Unpacked, Crc.Crc32;
  }

  // ----- damage -----

  /**
   * A damaged checksum field is noticed exactly when the message is not empty: an empty message is
   * returned before its checksum is looked at.
   */
  lemma ChecksumFieldDamaged(p: Prior, sd: bool, id: seq<byte>, msg: seq<byte>, crc: seq<byte>, payload: seq<byte>,
                             cap: nat)
    requires GoodPrior(p) && |msg| <= cap && |msg| < TWO64 && (sd ==> Structural(p))
    requires id == [] || id == p.id
    requires CeCompress.IsPayload(ModelOf(p, sd), Symbols(p, sd, msg), payload)
    requires |crc| == 4 && crc != Le(Crc.Crc32(msg), 4)
    ensures var r := Decoded(p, Assembled(sd, |msg|, crc, id) + payload, cap);
      r == if msg == [] then Ok([]) else Err(Corrupted)
  {
    assert |p.id| == ID_LEN;
    hide *;
    ParseOfAssembled(p.id, sd, |msg|, crc, id, payload);
    UnpackedBack(p, sd, msg, payload);
    DecodedOf(p, Assembled(sd, |msg|, crc, id) + payload, cap, sd, |msg|, true, FromLe(crc), payload);
    WordBack(Crc.Crc32(msg));
    if FromLe(crc) == Crc.Crc32(msg) {
      FromLeInjective(crc, Le(Crc.Crc32(msg), 4));
    }
  }

  /** A payload that unpacks to a message altered within 32 consecutive bits, at any offset, fails the checksum. */
  lemma BurstRefused(p: Prior, sd: bool, id: seq<byte>, msg: seq<byte>, other: seq<byte>, k: nat,
                     payload: seq<byte>, cap: nat)
    requires GoodPrior(p) && (sd ==> Structural(p)) && (id == [] || id == p.id)
    requires Crc.Burst(msg, other, k)
    requires |msg| <= cap && |msg| < TWO64 && Unpacked(p, sd, payload, |msg|) == other
    ensures Decoded(p, Assembled(sd, |msg|, Le(Crc.Crc32(msg), 4), id) + payload, cap) == Err(Corrupted)
  {
    assert |p.id| == ID_LEN;
    assert |other| == |msg| > 0 by {
      assert msg != other;
    }
    hide *;
    var c := Crc.Crc32(msg);
    Crc.BitBurstDetected(msg, other, k);
    WordBack(c);
    ParseOfAssembled(p.id, sd, |msg|, Le(c, 4), id, payload);
    DecodedOf(p, Assembled(sd, |msg|, Le(c, 4), id) + payload, cap, sd, |msg|, true, c, payload);
  }

  // ----- size -----

  /** Twice the input and 64 bytes, in a 64-bit size. */
  function CompressBound(n: nat): uint64 {
    U64(2 * n + 64)
  }

  lemma HeaderFits(p: Prior, sd: bool, crcOn: bool, idOn: bool, msg: seq<byte>)
    requires |p.id| == ID_LEN && |msg| < TWO64
    ensures |Header(p, sd, crcOn, idOn, msg)| <= 31
  {
    Varint.FieldOf(|msg|);
    hide Tag, Varint.Field, Le, Crc.Crc32;
  }

  lemma SmallBound(n: nat)
    requires 2 * n + 64 < TWO64
    ensures CompressBound(n) == 2 * n + 64
  {
  }

  /** The bound always suffices, as long as it does not itself exceed 64 bits. */
  lemma BoundSuffices(p: Prior, sd: bool, crcOn: bool, idOn: bool, msg: seq<byte>, stream: seq<byte>)
    requires GoodPrior(p) && 2 * |msg| + 64 < TWO64
    requires IsStreamAs(p, sd, crcOn, idOn, msg, stream)
    ensures |stream| <= 2 * |msg| + 32 <= CompressBound(|msg|)
  {
    var payload :|
      && stream == Header(p, sd, crcOn, idOn, msg) + payload
      && CeCompress.IsPayload(ModelOf(p, sd), Symbols(p, sd, msg), payload);
    assert |p.id| == ID_LEN;
    SmallBound(|msg|);
    hide *;
    HeaderFits(p, sd, crcOn, idOn, msg);
    CeCompress.PayloadSize(ModelOf(p, sd), Symbols(p, sd, msg), payload);
  }

  /** The first length at which the bound wraps: it is 0 there, and no stream is that short. */
  lemma BoundWraps(p: Prior, sd: bool, crcOn: bool, idOn: bool, msg: seq<byte>, stream: seq<byte>)
    requires GoodPrior(p) && |msg| == TWO63 - 32
    requires IsStreamAs(p, sd, crcOn, idOn, msg, stream)
    ensures CompressBound(|msg|) == 0 && |stream| >= 2
  {
    Varint.FieldOf(|msg|);
    assert U64(2 * |msg| + 64) == 0;
    hide Varint.Field, Le, Crc.Crc32, CeCompress.IsPayload, GoodPrior;
  }
}
