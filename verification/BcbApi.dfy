/**
 * The two calls on a codec handle: compression into and decompression out of a caller's buffer.  Each is
 * built from the codec object and the coder objects, byte by byte, and proved to compute what Container
 * specifies of the prior and the bytes alone, whatever the handle did before.  EndToEnd composes them.
 */
module BcbApi {
  import opened Words
  import opened LittleEndian
  import opened RangeCoder
  import opened CodecModel
  import opened Codec
  import opened Container
  import CeCompress
  import Crc
  import Varint

  // ----- compress -----

  /** The symbol for a byte: structural codecs transform it. */
  method Transformed(c: BcbCodec, sd: bool, b: byte) returns (sym: byte)
    requires c.Valid() && sd == Structural(c.p)
    ensures sym == Symbol(c.p, c.State(), b)
  {
    if sd {
      sym := c.EncXform(b);
    } else {
      sym := b;
    }
  }

  method NextTable(c: BcbCodec) returns (cum: Table)
    requires c.Valid()
    modifies c.rd.ws, c.rd.wt, c.rd.probs, c.distcache, c`dcHits, c`dcMisses
    ensures c.Valid() && c.State() == old(c.State()) && cum == TableIn(c.p, c.State())
  {
    var t := c.Dist();
    DistLegal(c.p, c.State());
    cum := t;
  }

  /** Coding a symbol leaves the codec alone. */
  method CodeSymbol(c: BcbCodec, e: CeCompress.CecEncoder, cum: Table, sym: byte)
    requires c.Valid() && e.Valid() && e.State().Settled() && e !in c.Repr() && e.out !in c.Repr()
    modifies e, e.out
    ensures c.Valid() && c.State() == old(c.State())
    ensures e.Valid() && e.State().Settled() && (e.out == old(e.out) || fresh(e.out))
    ensures e.State() == RangeCoder.EncSym(old(e.State()), cum, sym)
  {
    hide BcbCodec.Valid, BcbCodec.State, CeCompress.CecEncoder.Valid, RangeCoder.EncSym;
    e.EncByte(cum, sym);
  }

  /** One byte: transform, code, train. */
  method EncodeByte(c: BcbCodec, e: CeCompress.CecEncoder, sd: bool, b: byte)
    requires c.Valid() && e.Valid() && e.State().Settled() && e !in c.Repr() && e.out !in c.Repr()
    requires sd == Structural(c.p) == c.sdelta
    modifies c.Repr(), e, e.out
    ensures c.Valid() && e.Valid() && e.State().Settled() && (e.out == old(e.out) || fresh(e.out))
    ensures c.sdelta == sd
    ensures var st := old(c.State()); var sym := Symbol(c.p, st, b);
      && e.State() == RangeCoder.EncSym(old(e.State()), TableIn(c.p, st), sym)
      && c.State() == Step(c.p, st, sym)
  {
    hide BcbCodec.Valid, BcbCodec.State, Symbol, Step, TableIn, RangeCoder.EncSym, GoodPrior, GoodState;
    ghost var st := c.State();
    var sym := Transformed(c, sd, b);
    var cum := NextTable(c);
    CodeSymbol(c, e, cum, sym);
    c.Train(sym);
  }

  lemma RunStep(m: Model, syms: seq<byte>, i: nat, e: Enc)
    requires i < |syms| && e.Settled()
    ensures EncRun(m, syms[..i], syms[i..], e)
         == EncRun(m, syms[..i + 1], syms[i + 1..], RangeCoder.EncSym(e, m(syms[..i]), syms[i]))
  {
    assert syms[..i + 1] == syms[..i] + [syms[i]];
    assert syms[i..][0] == syms[i] && syms[i..][1..] == syms[i + 1..];
  }

  lemma StateStep(p: Prior, sd: bool, syms: seq<byte>, i: nat)
    requires GoodPrior(p) && i < |syms|
    ensures After(p, sd, syms[..i + 1]) == Step(p, After(p, sd, syms[..i]), syms[i])
    ensures ModelOf(p, sd)(syms[..i]) == TableIn(p, After(p, sd, syms[..i]))
  {
    assert syms[..i + 1] == syms[..i] + [syms[i]];
    ActualsAppend(p, sd, syms[..i], syms[i]);
  }

  /** After i bytes codec and encoder stand where the exact run over the symbols stands. */
  ghost predicate Encoding(c: BcbCodec, e: CeCompress.CecEncoder, sd: bool, input: seq<byte>, i: nat)
    reads c.Repr(), e, e.out
  {
    && i <= |input| && e !in c.Repr() && e.out !in c.Repr()
    && c.Valid() && e.Valid() && e.State().Settled() && sd == Structural(c.p) == c.sdelta
    && InRun(c.p, sd, input, i, c.State(), e.State())
  }

  /** The part of Encoding that is about values. */
  ghost predicate InRun(p: Prior, sd: bool, input: seq<byte>, i: nat, st: State, e: Enc)
    requires GoodPrior(p) && i <= |input| && e.Settled()
  {
    var m, syms := ModelOf(p, sd), Symbols(p, sd, input);
    && st == After(p, sd, syms[..i])
    && EncRun(m, syms[..i], syms[i..], e) == EncRun(m, [], syms, START_ENC)
  }

  lemma EncodingStep(p: Prior, sd: bool, input: seq<byte>, i: nat, st: State, e: Enc, st': State, e': Enc)
    requires GoodPrior(p) && i < |input| && e.Settled() && e'.Settled() && GoodState(p, st)
    requires InRun(p, sd, input, i, st, e)
    requires st.Record? ==> st.pos < |st.prev| && st.pos < |p.schemaModes|
    requires var sym := Symbol(p, st, input[i]);
      st' == Step(p, st, sym) && e' == RangeCoder.EncSym(e, TableIn(p, st), sym)
    ensures InRun(p, sd, input, i + 1, st', e')
  {
    hide GoodPrior, GoodState, ModelOf, Symbols, Symbol, After, Step, TableIn, EncRun, RangeCoder.EncSym;
    var syms := Symbols(p, sd, input);
    SymbolChosen(p, sd, input, i);
    StateStep(p, sd, syms, i);
    RunStep(ModelOf(p, sd), syms, i, e);
  }

  method EncodeNext(c: BcbCodec, e: CeCompress.CecEncoder, sd: bool, input: seq<byte>, i: nat)
    requires Encoding(c, e, sd, input, i) && i < |input|
    modifies c.Repr(), e, e.out
    ensures Encoding(c, e, sd, input, i + 1) && (e.out == old(e.out) || fresh(e.out))
  {
    hide GoodPrior, GoodState, BcbCodec.Valid, BcbCodec.State, InRun, ModelOf, Symbols, Symbol, After, Step, TableIn,
         EncRun,
         RangeCoder.EncSym, CeCompress.CecEncoder.Valid, CeCompress.CecEncoder.State;
    c.Placed();
    ghost var p, st0, e0 := c.p, c.State(), e.State();
    EncodeByte(c, e, sd, input[i]);
    EncodingStep(p, sd, input, i, st0, e0, c.State(), e.State());
  }

  method EncodeRest(c: BcbCodec, e: CeCompress.CecEncoder, sd: bool, input: seq<byte>)
    requires Encoding(c, e, sd, input, 0)
    modifies c.Repr(), e, e.out
    ensures Encoding(c, e, sd, input, |input|) && (e.out == old(e.out) || fresh(e.out))
  {
    hide *;
    for i := 0 to |input|
      invariant Encoding(c, e, sd, input, i) && (e.out == old(e.out) || fresh(e.out))
    {
      EncodeNext(c, e, sd, input, i);
    }
  }

  method EncodeAll(c: BcbCodec, sd: bool, noDivide: bool, input: seq<byte>) returns (payload: seq<byte>)
    requires c.Valid() && sd == Structural(c.p) == c.sdelta && c.State() == Start(c.p, sd)
    modifies c.Repr()
    ensures c.Valid() && CeCompress.IsPayload(ModelOf(c.p, sd), Symbols(c.p, sd, input), payload)
  {
    c.Placed();
    hide *;
    var e := StartEncoding(c, sd, noDivide, input);
    EncodeRest(c, e, sd, input);
    payload := FinishAll(c, e, sd, input);
  }

  method StartEncoding(c: BcbCodec, sd: bool, noDivide: bool, input: seq<byte>) returns (e: CeCompress.CecEncoder)
    requires c.Valid() && sd == Structural(c.p) == c.sdelta && c.State() == Start(c.p, sd)
    ensures Encoding(c, e, sd, input, 0) && fresh(e) && fresh(e.out)
  {
    hide GoodPrior, GoodState, CacheExact, PrecomputeExact, Start, Encoding, ViewOf, Structural;
    c.Placed();
    hide *;
    e := new CeCompress.CecEncoder(noDivide);
    EncodingStarts(c, e, sd, input);
  }

  lemma EncodingStarts(c: BcbCodec, e: CeCompress.CecEncoder, sd: bool, input: seq<byte>)
    requires c.Valid() && e.Valid() && sd == Structural(c.p) == c.sdelta && c.State() == Start(c.p, sd)
    requires e.State() == START_ENC && e !in c.Repr() && e.out !in c.Repr()
    ensures Encoding(c, e, sd, input, 0)
  {
    var syms := Symbols(c.p, sd, input);
    assert syms[..0] == [] && syms[0..] == syms;
  }

  lemma EncodingEnds(c: BcbCodec, e: CeCompress.CecEncoder, sd: bool, input: seq<byte>)
    requires Encoding(c, e, sd, input, |input|)
    ensures c.Valid() && e.Valid() && e.State().Settled() && e !in c.Repr() && e.out !in c.Repr()
    ensures var m, syms := ModelOf(c.p, sd), Symbols(c.p, sd, input);
      EncRun(m, syms, [], e.State()) == EncRun(m, [], syms, START_ENC)
  {
    var syms := Symbols(c.p, sd, input);
    assert syms[..|input|] == syms && syms[|input|..] == [];
  }

  method FinishAll(c: BcbCodec, e: CeCompress.CecEncoder, sd: bool, input: seq<byte>) returns (payload: seq<byte>)
    requires Encoding(c, e, sd, input, |input|)
    modifies e, e.out
    ensures c.Valid() && CeCompress.IsPayload(ModelOf(c.p, sd), Symbols(c.p, sd, input), payload)
  {
    EncodingEnds(c, e, sd, input);
    hide BcbCodec.Valid, BcbCodec.State, Encoding, GoodPrior, ModelOf, Symbols, EncRun, CeCompress.Packs, FinishBits,
         CeCompress.CecEncoder.Valid;
    payload := e.Finish();
  }

  lemma FourBytes(c: uint32)
    ensures Le(c, 4) == [c % 256, c / 256 % 256, c / 65536 % 256, c / 16777216 % 256]
  {
    assert c / 65536 == c / 256 / 256 && c / 16777216 == c / 256 / 256 / 256;
    assert Le(c / 256 / 256 / 256, 1) == [c / 256 / 256 / 256 % 256];
    assert Le(c / 256 / 256, 2) == [c / 256 / 256 % 256] + Le(c / 256 / 256 / 256, 1);
    assert Le(c / 256, 3) == [c / 256 % 256] + Le(c / 256 / 256, 2);
  }

  method WriteHeader(p: Prior, sd: bool, crcOn: bool, idOn: bool, input: seq<byte>) returns (hdr: seq<byte>)
    requires |p.id| == ID_LEN && |input| < TWO64
    ensures hdr == Header(p, sd, crcOn, idOn, input)
  {
    hide Varint.Field, Crc.Crc32;
    hdr := [Tag(crcOn, idOn, sd)];
    var len := Varint.Put(|input|);
    hdr := hdr + len;
    if crcOn {
      var cc := Crc.Crc32Loop(input);
      FourBytes(cc);
      hdr := hdr + [cc % 256, cc / 256 % 256, cc / 65536 % 256, cc / 16777216 % 256];
    }
    if idOn {
      hdr := hdr + p.id;
    }
  }

  ghost predicate Compressed(p: Prior, crcOn: bool, idOn: bool, input: seq<byte>, cap: nat, r: Outcome)
    requires GoodPrior(p)
  {
    match r
    case Ok(s) => IsStream(p, crcOn, idOn, input, s) && |s| <= cap
    case Err(e) => e == OutputTooSmall && exists s :: IsStream(p, crcOn, idOn, input, s) && |s| > cap
  }

  lemma ResultOf(p: Prior, crcOn: bool, idOn: bool, input: seq<byte>, comp: seq<byte>, cap: nat)
    requires GoodPrior(p)
    requires CeCompress.IsPayload(ModelOf(p, Structural(p)), Symbols(p, Structural(p), input), comp)
    ensures var hdr := Header(p, Structural(p), crcOn, idOn, input);
      Compressed(p, crcOn, idOn, input, cap, if |hdr| + |comp| > cap then Err(OutputTooSmall) else Ok(hdr + comp))
  {
    hide GoodPrior, ModelOf, Symbols, Header, CeCompress.IsPayload;
    assert IsStream(p, crcOn, idOn, input, Header(p, Structural(p), crcOn, idOn, input) + comp);
  }

  /**
   * Compression on a handle with any past.  The result is the one stream of the message, or a refusal
   * when that stream is longer than the capacity.
   */
  method CompressCore(c: BcbCodec?, crcOn: bool, idOn: bool, noDivide: bool, input: seq<byte>, cap: nat)
    returns (r: Outcome)
    requires c != null ==> c.Valid()
    requires |input| < TWO64
    modifies if c == null then {} else c.Repr()
    ensures c == null ==> r == Err(InvalidPrior)
    ensures c != null ==> c.Valid() && Compressed(c.p, crcOn, idOn, input, cap, r)
  {
    if c == null {
      return Err(InvalidPrior);
    }
    c.Begin();
    var sd := Structural(c.p);
    c.SetSdelta(sd);
    c.Placed();
    var comp := EncodeAll(c, sd, noDivide, input);
    var hdr := WriteHeader(c.p, sd, crcOn, idOn, input);
    r := if |hdr| + |comp| > cap then Err(OutputTooSmall) else Ok(hdr + comp);
    ResultOf(c.p, crcOn, idOn, input, comp, cap);
  }

  /**
   * End to end: with a buffer of the advertised bound compression succeeds, and any handle on the
   * same prior, whatever it did before, gets the message back from the result.
   */
  lemma EndToEnd(p: Prior, crcOn: bool, idOn: bool, msg: seq<byte>, cap: nat, r: Outcome, outCap: nat)
    requires GoodPrior(p) && 2 * |msg| + 64 < TWO64
    requires Compressed(p, crcOn, idOn, msg, cap, r) && CompressBound(|msg|) <= cap && |msg| <= outCap
    ensures r.Ok? && Decoded(p, r.bytes, outCap) == Ok(msg)
  {
    var sd := Structural(p);
    hide GoodPrior, IsStreamAs, Decoded, CompressBound;
    match r
    case Ok(s) =>
      RoundTrip(p, sd, crcOn, idOn, msg, s, outCap);
    case Err(_) =>
      var s :| IsStream(p, crcOn, idOn, msg, s) && |s| > cap;
      BoundSuffices(p, sd, crcOn, idOn, msg, s);
  }

  // ----- decompress -----

  /** Decodes one symbol and takes it in. */
  method DecodeByte(c: BcbCodec, d: CeCompress.CecDecoder) returns (sym: byte)
    requires c.Valid() && d.Valid() && d.State().Settled() && d !in c.Repr()
    modifies c.Repr(), d
    ensures c.Valid() && d.Valid() && d.State().Settled() && c.sdelta == old(c.sdelta)
    ensures var st := old(c.State());
      && sym == RangeCoder.SymbolAt(old(d.State()), TableIn(c.p, st))
      && d.State() == DecSym(old(d.State()), TableIn(c.p, st), sym, BytesBits(d.input))
      && c.State() == Step(c.p, st, sym)
      && (Structural(c.p) ==> c.scLast == Actual(c.p, st, sym))
  {
    hide BcbCodec.Valid, BcbCodec.State, Actual, Step, TableIn, DecSym, BytesBits, GoodPrior, GoodState,
         CeCompress.CecDecoder.Valid;
    var cum := NextTable(c);
    sym := ReadSymbol(c, d, cum);
    c.Train(sym);
  }

  method ReadSymbol(c: BcbCodec, d: CeCompress.CecDecoder, cum: Table) returns (sym: byte)
    requires c.Valid() && d.Valid() && d.State().Settled() && d !in c.Repr()
    modifies d
    ensures c.Valid() && c.State() == old(c.State())
    ensures d.Valid() && d.State().Settled() && sym == RangeCoder.SymbolAt(old(d.State()), cum)
    ensures d.State() == DecSym(old(d.State()), cum, sym, BytesBits(d.input))
  {
    hide BcbCodec.Valid, BcbCodec.State, CeCompress.CecDecoder.Valid, DecSym, BytesBits;
    sym := d.DecByte(cum);
  }

  /** The symbols and the bytes they stand for, after the decoder's first |syms| steps out of n. */
  ghost predicate Unpacking(p: Prior, sd: bool, payload: seq<byte>, n: nat, st: State, d: Dec, syms: seq<byte>,
                            dec: seq<byte>)
    requires GoodPrior(p) && d.Settled()
  {
    var m, input := ModelOf(p, sd), BytesBits(payload);
    && |syms| <= n && st == After(p, sd, syms) && dec == Actuals(p, sd, syms)
    && syms + DecRun(m, syms, n - |syms|, d, input) == DecodedBytes(m, input, n)
  }

  lemma UnpackingStep(p: Prior, sd: bool, payload: seq<byte>, n: nat, st: State, d: Dec, syms: seq<byte>,
                      dec: seq<byte>)
    requires GoodPrior(p) && d.Settled() && GoodState(p, st) && |syms| < n
    requires Unpacking(p, sd, payload, n, st, d, syms, dec)
    requires st.Record? ==> st.pos < |st.prev| && st.pos < |p.schemaModes|
    ensures var t := TableIn(p, st); var sym := RangeCoder.SymbolAt(d, t);
      Unpacking(p, sd, payload, n, Step(p, st, sym), DecSym(d, t, sym, BytesBits(payload)),
        syms + [sym], dec + [Actual(p, st, sym)])
  {
    var m, input, t := ModelOf(p, sd), BytesBits(payload), TableIn(p, st);
    assert m(syms) == t;
    var sym := RangeCoder.SymbolAt(d, t);
    hide GoodPrior, GoodState, ModelOf, After, Actuals, Actual, Step, TableIn, DecRun, DecSym, DecodedBytes,
         BytesBits, RangeCoder.SymbolAt;
    ActualsAppend(p, sd, syms, sym);
    CeCompress.DecRunStep(m, syms, n - |syms|, d, input);
  }

  lemma UnpackingDone(p: Prior, sd: bool, payload: seq<byte>, n: nat, st: State, d: Dec, syms: seq<byte>,
                      dec: seq<byte>)
    requires GoodPrior(p) && d.Settled() && |syms| == n
    requires Unpacking(p, sd, payload, n, st, d, syms, dec)
    ensures dec == Unpacked(p, sd, payload, n)
  {
    assert syms + [] == syms;
  }

  /** Codec and decoder stand where the exact run over the payload stands. */
  ghost predicate Decoding(c: BcbCodec, d: CeCompress.CecDecoder, sd: bool, payload: seq<byte>, n: nat,
                           syms: seq<byte>, dec: seq<byte>)
    reads c.Repr(), d
  {
    && d !in c.Repr() && d.input == payload
    && c.Valid() && d.Valid() && d.State().Settled() && sd == c.sdelta
    && Unpacking(c.p, sd, payload, n, c.State(), d.State(), syms, dec)
  }

  method DecodeNext(c: BcbCodec, d: CeCompress.CecDecoder, sd: bool, ghost payload: seq<byte>, ghost n: nat,
                    ghost syms0: seq<byte>, dec0: seq<byte>)
    returns (ghost syms: seq<byte>, dec: seq<byte>)
    requires Decoding(c, d, sd, payload, n, syms0, dec0) && |syms0| < n
    modifies c.Repr(), d
    ensures Decoding(c, d, sd, payload, n, syms, dec) && |syms| == |syms0| + 1
  {
    c.Placed();
    ghost var st := c.State();
    PlainWithout(c);
    hide GoodPrior, GoodState, BcbCodec.Valid, BcbCodec.State, Unpacking, Actual, Step, TableIn, DecSym, BytesBits,
         CeCompress.CecDecoder.Valid, RangeCoder.SymbolAt;
    UnpackingStep(c.p, sd, payload, n, st, d.State(), syms0, dec0);
    var sym := DecodeByte(c, d);
    syms := syms0 + [sym];
    if sd {
      dec := dec0 + [c.DecLast()];
    } else {
      dec := dec0 + [sym];
    }
  }

  /** Without the delta format a symbol is its byte. */
  lemma PlainWithout(c: BcbCodec)
    requires c.Valid()
    ensures var st := c.State();
      && (st.Record? ==> st.pos < |st.prev| && st.pos < |c.p.schemaModes|)
      && (!c.sdelta ==> forall b :: Actual(c.p, st, b) == b)
      && (c.sdelta ==> Structural(c.p))
  {
  }

  method DecodeRest(c: BcbCodec, d: CeCompress.CecDecoder, sd: bool, payload: seq<byte>, n: nat)
    returns (dec: seq<byte>)
    requires Decoding(c, d, sd, payload, n, [], [])
    modifies c.Repr(), d
    ensures c.Valid() && dec == Unpacked(c.p, sd, payload, n)
  {
    ghost var syms := [];
    dec := [];
    hide Unpacking, Unpacked, BcbCodec.Valid, BcbCodec.State, CeCompress.CecDecoder.Valid;
    for i := 0 to n
      invariant Decoding(c, d, sd, payload, n, syms, dec) && |syms| == i
    {
      syms, dec := DecodeNext(c, d, sd, payload, n, syms, dec);
    }
    c.Placed();
    UnpackingDone(c.p, sd, payload, n, c.State(), d.State(), syms, dec);
  }

  method DecodeAll(c: BcbCodec, sd: bool, noDivide: bool, payload: seq<byte>, n: nat) returns (dec: seq<byte>)
    requires c.Valid() && sd == c.sdelta && c.State() == Start(c.p, sd)
    modifies c.Repr()
    ensures c.Valid() && dec == Unpacked(c.p, sd, payload, n)
  {
    c.Placed();
    hide *;
    var d := StartDecoding(c, sd, noDivide, payload, n);
    dec := DecodeRest(c, d, sd, payload, n);
  }

  method StartDecoding(c: BcbCodec, sd: bool, noDivide: bool, payload: seq<byte>, n: nat)
    returns (d: CeCompress.CecDecoder)
    requires c.Valid() && sd == c.sdelta && c.State() == Start(c.p, sd)
    ensures Decoding(c, d, sd, payload, n, [], []) && fresh(d)
  {
    hide GoodPrior, GoodState, CacheExact, PrecomputeExact, Start, Decoding, StartDec, BytesBits, ViewOf, Structural;
    c.Placed();
    hide *;
    d := new CeCompress.CecDecoder(payload, noDivide);
    DecodingStarts(c, d, sd, payload, n);
  }

  lemma UnpackingStarts(p: Prior, sd: bool, payload: seq<byte>, n: nat, d: Dec)
    requires GoodPrior(p) && d.Settled() && d == StartDec(BytesBits(payload))
    ensures Unpacking(p, sd, payload, n, Start(p, sd), d, [], [])
  {
    hide GoodPrior, Start, After, Actuals, ModelOf, DecRun, BytesBits;
    NothingYet(p, sd);
    var run := DecRun(ModelOf(p, sd), [], n, d, BytesBits(payload));
    assert [] + run == run;
  }

  lemma DecodingStarts(c: BcbCodec, d: CeCompress.CecDecoder, sd: bool, payload: seq<byte>, n: nat)
    requires c.Valid() && sd == c.sdelta && c.State() == Start(c.p, sd)
    requires d.Valid() && d.input == payload && d !in c.Repr()
    requires d.State() == StartDec(BytesBits(payload)) && d.State().Settled() && GoodPrior(c.p)
    ensures Decoding(c, d, sd, payload, n, [], [])
  {
    hide Unpacking, BcbCodec.Valid, BcbCodec.State, CeCompress.CecDecoder.Valid, Start;
    UnpackingStarts(c.p, sd, payload, n, d.State());
  }

  /** Reads the header fields one after the other. */
  method ReadHeader(myid: seq<byte>, input: seq<byte>) returns (r: Parsed)
    ensures r == Parse(myid, input)
  {
    hide Has, U64, Varint.Groups, Varint.FieldLength;
    if |input| < 1 {
      return Refused(Corrupted);
    }
    var tag, off := input[0], 1;
    var hn, orig := Varint.Get(input[off..]);
    if hn == 0 {
      return Refused(Corrupted);
    }
    off := off + hn;
    r := ReadChecks(myid, tag, orig, input, off);
  }

  method ReadChecks(myid: seq<byte>, tag: byte, orig: uint64, input: seq<byte>, off0: nat) returns (r: Parsed)
    requires off0 <= |input|
    ensures r == ParseRest(myid, tag, orig, input[off0..])
  {
    hide Has;
    var off, want := off0, 0;
    var hasCrc := Has(tag, TAG_CRC);
    if hasCrc {
      if |input| < off + 4 {
        return Refused(Corrupted);
      }
      assert input[off0..][..4] == input[off..off + 4];
      want := FromLe(input[off..off + 4]);
      off := off + 4;
    }
    assert input[off0..][off - off0..] == input[off..];
    if Has(tag, TAG_ID) {
      if |input| < off + ID_LEN {
        return Refused(Corrupted);
      }
      assert input[off..][..ID_LEN] == input[off..off + ID_LEN];
      if input[off..off + ID_LEN] != myid {
        return Refused(PriorIdMismatch);
      }
      assert input[off..][ID_LEN..] == input[off + ID_LEN..];
      off := off + ID_LEN;
    }
    r := Fields(Has(tag, TAG_SDELTA), orig, hasCrc, want, input[off..]);
  }

  method DecodeMessage(c: BcbCodec, sd: bool, noDivide: bool, payload: seq<byte>, n: nat) returns (dec: seq<byte>)
    requires c.Valid() && (sd ==> Structural(c.p))
    modifies c.Repr()
    ensures c.Valid() && dec == Unpacked(c.p, sd, payload, n)
  {
    c.Begin();
    c.SetSdelta(sd);
    hide *;
    dec := DecodeAll(c, sd, noDivide, payload, n);
  }

  method DecodeFields(c: BcbCodec, noDivide: bool, f: Parsed, cap: nat) returns (r: Outcome)
    requires c.Valid() && f.Fields?
    modifies c.Repr()
    ensures c.Valid() && r == Outcomes(c.p, f, cap)
  {
    c.Placed();
    if f.orig > cap {
      return Err(OutputTooSmall);
    }
    if f.orig == 0 {
      return Ok([]);
    }
    hide BcbCodec.Valid, Unpacked, Crc.Crc32, GoodPrior, GoodState;
    var dec := DecodeMessage(c, f.sd && Structural(c.p), noDivide, f.payload, f.orig);
    if f.hasCrc {
      var crc := Crc.Crc32Loop(dec);
      if crc != f.want {
        return Err(Corrupted);
      }
    }
    r := Ok(dec);
  }

  /** Decompression of any byte string on a handle with any past: the outcome does not depend on that past. */
  method DecompressCore(c: BcbCodec?, noDivide: bool, input: seq<byte>, cap: nat) returns (r: Outcome)
    requires c != null ==> c.Valid()
    modifies if c == null then {} else c.Repr()
    ensures c == null ==> r == Err(InvalidPrior)
    ensures c != null ==> c.Valid() && r == Decoded(c.p, input, cap)
  {
    if c == null {
      return Err(InvalidPrior);
    }
    c.Placed();
    hide BcbCodec.Valid, Parse, Unpacked, Crc.Crc32, GoodPrior, GoodState;
    var f := ReadHeader(c.p.id, input);
    if f.Refused? {
      return Err(f.error);
    }
    r := DecodeFields(c, noDivide, f, cap);
  }
}
