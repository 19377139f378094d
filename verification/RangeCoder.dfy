module RangeCoder {
  // The range coder in exact integers, without buffers or words, and the proof that decoding inverts encoding.

  import opened Words
  import opened Arith

  const HALF := 0x8000_0000
  const QUARTER := 0x4000_0000
  const MAX_TOTAL := 0x8000

  /** A cumulative table the coder can use: it starts at 0, strictly increases and totals at most 2^15. */
  predicate LegalTable(t: seq<nat>) {
    && |t| == 257
    && t[0] == 0
    && (forall i, j :: 0 <= i < j <= 256 ==> t[i] < t[j])
    && t[256] <= MAX_TOTAL
  }

  type Table = t: seq<nat> | LegalTable(t) witness seq(257, i => i)

  /** A deterministic adaptive model: the bytes coded so far determine the next table. */
  type Model = seq<byte> -> Table

  // ----- intervals -----

  /** A table bound rescaled to a range. */
  function Scaled(r: int, cum: nat, tot: nat): int
    requires tot > 0
  {
    r * cum / tot
  }

  function ScaleLow(low: int, high: int, cum: nat, tot: nat): int
    requires tot > 0
  {
    low + Scaled(high - low + 1, cum, tot)
  }

  /** Rescaling by a positive range is monotone, and one unit of the table keeps at least range / 2^16 values. */
  lemma ScaleGap(r: nat, c0: nat, c1: nat, tot: nat)
    requires 0 < tot <= MAX_TOTAL && c0 < c1 <= tot && r > QUARTER
    ensures 0 <= Scaled(r, c0, tot) < Scaled(r, c1, tot) <= r
    ensures 0x1_0000 * (Scaled(r, c1, tot) - Scaled(r, c0, tot)) >= r
  {
    var q0, q1 := r * c0 / tot, r * c1 / tot;
    DivBounds(r * c0, tot);
    DivBounds(r * c1, tot);
    DivNat(r * c0, tot);
    assert r * c1 == r * c0 + r * (c1 - c0);
    MulMono(1, c1 - c0, r);
    GapBound(q1 - q0, r, tot);
    MulMono(c1, tot, r);
    DivMono(r * c1, r * tot, tot);
    MulDiv(r, tot);
  }

  lemma GapBound(g: int, r: int, tot: nat)
    requires 0 < tot <= MAX_TOTAL && r > QUARTER && g * tot > r - tot
    ensures g > 0 && 0x1_0000 * g >= r
  {
    if g <= 0 {
      MulMono(g, 0, tot);
    }
    MulMono(tot, MAX_TOTAL, g);
  }

  datatype Move = Zero | One | Straddle | Stop

  /** Which of the three rescalings applies to the interval, if any. */
  function MoveOf(low: int, high: int): Move {
    if high < HALF then Zero
    else if low >= HALF then One
    else if low >= QUARTER && high < 3 * QUARTER then Straddle
    else Stop
  }

  function OffsetOf(m: Move): int {
    match m
    case Zero => 0
    case One => HALF
    case Straddle => QUARTER
    case Stop => 0
  }

  // ----- encoder -----

  datatype Enc = Enc(low: int, high: int, pending: nat, bits: seq<bit>) {
    predicate Valid() {
      0 <= low <= high < TWO32
    }

    /** No rescaling applies; the state between two symbols. */
    predicate Settled() {
      Valid() && MoveOf(low, high) == Stop
    }

    /** How many binary digits of the code value are already decided or deferred. */
    function Scale(): nat {
      |bits| + pending
    }
  }

  const START_ENC := Enc(0, TWO32 - 1, 0, [])

  /** A bit followed by the pending complementary bits. */
  function Flushed(bits: seq<bit>, b: bit, pending: nat): (r: seq<bit>)
    ensures |r| == |bits| + 1 + pending
  {
    if pending == 0 then bits + [b] else Flushed(bits, b, pending - 1) + [1 - b]
  }

  function Advance(e: Enc): Enc
    requires MoveOf(e.low, e.high) != Stop
  {
    var m := MoveOf(e.low, e.high);
    var low, high := 2 * (e.low - OffsetOf(m)), 2 * (e.high - OffsetOf(m)) + 1;
    match m
    case Zero => Enc(low, high, 0, Flushed(e.bits, 0, e.pending))
    case One => Enc(low, high, 0, Flushed(e.bits, 1, e.pending))
    case Straddle => Enc(low, high, e.pending + 1, e.bits)
  }

  /** Every rescaling doubles the range, so this terminates. */
  function Renorm(e: Enc): (r: Enc)
    requires e.Valid()
    ensures r.Settled()
    decreases TWO32 - (e.high - e.low)
  {
    if MoveOf(e.low, e.high) == Stop then e else Renorm(Advance(e))
  }

  function Narrow(e: Enc, cl: nat, ch: nat, tot: nat): Enc
    requires tot > 0
  {
    e.(low := ScaleLow(e.low, e.high, cl, tot), high := ScaleLow(e.low, e.high, ch, tot) - 1)
  }

  lemma NarrowValid(e: Enc, cl: nat, ch: nat, tot: nat)
    requires e.Settled() && cl < ch <= tot && 0 < tot <= MAX_TOTAL
    ensures Narrow(e, cl, ch, tot).Valid()
    ensures e.low <= Narrow(e, cl, ch, tot).low && Narrow(e, cl, ch, tot).high <= e.high
  {
    ScaleGap(e.high - e.low + 1, cl, ch, tot);
  }

  function EncSym(e: Enc, t: Table, b: byte): (r: Enc)
    requires e.Settled()
    ensures r.Settled()
  {
    NarrowValid(e, t[b], t[b + 1], t[256]);
    Renorm(Narrow(e, t[b], t[b + 1], t[256]))
  }

  /** Encode the bytes rest after the history h. */
  function EncRun(m: Model, h: seq<byte>, rest: seq<byte>, e: Enc): (r: Enc)
    requires e.Settled()
    ensures r.Settled()
    decreases |rest|
  {
    if rest == [] then e else EncRun(m, h + [rest[0]], rest[1..], EncSym(e, m(h), rest[0]))
  }

  function FinishBit(e: Enc): bit {
    if e.low < QUARTER then 0 else 1
  }

  /** The final flush: one more pending bit, then enough of the code value to stay inside the interval. */
  function FinishBits(e: Enc): seq<bit> {
    Flushed(e.bits, FinishBit(e), e.pending + 1)
  }

  function EncodedBits(m: Model, msg: seq<byte>): seq<bit> {
    FinishBits(EncRun(m, [], msg, START_ENC))
  }

  // ----- decoder -----

  datatype Dec = Dec(low: int, high: int, code: int, pos: nat) {
    predicate Valid() {
      0 <= low <= code <= high < TWO32
    }

    predicate Settled() {
      Valid() && MoveOf(low, high) == Stop
    }
  }

  function StartDec(input: seq<bit>): Dec {
    Dec(0, TWO32 - 1, Prefix(input, 32), 32)
  }

  function DecAdvance(d: Dec, input: seq<bit>): Dec
    requires MoveOf(d.low, d.high) != Stop
  {
    var o := OffsetOf(MoveOf(d.low, d.high));
    Dec(2 * (d.low - o), 2 * (d.high - o) + 1, 2 * (d.code - o) + BitAt(input, d.pos), d.pos + 1)
  }

  function DecRenorm(d: Dec, input: seq<bit>): (r: Dec)
    requires d.Valid()
    ensures r.Settled()
    decreases TWO32 - (d.high - d.low)
  {
    if MoveOf(d.low, d.high) == Stop then d else DecRenorm(DecAdvance(d, input), input)
  }

  /** The decoder's code lies in the subinterval that the table gives to symbol b. */
  predicate Holds(d: Dec, t: Table, b: byte) {
    ScaleLow(d.low, d.high, t[b], t[256]) <= d.code < ScaleLow(d.low, d.high, t[b + 1], t[256])
  }

  /** The subintervals tile the interval: at most one symbol holds the code ... */
  lemma HoldsUnique(d: Dec, t: Table, a: byte, b: byte)
    requires d.Settled() && Holds(d, t, a) && Holds(d, t, b)
    ensures a == b
  {
    if a < b {
      ScaleMono(d, t, a + 1, b);
    } else if b < a {
      ScaleMono(d, t, b + 1, a);
    }
  }

  lemma ScaleMono(d: Dec, t: Table, i: nat, j: nat)
    requires d.Settled() && i <= j <= 256
    ensures ScaleLow(d.low, d.high, t[i], t[256]) <= ScaleLow(d.low, d.high, t[j], t[256])
  {
    if i < j {
      ScaleGap(d.high - d.low + 1, t[i], t[j], t[256]);
    }
  }

  /** ... and at least one does. */
  lemma {:induction false} HoldsExists(d: Dec, t: Table, k: nat)
    requires d.Settled() && k <= 255
    requires d.code < ScaleLow(d.low, d.high, t[k + 1], t[256])
    ensures exists b: byte :: Holds(d, t, b)
  {
    if ScaleLow(d.low, d.high, t[k], t[256]) <= d.code {
      assert Holds(d, t, k);
    } else {
      HoldsExists(d, t, k - 1);
    }
  }

  lemma ScaleWhole(d: Dec, t: Table)
    ensures ScaleLow(d.low, d.high, t[256], t[256]) == d.high + 1
    ensures ScaleLow(d.low, d.high, t[0], t[256]) == d.low
  {
    MulDiv(d.high - d.low + 1, t[256]);
  }

  /** The one symbol whose subinterval holds the code. */
  ghost function SymbolAt(d: Dec, t: Table): (b: byte)
    requires d.Settled()
    ensures Holds(d, t, b)
  {
    ScaleWhole(d, t);
    HoldsExists(d, t, 255);
    var b: byte :| Holds(d, t, b);
    b
  }

  function DecNarrow(d: Dec, t: Table, b: byte): Dec {
    d.(low := ScaleLow(d.low, d.high, t[b], t[256]), high := ScaleLow(d.low, d.high, t[b + 1], t[256]) - 1)
  }

  lemma DecNarrowValid(d: Dec, t: Table, b: byte)
    requires d.Settled() && Holds(d, t, b)
    ensures DecNarrow(d, t, b).Valid()
  {
    ScaleGap(d.high - d.low + 1, t[b], t[b + 1], t[256]);
  }

  /** On any input whatever, a step consumes the symbol that holds the code and stays inside its interval. */
  function DecSym(d: Dec, t: Table, b: byte, input: seq<bit>): (r: Dec)
    requires d.Settled() && Holds(d, t, b)
    ensures r.Settled()
  {
    DecNarrowValid(d, t, b);
    DecRenorm(DecNarrow(d, t, b), input)
  }

  ghost function DecRun(m: Model, h: seq<byte>, n: nat, d: Dec, input: seq<bit>): (r: seq<byte>)
    requires d.Settled()
    ensures |r| == n
    decreases n
  {
    if n == 0 then [] else
    var b := SymbolAt(d, m(h));
    [b] + DecRun(m, h + [b], n - 1, DecSym(d, m(h), b, input), input)
  }

  lemma StartDecSettled(input: seq<bit>)
    ensures StartDec(input).Settled()
  {
    PrefixBound(input, 32);
    Pow2Values();
  }

  lemma {:induction false} PrefixBound(input: seq<bit>, k: nat)
    ensures Prefix(input, k) < Pow2(k)
  {
    if k > 0 {
      PrefixBound(input, k - 1);
    }
  }

  ghost function DecodedBytes(m: Model, input: seq<bit>, n: nat): (r: seq<byte>)
    ensures |r| == n
  {
    StartDecSettled(input);
    DecRun(m, [], n, StartDec(input), input)
  }

  // ----- the encoder's interval as a set of code values -----

  /**
   * The part of the code value that is already decided, scaled by 2^32: the bits spelled by e
   * followed by p deferred bits, E * 2^(p + 32) + (2^p - 1) * 2^31 for an emitted value E.
   */
  function Decided(e: nat, p: nat): nat {
    if p == 0 then e * TWO32 else 2 * Decided(e, p - 1) + HALF
  }

  /** What a decoder reading input has left in its code register once it has followed e. */
  function CodeOf(e: Enc, input: seq<bit>): int {
    Prefix(input, e.Scale() + 32) - Decided(Val(e.bits), e.pending)
  }

  /** The code value spelled by input lies in the interval of e. */
  predicate Contains(e: Enc, input: seq<bit>) {
    e.low <= CodeOf(e, input) <= e.high
  }

  lemma FlushedStep(v: nat, d: nat, b: bit)
    requires v * TWO32 == 2 * d + (if b == 0 then 0 else TWO32)
    ensures (2 * v + (1 - b)) * TWO32 == 2 * (2 * d + HALF) + (if b == 0 then 0 else TWO32)
  {
  }

  /** Resolving the pending bits decides exactly one more digit. */
  lemma {:induction false} FlushedVal(bits: seq<bit>, b: bit, p: nat)
    ensures Val(Flushed(bits, b, p)) * TWO32 == 2 * Decided(Val(bits), p) + (if b == 0 then 0 else TWO32)
  {
    if p == 0 {
      ValAppend(bits, b);
    } else {
      FlushedVal(bits, b, p - 1);
      ValAppend(Flushed(bits, b, p - 1), 1 - b);
      FlushedStep(Val(Flushed(bits, b, p - 1)), Decided(Val(bits), p - 1), b);
    }
  }

  /** Each rescaling doubles the code, less the offset taken off, and brings in the next digit. */
  lemma AdvanceCode(e: Enc, input: seq<bit>)
    requires MoveOf(e.low, e.high) != Stop
    ensures Advance(e).Scale() == e.Scale() + 1
    ensures CodeOf(Advance(e), input)
         == 2 * (CodeOf(e, input) - OffsetOf(MoveOf(e.low, e.high))) + BitAt(input, e.Scale() + 32)
  {
    match MoveOf(e.low, e.high)
    case Zero =>
      FlushedVal(e.bits, 0, e.pending);
    case One =>
      FlushedVal(e.bits, 1, e.pending);
    case Straddle =>
  }

  /** Intervals nest: a code value inside the interval after rescaling was inside it before. */
  lemma {:induction false} RenormNests(e: Enc, input: seq<bit>)
    requires e.Valid() && Contains(Renorm(e), input)
    ensures Contains(e, input)
    decreases TWO32 - (e.high - e.low)
  {
    if MoveOf(e.low, e.high) != Stop {
      RenormNests(Advance(e), input);
      AdvanceCode(e, input);
    }
  }

  lemma {:induction false} EncRunNests(m: Model, h: seq<byte>, rest: seq<byte>, e: Enc, input: seq<bit>)
    requires e.Settled() && Contains(EncRun(m, h, rest, e), input)
    ensures Contains(e, input)
    ensures rest != [] ==> Contains(Narrow(e, m(h)[rest[0]], m(h)[rest[0] + 1], m(h)[256]), input)
    decreases |rest|
  {
    if rest != [] {
      var t, b := m(h), rest[0];
      EncRunNests(m, h + [b], rest[1..], EncSym(e, t, b), input);
      NarrowValid(e, t[b], t[b + 1], t[256]);
      RenormNests(Narrow(e, t[b], t[b + 1], t[256]), input);
    }
  }

  /** Whatever bits follow, n more of them leave a prefix inside its own 2^n values. */
  lemma {:induction false} PrefixSpan(input: seq<bit>, k: nat, n: nat)
    ensures Prefix(input, k) * Pow2(n) <= Prefix(input, k + n) < (Prefix(input, k) + 1) * Pow2(n)
  {
    if n > 0 {
      assert Pow2(n) == 2 * Pow2(n - 1);
      assert Prefix(input, k + n) == 2 * Prefix(input, k + n - 1) + BitAt(input, k + n - 1);
      hide Prefix, Pow2, BitAt;
      PrefixSpan(input, k, n - 1);
      TwiceProduct(Prefix(input, k), Pow2(n - 1));
      TwiceProduct(Prefix(input, k) + 1, Pow2(n - 1));
    }
  }

  lemma TwiceProduct(a: nat, b: nat)
    ensures 2 * (a * b) == a * (2 * b)
  {
  }

  lemma FinishCode(v: nat, d: nat, b: bit)
    requires v * TWO32 == 2 * (2 * d + HALF) + (if b == 0 then 0 else TWO32)
    ensures v * QUARTER - d == (if b == 0 then QUARTER else HALF)
  {
  }

  lemma FlushedBase(e: Enc, b: bit)
    ensures Val(Flushed(e.bits, b, e.pending + 1)) * QUARTER - Decided(Val(e.bits), e.pending)
         == if b == 0 then QUARTER else HALF
  {
    var d := Decided(Val(e.bits), e.pending);
    FlushedVal(e.bits, b, e.pending + 1);
    assert Decided(Val(e.bits), e.pending + 1) == 2 * d + HALF;
    FinishCode(Val(Flushed(e.bits, b, e.pending + 1)), d, b);
  }

  lemma FlushedPrefix(f: seq<bit>, k: nat, input: seq<bit>)
    requires f <= input && |f| == k
    ensures Val(f) * QUARTER <= Prefix(input, k + 30) < (Val(f) + 1) * QUARTER
  {
    PrefixIsVal(input, k);
    assert input[..k] == f;
    hide *;
    PrefixSpan(input, k, 30);
    Pow2Values();
  }

  /** After bit b and the complements, any input has a code in one quarter: the second for 0, the third for 1. */
  lemma FlushedQuarter(e: Enc, b: bit, input: seq<bit>)
    requires Flushed(e.bits, b, e.pending + 1) <= input
    ensures (if b == 0 then QUARTER else HALF) <= CodeOf(e, input) < (if b == 0 then HALF else 3 * QUARTER)
  {
    var f, k := Flushed(e.bits, b, e.pending + 1), e.Scale() + 2;
    assert |f| == k && e.Scale() + 32 == k + 30;
    hide Flushed, Prefix, Decided, Val;
    FlushedBase(e, b);
    FlushedPrefix(f, k, input);
  }

  /** The short final flush names values inside the final interval only, whatever bits follow it. */
  lemma FinishInside(e: Enc, input: seq<bit>)
    requires e.Settled()
    requires FinishBits(e) <= input
    ensures Contains(e, input)
  {
    FlushedQuarter(e, FinishBit(e), input);
  }

  /** Behind the flush of bit b, the code is as far up its quarter as 30 bits of x say. */
  lemma FlushedReaches(e: Enc, b: bit, x: seq<bit>)
    requires |x| == 30
    ensures CodeOf(e, Flushed(e.bits, b, e.pending + 1) + x) == (if b == 0 then QUARTER else HALF) + Val(x)
  {
    var f, k := Flushed(e.bits, b, e.pending + 1), e.Scale() + 2;
    assert |f| == k && e.Scale() + 32 == k + 30 == |f + x|;
    assert (f + x)[..k + 30] == f + x;
    hide Flushed, Prefix, Decided, Val;
    PrefixIsVal(f + x, k + 30);
    ValConcat(f, x);
    Pow2Values();
    FlushedBase(e, b);
  }

  lemma {:induction false} ValConcat(a: seq<bit>, b: seq<bit>)
    ensures Val(a + b) == Val(a) * Pow2(|b|) + Val(b)
  {
    if b == [] {
      assert a + b == a;
    } else {
      var front, last := b[..|b| - 1], b[|b| - 1];
      assert a + b == (a + front) + [last];
      ValAppend(a + front, last);
      ValConcat(a, front);
      assert Pow2(|b|) == 2 * Pow2(|front|);
      TwiceProduct(Val(a), Pow2(|front|));
    }
  }

  /** The flush of 0 may be followed by anything. */
  ghost predicate ZeroServes(e: Enc) {
    forall input :: Flushed(e.bits, 0, e.pending + 1) <= input ==> Contains(e, input)
  }

  /** The flush of 0 never names the lowest value of the interval, nor one below it. */
  ghost predicate ZeroClears(e: Enc) {
    forall input :: Flushed(e.bits, 0, e.pending + 1) <= input ==> e.low < CodeOf(e, input) <= e.high
  }

  /**
   * Which code the flush writes: the lower one exactly when every continuation of it lies above the
   * lowest value of the interval.  So the upper one is written where some continuation of the lower one would
   * leave the interval, and in one case more: an interval starting exactly at 2^30, which both codes would serve.
   */
  lemma FinishChoice(e: Enc)
    requires e.Settled()
    ensures FinishBit(e) == 0 <==> ZeroClears(e)
    ensures ZeroServes(e) <==> e.low <= QUARTER
    ensures ZeroServes(e) && FinishBit(e) == 1 <==> e.low == QUARTER
  {
    forall input | Flushed(e.bits, 0, e.pending + 1) <= input
      ensures QUARTER <= CodeOf(e, input) < HALF
      ensures e.low <= QUARTER ==> Contains(e, input)
    {
      FlushedQuarter(e, 0, input);
    }
    var lowest := Flushed(e.bits, 0, e.pending + 1) + seq(30, _ => 0);
    FlushedReaches(e, 0, seq(30, _ => 0));
    ValZeros(30);
    assert CodeOf(e, lowest) == QUARTER;
    assert Flushed(e.bits, 0, e.pending + 1) <= lowest;
    assert Contains(e, lowest) ==> e.low <= QUARTER;
  }

  lemma {:induction false} ValZeros(n: nat)
    ensures Val(seq(n, _ => 0)) == 0
  {
    if n > 0 {
      var z := seq(n, _ => 0);
      assert z[..n - 1] == seq(n - 1, _ => 0);
      ValZeros(n - 1);
    }
  }

  /** A table whose symbol 1 has the second quarter of the range and more. */
  const TIED: Table := seq(257, i => if i == 0 then 0 else if i == 1 then 256 else 768 + i)

  /** The one case is met: the message [1] under this table ends at 2^30 and is written 10, where 01 would serve. */
  lemma UpperThoughLowerServes()
    ensures var e := EncSym(START_ENC, TIED, 1); e.low == QUARTER && ZeroServes(e)
    ensures EncodedBits(_ => TIED, [1]) == [1, 0]
  {
    var t: Table := TIED;
    var m: Model := _ => t;
    assert t[1] == 256 && t[2] == 770 && t[256] == 1024;
    var n := Narrow(START_ENC, t[1], t[2], t[256]);
    assert n == Enc(QUARTER, 0xC080_0000 - 1, 0, []);
    assert Renorm(n) == n;
    FinishChoice(n);
    var h: seq<byte>, rest: seq<byte> := [], [1];
    assert m(h) == t && rest[1..] == [];
    assert EncRun(m, h, rest, START_ENC) == EncSym(START_ENC, t, 1) == n;
    assert Flushed([], 1, 1) == Flushed([], 1, 0) + [0];
  }

  // ----- decoder follows encoder -----

  /** The decoder holds the encoder's interval and the remaining code value. */
  predicate InStep(e: Enc, d: Dec, input: seq<bit>) {
    && d.low == e.low
    && d.high == e.high
    && d.pos == e.Scale() + 32
    && d.code == CodeOf(e, input)
  }

  lemma {:induction false} RenormInStep(e: Enc, d: Dec, input: seq<bit>)
    requires e.Valid() && d.Valid() && InStep(e, d, input)
    ensures InStep(Renorm(e), DecRenorm(d, input), input)
    decreases TWO32 - (e.high - e.low)
  {
    if MoveOf(e.low, e.high) != Stop {
      AdvanceCode(e, input);
      RenormInStep(Advance(e), DecAdvance(d, input), input);
    }
  }

  lemma {:induction false} DecodeFollows(m: Model, h: seq<byte>, rest: seq<byte>, e: Enc, d: Dec, input: seq<bit>)
    requires e.Settled() && d.Settled() && InStep(e, d, input)
    requires Contains(EncRun(m, h, rest, e), input)
    ensures DecRun(m, h, |rest|, d, input) == rest
    decreases |rest|
  {
    if rest != [] {
      var t, b := m(h), rest[0];
      var n := Narrow(e, t[b], t[b + 1], t[256]);
      EncRunNests(m, h, rest, e, input);
      assert Holds(d, t, b);
      HoldsUnique(d, t, b, SymbolAt(d, t));
      NarrowValid(e, t[b], t[b + 1], t[256]);
      DecNarrowValid(d, t, b);
      RenormInStep(n, DecNarrow(d, t, b), input);
      DecodeFollows(m, h + [b], rest[1..], EncSym(e, t, b), DecSym(d, t, b, input), input);
      assert rest == [b] + rest[1..];
    }
  }

  /**
   * Losslessness: for every message and every deterministic adaptive model, decoding the
   * encoder's bits gives back the message, whatever bits follow them.
   */
  lemma DecodeInvertsEncode(m: Model, msg: seq<byte>, input: seq<bit>)
    requires EncodedBits(m, msg) <= input
    ensures DecodedBytes(m, input, |msg|) == msg
  {
    var e := EncRun(m, [], msg, START_ENC);
    FinishInside(e, input);
    StartDecSettled(input);
    DecodeFollows(m, [], msg, START_ENC, StartDec(input), input);
  }

  /**
   * Where a message lies: its first 32 bits, read as a fraction of 2^32, fall into the share of the first
   * byte, the bytes taking their shares of the line in ascending order.
   */
  lemma FirstByteShare(m: Model, msg: seq<byte>, input: seq<bit>)
    requires msg != [] && EncodedBits(m, msg) <= input
    ensures var t, b, x := m([]), msg[0], Prefix(input, 32);
      t[b] * TWO32 < (x + 1) * t[256] <= t[b + 1] * TWO32
  {
    var t, b, x := m([]), msg[0], Prefix(input, 32);
    var n := Narrow(START_ENC, t[b], t[b + 1], t[256]);
    FinishInside(EncRun(m, [], msg, START_ENC), input);
    EncRunNests(m, [], msg, START_ENC, input);
    assert n.low <= CodeOf(START_ENC, input) <= n.high;
    assert CodeOf(START_ENC, input) == x;
    ShareOf(x, t[b], t[b + 1], t[256]);
  }

  lemma ShareOf(x: nat, cl: nat, ch: nat, tot: nat)
    requires tot > 0 && Scaled(TWO32, cl, tot) <= x < Scaled(TWO32, ch, tot)
    ensures cl * TWO32 < (x + 1) * tot <= ch * TWO32
  {
    DivBounds(TWO32 * cl, tot);
    DivBounds(TWO32 * ch, tot);
    MulMono(Scaled(TWO32, cl, tot) + 1, x + 1, tot);
    MulMono(x + 1, Scaled(TWO32, ch, tot), tot);
  }

  // ----- size -----

  function RangeOf(e: Enc): int {
    e.high - e.low + 1
  }

  /** Rescaling trades the range against the number of digits exactly. */
  lemma {:induction false} RenormSize(e: Enc)
    requires e.Valid()
    ensures RangeOf(Renorm(e)) * Pow2(e.Scale()) == RangeOf(e) * Pow2(Renorm(e).Scale())
    decreases TWO32 - (e.high - e.low)
  {
    if MoveOf(e.low, e.high) != Stop {
      var a := Advance(e);
      RenormSize(a);
      AdvanceCode(e, []);
      assert RangeOf(a) == 2 * RangeOf(e);
      TradeStep(RangeOf(Renorm(e)), Pow2(e.Scale()), RangeOf(e), Pow2(Renorm(e).Scale()));
    }
  }

  lemma TradeStep(r': int, p: int, r: int, p': int)
    requires r' * (2 * p) == (2 * r) * p'
    ensures r' * p == r * p'
  {
  }

  /** One symbol uses at most 16 digits, amortised over the range it leaves. */
  lemma EncSymSize(e: Enc, t: Table, b: byte)
    requires e.Settled()
    ensures RangeOf(EncSym(e, t, b)) * Pow2(e.Scale()) * 0x1_0000 >= RangeOf(e) * Pow2(EncSym(e, t, b).Scale())
  {
    var n := Narrow(e, t[b], t[b + 1], t[256]);
    NarrowValid(e, t[b], t[b + 1], t[256]);
    ScaleGap(RangeOf(e), t[b], t[b + 1], t[256]);
    assert RangeOf(n) * 0x1_0000 >= RangeOf(e);
    RenormSize(n);
    NarrowTrade(RangeOf(EncSym(e, t, b)), Pow2(e.Scale()), RangeOf(n), Pow2(EncSym(e, t, b).Scale()), RangeOf(e));
  }

  lemma NarrowTrade(r': int, p: int, n: int, p': nat, r: int)
    requires r' * p == n * p' && n * 0x1_0000 >= r
    ensures r' * p * 0x1_0000 >= r * p'
  {
    MulMono(r, n * 0x1_0000, p');
    assert n * 0x1_0000 * p' == n * p' * 0x1_0000;
  }

  lemma {:induction false} EncRunSize(m: Model, h: seq<byte>, rest: seq<byte>, e: Enc)
    requires e.Settled()
    ensures RangeOf(EncRun(m, h, rest, e)) * (Pow2(e.Scale()) * Pow2(16 * |rest|))
         >= RangeOf(e) * Pow2(EncRun(m, h, rest, e).Scale())
    decreases |rest|
  {
    if rest != [] {
      var e1 := EncSym(e, m(h), rest[0]);
      EncSymSize(e, m(h), rest[0]);
      EncRunSize(m, h + [rest[0]], rest[1..], e1);
      var k := 16 * |rest[1..]|;
      Pow2Add(16, k);
      Pow2Values();
      SizeChain(RangeOf(EncRun(m, h, rest, e)), Pow2(EncRun(m, h, rest, e).Scale()), RangeOf(e1), Pow2(e1.Scale()),
                RangeOf(e), Pow2(e.Scale()), Pow2(k));
      assert 16 + k == 16 * |rest|;
    } else {
      assert Pow2(16 * |rest|) == 1;
    }
  }

  lemma SizeChain(r2: int, p2: nat, r1: int, p1: nat, r0: int, p0: nat, k: nat)
    requires r1 > 0 && p1 > 0
    requires r1 * p0 * 0x1_0000 >= r0 * p1
    requires r2 * (p1 * k) >= r1 * p2
    ensures r2 * (p0 * (0x1_0000 * k)) >= r0 * p2
  {
    var a, b := r2 * (p0 * (0x1_0000 * k)), r0 * p2;
    MulMono(r1 * p2, r2 * (p1 * k), p0 * 0x1_0000);
    MulMono(r0 * p1, r1 * p0 * 0x1_0000, p2);
    assert a * p1 == r2 * (p1 * k) * (p0 * 0x1_0000);
    assert r1 * p2 * (p0 * 0x1_0000) == r1 * p0 * 0x1_0000 * p2;
    assert b * p1 == r0 * p1 * p2;
    if a < b {
      MulMono(a + 1, b, p1);
    }
  }

  /** Over any run, bits emitted plus pending never exceed 16 per symbol. */
  lemma SixteenBitsPerSymbol(m: Model, msg: seq<byte>)
    ensures EncRun(m, [], msg, START_ENC).Scale() <= 16 * |msg|
    ensures |EncodedBits(m, msg)| == EncRun(m, [], msg, START_ENC).Scale() + 2
  {
    var e := EncRun(m, [], msg, START_ENC);
    EncRunSize(m, [], msg, START_ENC);
    var p, q := Pow2(e.Scale()), Pow2(16 * |msg|);
    assert RangeOf(e) * q >= TWO32 * p;
    MulMono(RangeOf(e), TWO32, q);
    assert q >= p;
    if e.Scale() > 16 * |msg| {
      Pow2Mono(16 * |msg|, e.Scale());
    }
  }
}
