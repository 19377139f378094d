/** The next-byte distribution of the context model, specified as a blend computed for every byte separately. */
module Distribution {
  import opened Words
  import opened Arith
  import opened Occurrences
  import opened BtSnapshot
  import BtTrain

  const PSCALE := 0x1000_0000
  const WSCALE := 0x1000_0000
  const LOG2_UNIT := 0x1_0000

  /** A group of context lengths and its weight times 256. */
  datatype Level = Level(dmin: nat, dmax: nat, weight: nat)

  const LEVELS: seq<Level> :=
    [Level(1, 2, 230), Level(3, 4, 333), Level(5, 8, 384), Level(9, 12, 435), Level(13, 16, 384), Level(17, 24, 282)]

  /** The lookup tables: n*log2(e), 20*log2(confidence) and fractional powers of two, in fixed point. */
  datatype Luts = Luts(expLog2: seq<nat>, confLog2: seq<nat>, exp2Frac: seq<nat>, exp2Step: nat)

  predicate Shaped(t: Luts) {
    |t.expLog2| == MAX_DEPTH + 1 && 0 < |t.confLog2| <= 0x1_0000 && |t.exp2Frac| > 0 && t.exp2Step > 0
  }

  /** Shapes and ranges that the table builders guarantee. */
  predicate GoodLuts(t: Luts) {
    && Shaped(t)
    && (forall n :: 0 <= n <= MAX_DEPTH ==> t.expLog2[n] == 94548 * n)
    && (forall i :: 0 <= i < |t.confLog2| ==> t.confLog2[i] < 20 * 8 * LOG2_UNIT)
    && t.exp2Frac[0] == WSCALE
    && (forall f :: 0 <= f < |t.exp2Frac| ==> t.exp2Frac[f] <= WSCALE)
  }

  function FracIndex(neg: nat, step: nat, n: nat): (i: nat)
    requires step > 0 && n > 0
    ensures i < n
  {
    neg / step % n
  }

  /** WSCALE * 2^(norm / 2^16) for norm <= 0, and 0 from 40 halvings on. */
  function Exp2W(t: Luts, norm: int): (w: nat)
    requires Shaped(t) && norm <= 0
  {
    var neg := -norm;
    if neg / LOG2_UNIT >= 40 then 0
    else Halved(t.exp2Frac[FracIndex(neg, t.exp2Step, |t.exp2Frac|)], neg / LOG2_UNIT)
  }

  /** x shifted right k places. */
  function Halved(x: nat, k: nat): (r: nat)
    ensures r <= x
  {
    if k == 0 then x else Halved(x, k - 1) / 2
  }

  /** The evidence of one context for a byte: log-weight and probability. */
  datatype Evidence = Evidence(l: nat, p: nat)

  function Quotient(n: nat, d: nat): (q: nat)
    requires d > 0
    ensures q <= n
  {
    DivNat(n, d);
    DivShrinks(n, d);
    n / d
  }

  /** The index of a quotient: converted to a signed 32-bit integer, then capped.  It can come out negative. */
  function ConfIndex(q: nat, pres: nat): (i: int)
    requires pres > 0
    ensures i < pres
  {
    var i := Signed(U32(q));
    if i >= pres then pres - 1 else i
  }

  lemma SmallIndex(q: nat, pres: nat)
    requires pres > 0 && q < 0x8000_0000
    ensures ConfIndex(q, pres) >= 0
  {
    assert U32(q) == q;
  }

  /** The divisor for bytes not observed after a context: the 32-bit sum wraps. */
  function Spread(total: nat): uint32 {
    U32(total + 256)
  }

  /**
   * The counts of a context and one byte on which the evidence is defined: 32-bit words, no division by zero,
   * no negative index.
   */
  predicate CountsFit(t: Luts, total: nat, f: nat) {
    && |t.confLog2| > 0
    && 0 < total < TWO32 && f < TWO32 && Spread(total) > 0
    && ConfIndex(Quotient(f * |t.confLog2|, total), |t.confLog2|) >= 0
  }

  function Unobserved(t: Luts, n: nat, total: nat): Evidence
    requires Shaped(t) && n <= MAX_DEPTH && Spread(total) > 0
  {
    var pres, d := |t.confLog2|, Spread(total);
    SmallIndex(Quotient(pres, d), pres);
    Evidence(t.expLog2[n] + t.confLog2[ConfIndex(Quotient(pres, d), pres)], Quotient(PSCALE, d))
  }

  function Observed(t: Luts, n: nat, total: nat, f: nat): Evidence
    requires Shaped(t) && n <= MAX_DEPTH && CountsFit(t, total, f)
  {
    var pres := |t.confLog2|;
    Evidence(t.expLog2[n] + t.confLog2[ConfIndex(Quotient(f * pres, total), pres)], Quotient(f * PSCALE, total))
  }

  function EvidenceFor(t: Luts, n: nat, total: nat, f: nat): Evidence
    requires Shaped(t) && n <= MAX_DEPTH && CountsFit(t, total, f)
  {
    if f > 0 then Observed(t, n, total, f) else Unobserved(t, n, total)
  }

  // ----- weighted mean of evidence -----

  function MaxL(ev: seq<Evidence>): (m: nat)
    ensures forall i :: 0 <= i < |ev| ==> ev[i].l <= m
    ensures ev != [] ==> exists i :: 0 <= i < |ev| && ev[i].l == m
  {
    if ev == [] then 0
    else
      var m := MaxL(ev[..|ev| - 1]);
      var last := ev[|ev| - 1].l;
      assert forall i :: 0 <= i < |ev| - 1 ==> ev[i] == ev[..|ev| - 1][i];
      if last > m || |ev| == 1 then last else m
  }

  function Weights(t: Luts, ev: seq<Evidence>, m: nat): nat
    requires Shaped(t) && forall i :: 0 <= i < |ev| ==> ev[i].l <= m
  {
    if ev == [] then 0
    else Weights(t, ev[..|ev| - 1], m) + Exp2W(t, ev[|ev| - 1].l - m)
  }

  function Weighted(t: Luts, ev: seq<Evidence>, m: nat): nat
    requires Shaped(t) && forall i :: 0 <= i < |ev| ==> ev[i].l <= m
  {
    if ev == [] then 0
    else Weighted(t, ev[..|ev| - 1], m) + Exp2W(t, ev[|ev| - 1].l - m) * ev[|ev| - 1].p
  }

  /** Whether the evidence carries weight, and its weighted mean probability. */
  function HasMean(t: Luts, ev: seq<Evidence>): bool
    requires Shaped(t)
  {
    Weights(t, ev, MaxL(ev)) > 0
  }

  function Mean(t: Luts, ev: seq<Evidence>): nat
    requires Shaped(t)
  {
    var den := Weights(t, ev, MaxL(ev));
    if den > 0 then
      DivNat(Weighted(t, ev, MaxL(ev)), den);
      Weighted(t, ev, MaxL(ev)) / den
    else 0
  }

  // ----- the simple form -----

  /** What a distribution depends on: the tables, the hashes, the fixed-point tables and the window. */
  datatype View = View(s: Snapshot, hs: BtTrain.Hashes, luts: Luts, w: seq<byte>)

  /** A view whose lookups end; its counts may be any. */
  ghost predicate TableView(v: View) {
    Readable(v.s) && Shaped(v.luts) && GoodLuts(v.luts) && |v.w| <= MAX_DEPTH
  }

  function Suffix(w: seq<byte>, n: nat): Context
    requires n <= |w|
  {
    w[|w| - n..]
  }

  /** The context lengths from n down to dmin that the tables know, longest first. */
  ghost function Depths(v: View, n: nat, dmin: nat): (d: seq<nat>)
    requires TableView(v) && n <= |v.w|
    ensures forall i :: 0 <= i < |d| ==> dmin <= d[i] <= n && TotalOf(v.s, v.hs, Suffix(v.w, d[i])) > 0
    ensures |d| <= if n >= dmin then n - dmin + 1 else 0
    decreases n
  {
    if n < dmin then []
    else
      var here := if TotalOf(v.s, v.hs, Suffix(v.w, n)) > 0 then [n] else [];
      if n == 0 then here else here + Depths(v, n - 1, dmin)
  }

  ghost function LevelDepths(v: View, lv: Level): (d: seq<nat>)
    requires TableView(v)
    ensures forall i :: 0 <= i < |d| ==> d[i] <= |v.w| && TotalOf(v.s, v.hs, Suffix(v.w, d[i])) > 0
  {
    Depths(v, if |v.w| < lv.dmax then |v.w| else lv.dmax, lv.dmin)
  }

  ghost predicate DepthFits(v: View, n: nat, b: byte)
    requires TableView(v) && n <= |v.w|
  {
    CountsFit(v.luts, TotalOf(v.s, v.hs, Suffix(v.w, n)), FreqOf(v.s, v.hs, Suffix(v.w, n), b))
  }

  ghost predicate DepthsFit(v: View, d: seq<nat>, b: byte)
    requires TableView(v)
  {
    forall i :: 0 <= i < |d| ==> d[i] <= |v.w| && DepthFits(v, d[i], b)
  }

  /** The evidence that the contexts of the given lengths hold for byte b. */
  ghost function EvidenceAt(v: View, d: seq<nat>, b: byte): (ev: seq<Evidence>)
    requires TableView(v) && DepthsFit(v, d, b)
    ensures |ev| == |d|
  {
    seq(|d|, i requires 0 <= i < |d| => EvidenceOf(v, d[i], b))
  }

  ghost function EvidenceOf(v: View, n: nat, b: byte): Evidence
    requires TableView(v) && n <= |v.w| && DepthFits(v, n, b)
  {
    EvidenceFor(v.luts, n, TotalOf(v.s, v.hs, Suffix(v.w, n)), FreqOf(v.s, v.hs, Suffix(v.w, n), b))
  }

  // ----- where the computation is defined -----

  /** The weighted sum over the contexts fits a signed 64-bit word. */
  ghost predicate SumFits(v: View, d: seq<nat>, b: byte)
    requires TableView(v) && DepthsFit(v, d, b)
  {
    var ev := EvidenceAt(v, d, b);
    Weighted(v.luts, ev, MaxL(ev)) < TWO63
  }

  ghost predicate ByteDefined(v: View, d: seq<nat>, b: byte)
    requires TableView(v)
  {
    DepthsFit(v, d, b) && SumFits(v, d, b)
  }

  /** The lookups of a level, one for every length that fits the window, come to an end. */
  ghost predicate LookupsEnd(v: View, lv: Level)
    requires TableView(v)
  {
    forall n: nat :: lv.dmin <= n <= lv.dmax && n <= |v.w| ==> LookupEnds(v.s, v.hs, Suffix(v.w, n))
  }

  ghost predicate LevelDefined(v: View, lv: Level)
    requires TableView(v)
  {
    LookupsEnd(v, lv) && forall b: byte :: ByteDefined(v, LevelDepths(v, lv), b)
  }

  /** The computation ends, divides by no zero, stays inside its tables and overflows no sum over the contexts. */
  ghost predicate Defined(v: View)
    requires TableView(v)
  {
    forall k :: 0 <= k < |LEVELS| ==> LevelDefined(v, LEVELS[k])
  }

  ghost predicate GoodView(v: View) {
    TableView(v) && Defined(v)
  }

  lemma LevelIsDefined(v: View, k: nat)
    requires GoodView(v) && k < |LEVELS|
    ensures TableView(v) && LevelDefined(v, LEVELS[k])
  {
  }

  /** What a level adds for byte b: its weighted mean, and its weight. */
  ghost function LevelShare(v: View, lv: Level, b: byte): (r: (nat, nat))
    requires TableView(v) && LevelDefined(v, lv)
  {
    assert ByteDefined(v, LevelDepths(v, lv), b);
    Share(v.luts, lv.weight, EvidenceAt(v, LevelDepths(v, lv), b))
  }

  function Share(t: Luts, weight: nat, ev: seq<Evidence>): (nat, nat)
    requires Shaped(t)
  {
    if HasMean(t, ev) then (weight * Mean(t, ev), weight) else (0, 0)
  }

  /** The shares of the first k levels for byte b, summed. */
  ghost function Blend(v: View, b: byte, k: nat): (r: (nat, nat))
    requires GoodView(v) && k <= |LEVELS|
  {
    if k == 0 then (0, 0)
    else
      LevelIsDefined(v, k - 1);
      var below, share := Blend(v, b, k - 1), LevelShare(v, LEVELS[k - 1], b);
      (below.0 + share.0, below.1 + share.1)
  }

  lemma BlendStep(v: View, b: byte, k: nat)
    requires GoodView(v) && k < |LEVELS|
    ensures TableView(v) && LevelDefined(v, LEVELS[k])
    ensures Blend(v, b, k + 1) == (Blend(v, b, k).0 + LevelShare(v, LEVELS[k], b).0,
                                   Blend(v, b, k).1 + LevelShare(v, LEVELS[k], b).1)
  {
    hide LevelShare, GoodView;
    LevelIsDefined(v, k);
  }

  function Clamp(x: int): (p: nat)
    ensures 1 <= p <= PSCALE
  {
    if x < 1 then 1 else if x > PSCALE then PSCALE else x
  }

  function ProbOf(ws: nat, wt: nat): (p: nat)
    ensures 1 <= p <= PSCALE
  {
    Clamp(if wt > 0 then ws / wt else PSCALE / 256)
  }

  /** The probability of byte b, computed for this byte alone. */
  ghost function SimpleProb(v: View, b: byte): (p: nat)
    requires GoodView(v)
    ensures 1 <= p <= PSCALE
  {
    if |v.w| == 0 then PSCALE / 256
    else
      var (ws, wt) := Blend(v, b, |LEVELS|);
      ProbOf(ws, wt)
  }

  ghost function SimpleProbs(v: View): (p: seq<nat>)
    requires GoodView(v)
    ensures |p| == 256 && forall b :: 0 <= b < 256 ==> 1 <= p[b] <= PSCALE
  {
    seq(256, b requires 0 <= b < 256 => SimpleProb(v, b))
  }

  // ----- from probabilities to a cumulative table -----

  function Total(p: seq<nat>): nat {
    if p == [] then 0 else Total(p[..|p| - 1]) + p[|p| - 1]
  }

  /** 95% of the scale by probability plus an equal share of 5%. */
  function Width(p: nat, sum: nat, scale: nat): (w: nat)
    requires sum > 0
    ensures w >= 1
  {
    DivNat(950 * scale * p, 1000 * sum);
    var w := 950 * scale * p / (1000 * sum) + 50 * scale / 256000;
    if w < 1 then 1 else w
  }

  function Widths(p: seq<nat>, scale: nat): (w: seq<nat>)
    requires Total(p) > 0
    ensures |w| == |p|
  {
    seq(|p|, b requires 0 <= b < |p| => Width(p[b], Total(p), scale))
  }

  /** Prefix sums of widths: entry b is the sum of the widths before b. */
  function Cumulative(w: seq<nat>): (c: seq<nat>)
    ensures |c| == |w| + 1
  {
    seq(|w| + 1, b requires 0 <= b <= |w| => Total(w[..b]))
  }

  lemma {:induction false} TotalAtLeast(p: seq<nat>)
    requires forall b :: 0 <= b < |p| ==> 1 <= p[b] <= PSCALE
    ensures |p| <= Total(p) <= |p| * PSCALE
  {
    if p != [] {
      TotalAtLeast(p[..|p| - 1]);
    }
  }

  ghost function SimpleTable(v: View, scale: nat): (c: seq<nat>)
    requires GoodView(v)
    ensures |c| == 257
  {
    TotalAtLeast(SimpleProbs(v));
    Cumulative(Widths(SimpleProbs(v), scale))
  }
}
