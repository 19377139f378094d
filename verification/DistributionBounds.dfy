/** Every distribution is a legal coder table, and no intermediate leaves 64 bits. */
module DistributionBounds {
  import opened Words
  import opened Arith
  import opened Occurrences
  import opened BtSnapshot
  import opened Distribution
  import RangeCoder

  // ----- cumulative tables -----

  lemma {:induction false} TotalPrefix(w: seq<nat>, b: nat)
    requires b <= |w|
    ensures Total(w[..b]) <= Total(w)
    decreases |w|
  {
    if b < |w| {
      TotalPrefix(w[..|w| - 1], b);
      assert w[..|w| - 1][..b] == w[..b];
    } else {
      assert w[..b] == w;
    }
  }

  lemma TotalStep(w: seq<nat>, b: nat)
    requires b < |w|
    ensures Total(w[..b + 1]) == Total(w[..b]) + w[b]
  {
    assert w[..b + 1][..b] == w[..b];
  }

  /** Positive widths that total at most 2^15 make a legal table, and its widths are theirs. */
  lemma CumulativeLegal(w: seq<nat>)
    requires |w| == 256 && (forall b :: 0 <= b < 256 ==> w[b] >= 1) && Total(w) <= RangeCoder.MAX_TOTAL
    ensures RangeCoder.LegalTable(Cumulative(w))
    ensures forall b :: 0 <= b < 256 ==> Cumulative(w)[b + 1] - Cumulative(w)[b] == w[b]
    ensures Cumulative(w)[256] == Total(w)
  {
    var c := Cumulative(w);
    forall b | 0 <= b < 256
      ensures c[b + 1] == c[b] + w[b]
    {
      TotalStep(w, b);
    }
    StepsIncrease(c);
    assert w[..0] == [] && w[..256] == w;
  }

  lemma StepsIncrease(c: seq<nat>)
    requires |c| == 257 && forall b :: 0 <= b < 256 ==> c[b] < c[b + 1]
    ensures forall i, j :: 0 <= i < j <= 256 ==> c[i] < c[j]
  {
    forall i, j | 0 <= i < j <= 256
      ensures c[i] < c[j]
    {
      StepsApart(c, i, j);
    }
  }

  lemma {:induction false} StepsApart(c: seq<nat>, i: nat, j: nat)
    requires i < j < |c| && forall b :: 0 <= b < |c| - 1 ==> c[b] < c[b + 1]
    ensures c[i] < c[j]
    decreases j
  {
    assert c[j - 1] < c[j - 1 + 1];
    if i < j - 1 {
      StepsApart(c, i, j - 1);
    }
  }

  // ----- widths -----

  function ShareOf(p: nat, sum: nat, k: nat): (s: nat)
    requires sum > 0
  {
    DivNat(k * p, 1000 * sum);
    k * p / (1000 * sum)
  }

  function ShareTotal(p: seq<nat>, sum: nat, k: nat): nat
    requires sum > 0
  {
    if p == [] then 0 else ShareTotal(p[..|p| - 1], sum, k) + ShareOf(p[|p| - 1], sum, k)
  }

  /** The shares of k, rounded down, do not add up to more than k. */
  lemma {:induction false} SharesAddUp(p: seq<nat>, sum: nat, k: nat)
    requires sum > 0
    ensures ShareTotal(p, sum, k) * (1000 * sum) <= k * Total(p)
  {
    if p != [] {
      var front, last := p[..|p| - 1], p[|p| - 1];
      SharesAddUp(front, sum, k);
      DivBounds(k * last, 1000 * sum);
      AddShare(ShareTotal(front, sum, k), ShareOf(last, sum, k), 1000 * sum, k, Total(front), last);
    }
  }

  lemma AddShare(t: int, s: int, d: int, k: nat, total: nat, last: nat)
    requires t * d <= k * total && s * d <= k * last
    ensures (t + s) * d <= k * (total + last)
  {
  }

  lemma {:induction false} WidthsAreShares(p: seq<nat>, sum: nat, n: nat)
    requires sum > 0 && n <= |p|
    ensures var w := seq(|p|, b requires 0 <= b < |p| => Width(p[b], sum, 16384));
      Total(w[..n]) == ShareTotal(p[..n], sum, 15564800) + 3 * n
  {
    var w := seq(|p|, b requires 0 <= b < |p| => Width(p[b], sum, 16384));
    if n > 0 {
      WidthsAreShares(p, sum, n - 1);
      TotalStep(w, n - 1);
      assert p[..n][..n - 1] == p[..n - 1];
      WidthIsShare(p[n - 1], sum);
    }
  }

  lemma WidthIsShare(p: nat, sum: nat)
    requires sum > 0
    ensures Width(p, sum, 16384) == ShareOf(p, sum, 15564800) + 3
  {
  }

  /** At the coder's scale every width is at least 3 and the total at most 16332, whatever the probabilities. */
  lemma WidthsLegal(p: seq<nat>)
    requires |p| == 256 && forall b :: 0 <= b < 256 ==> 1 <= p[b] <= PSCALE
    ensures Total(p) > 0
    ensures forall b :: 0 <= b < 256 ==> Widths(p, 16384)[b] >= 3
    ensures Total(Widths(p, 16384)) <= 16332
  {
    TotalAtLeast(p);
    var sum, w := Total(p), Widths(p, 16384);
    SharesAddUp(p, sum, 15564800);
    WidthsAreShares(p, sum, 256);
    assert p[..256] == p && w[..256] == w;
    forall b | 0 <= b < 256
      ensures w[b] >= 3
    {
      WidthIsShare(p[b], sum);
    }
    ShareLimit(ShareTotal(p, sum, 15564800), sum);
  }

  lemma ShareLimit(t: nat, sum: nat)
    requires sum > 0 && t * (1000 * sum) <= 15564800 * sum
    ensures t <= 15564
  {
    assert t * (1000 * sum) == t * 1000 * sum;
    MulCancel(t * 1000, 15564800, sum);
  }

  /** Every distribution the reader can hand out is a legal coder table. */
  lemma DistributionLegal(v: View)
    requires GoodView(v)
    ensures RangeCoder.LegalTable(SimpleTable(v, 16384))
    ensures forall b :: 0 <= b < 256 ==> SimpleTable(v, 16384)[b + 1] - SimpleTable(v, 16384)[b] >= 3
    ensures SimpleTable(v, 16384)[256] <= 16332
  {
    var p := SimpleProbs(v);
    WidthsLegal(p);
    CumulativeLegal(Widths(p, 16384));
  }

  // ----- blending -----

  lemma Exp2WRange(t: Luts, norm: int)
    requires GoodLuts(t) && norm <= 0
    ensures Exp2W(t, norm) <= WSCALE
    ensures norm == 0 ==> Exp2W(t, norm) == WSCALE
  {
    if norm == 0 {
      DivUnique(0, t.exp2Step, 0, 0);
      DivUnique(0, |t.exp2Frac|, 0, 0);
    }
  }

  /** The evidence with the largest log-weight has weight WSCALE, so the blend denominator is positive. */
  lemma {:induction false} WeightsPositive(t: Luts, ev: seq<Evidence>, m: nat, i: nat)
    requires GoodLuts(t) && (forall j :: 0 <= j < |ev| ==> ev[j].l <= m)
    requires i < |ev| && ev[i].l == m
    ensures Weights(t, ev, m) >= WSCALE
  {
    Exp2WRange(t, ev[|ev| - 1].l - m);
    if i < |ev| - 1 {
      WeightsPositive(t, ev[..|ev| - 1], m, i);
    }
  }

  lemma DenominatorPositive(t: Luts, ev: seq<Evidence>)
    requires GoodLuts(t) && ev != []
    ensures HasMean(t, ev)
  {
    var i :| 0 <= i < |ev| && ev[i].l == MaxL(ev);
    WeightsPositive(t, ev, MaxL(ev), i);
  }

  /** A weighted mean below 2^35 is what a sum below 2^63 leaves: the weights add up to 2^28 at least. */
  const MEAN_MAX := 0x8_0000_0000

  lemma MeanBound(t: Luts, ev: seq<Evidence>)
    requires GoodLuts(t) && Weighted(t, ev, MaxL(ev)) < TWO63
    ensures Mean(t, ev) < MEAN_MAX
  {
    if ev != [] {
      DenominatorPositive(t, ev);
      var i :| 0 <= i < |ev| && ev[i].l == MaxL(ev);
      WeightsPositive(t, ev, MaxL(ev), i);
      var num, den := Weighted(t, ev, MaxL(ev)), Weights(t, ev, MaxL(ev));
      MulMono2(MEAN_MAX, MEAN_MAX, WSCALE, den);
      DivBelow(MEAN_MAX, num, den);
    }
  }

  lemma ShareBound(t: Luts, weight: nat, ev: seq<Evidence>)
    requires GoodLuts(t) && Weighted(t, ev, MaxL(ev)) < TWO63
    ensures Share(t, weight, ev).0 <= weight * MEAN_MAX
    ensures Share(t, weight, ev).1 == if ev == [] then 0 else weight
  {
    MeanBound(t, ev);
    hide Mean;
    MulMono(Mean(t, ev), MEAN_MAX, weight);
    if ev != [] {
      DenominatorPositive(t, ev);
    }
  }

  lemma LevelBound(v: View, lv: Level, b: byte)
    requires TableView(v) && LevelDefined(v, lv)
    ensures LevelShare(v, lv, b).0 <= lv.weight * MEAN_MAX
    ensures LevelShare(v, lv, b).1 == (if LevelDepths(v, lv) == [] then 0 else lv.weight)
  {
    var d := LevelDepths(v, lv);
    assert ByteDefined(v, d, b);
    hide Share, Weighted, MaxL, GoodLuts;
    ShareBound(v.luts, lv.weight, EvidenceAt(v, d, b));
  }

  function WeightBelow(k: nat): nat
    requires k <= |LEVELS|
  {
    if k == 0 then 0 else WeightBelow(k - 1) + LEVELS[k - 1].weight
  }

  lemma LevelShape(k: nat)
    requires k < |LEVELS|
    ensures 0 < LEVELS[k].dmin <= LEVELS[k].dmax < LEVELS[k].dmin + 8
    ensures WeightBelow(k + 1) == WeightBelow(k) + LEVELS[k].weight
    ensures WeightBelow(k) <= 2048 && 0 < LEVELS[k].weight <= 435
  {
    assert WeightBelow(1) == 230 && WeightBelow(2) == 563 && WeightBelow(3) == 947;
    assert WeightBelow(4) == 1382 && WeightBelow(5) == 1766;
  }

  lemma AddScaled(a: nat, w0: nat, b: nat, w: nat)
    requires a <= w0 * MEAN_MAX && b <= w * MEAN_MAX
    ensures a + b <= (w0 + w) * MEAN_MAX
  {
  }

  ghost predicate BlendWithin(v: View, b: byte, k: nat)
    requires GoodView(v) && k <= |LEVELS|
  {
    Blend(v, b, k).0 <= WeightBelow(k) * MEAN_MAX && Blend(v, b, k).1 <= WeightBelow(k)
  }

  lemma BlendWithinStep(v: View, b: byte, k: nat)
    requires GoodView(v) && k < |LEVELS| && BlendWithin(v, b, k)
    ensures BlendWithin(v, b, k + 1)
  {
    hide GoodView, TableView, LevelDefined, LevelShare, LevelDepths, Blend;
    LevelShape(k);
    BlendStep(v, b, k);
    LevelBound(v, LEVELS[k], b);
    AddScaled(Blend(v, b, k).0, WeightBelow(k), LevelShare(v, LEVELS[k], b).0, LEVELS[k].weight);
  }

  /** The sums over the levels stay below 2^46. */
  lemma {:induction false} BlendBound(v: View, b: byte, k: nat)
    requires GoodView(v) && k <= |LEVELS|
    ensures BlendWithin(v, b, k)
  {
    hide *;
    if k > 0 {
      BlendBound(v, b, k - 1);
      BlendWithinStep(v, b, k - 1);
    } else {
      NothingBlended(v, b);
    }
  }

  lemma NothingBlended(v: View, b: byte)
    requires GoodView(v)
    ensures BlendWithin(v, b, 0)
  {
  }

  /** As soon as one context is active the blend has a positive denominator, for every byte. */
  lemma {:induction false} BlendPositive(v: View, b: byte, j: nat, k: nat)
    requires GoodView(v) && j < k <= |LEVELS|
    requires LevelDepths(v, LEVELS[j]) != []
    ensures Blend(v, b, k).1 > 0
  {
    hide *;
    LevelShape(j);
    BlendStep(v, b, k - 1);
    if j < k - 1 {
      BlendPositive(v, b, j, k - 1);
    } else {
      LevelBound(v, LEVELS[j], b);
    }
  }

  /**
   * No overflow: where the sums over the contexts fit, so do the sums over the levels, with a default share
   * added and another still to be swapped out.
   */
  lemma SumsFitInt64(v: View, k: nat, b: byte)
    requires GoodView(v) && k < |LEVELS|
    ensures LevelDefined(v, LEVELS[k])
    ensures LevelShare(v, LEVELS[k], b).0 <= 435 * MEAN_MAX && LevelShare(v, LEVELS[k], b).1 <= 435
    ensures Blend(v, b, k).0 + 2 * (435 * MEAN_MAX) < TWO63 && Blend(v, b, k).1 + 2 * 435 < TWO63
  {
    hide GoodView, TableView, LevelDefined, LevelShare, LevelDepths, Blend;
    LevelShape(k);
    BlendStep(v, b, k);
    LevelBound(v, LEVELS[k], b);
    BlendBound(v, b, k);
  }

  /** The products of a 32-bit count, and of the final scaling, fit as well. */
  lemma ProductsFitInt64(p: seq<nat>, b: byte, f: uint32, pres: nat)
    requires |p| == 256 && (forall c :: 0 <= c < 256 ==> 1 <= p[c] <= PSCALE) && pres <= 0x1_0000
    ensures f * pres < TWO63 && f * PSCALE < TWO63
    ensures 950 * 16384 * p[b] < TWO63
    ensures 1000 * Total(p) < TWO63
  {
    TotalAtLeast(p);
    MulMono2(f, TWO32, pres, 0x1_0000);
  }

  // ----- counts on which every distribution is defined -----

  /** Weighted sums are bounded termwise. */
  lemma {:induction false} WeightedBound(t: Luts, ev: seq<Evidence>, m: nat, top: nat)
    requires GoodLuts(t) && forall j :: 0 <= j < |ev| ==> ev[j].l <= m && ev[j].p <= top
    ensures Weights(t, ev, m) <= |ev| * WSCALE
    ensures Weighted(t, ev, m) <= Weights(t, ev, m) * top
  {
    if ev != [] {
      var last := ev[|ev| - 1];
      WeightedBound(t, ev[..|ev| - 1], m, top);
      Exp2WRange(t, last.l - m);
      MulMono2(Exp2W(t, last.l - m), Exp2W(t, last.l - m), last.p, top);
      AddTerm(Weighted(t, ev[..|ev| - 1], m), Weights(t, ev[..|ev| - 1], m), Exp2W(t, last.l - m), last.p, top);
    }
  }

  lemma AddTerm(sum: nat, den: nat, w: nat, p: nat, top: nat)
    requires sum <= den * top && w * p <= w * top
    ensures sum + w * p <= (den + w) * top
  {
  }

  /** Counts are modest when no byte is counted 16 times as often as its context, and the total is not 2^32 - 256. */
  predicate Modest(total: nat, f: nat) {
    total < TWO32 && total != TWO32 - 256 && f < TWO32 && f < 16 * total
  }

  lemma SpreadPositive(total: nat)
    requires total < TWO32 && total != TWO32 - 256
    ensures Spread(total) > 0
  {
    if total + 256 < TWO32 {
      DivUnique(total + 256, TWO32, 0, total + 256);
    } else {
      DivUnique(total + 256, TWO32, 1, total + 256 - TWO32);
    }
  }

  lemma ModestEvidence(t: Luts, n: nat, total: nat, f: nat)
    requires GoodLuts(t) && n <= MAX_DEPTH && Modest(total, f)
    ensures CountsFit(t, total, f)
    ensures EvidenceFor(t, n, total, f).p < 16 * PSCALE
  {
    var pres := |t.confLog2|;
    SpreadPositive(total);
    ScaledQuotient(f, pres, total);
    ScaledQuotient(f, PSCALE, total);
    SmallIndex(Quotient(f * pres, total), pres);
  }

  lemma ScaledQuotient(f: nat, k: nat, total: nat)
    requires f < 16 * total && k > 0
    ensures Quotient(f * k, total) < 16 * k
  {
    assert f * k < 16 * total * k;
    assert 16 * total * k == 16 * k * total;
    DivBelow(16 * k, f * k, total);
  }

  /** On modest counts every distribution whose lookups end is defined. */
  lemma ModestDefined(v: View)
    requires TableView(v) && forall n: nat :: 1 <= n <= |v.w| ==> LookupEnds(v.s, v.hs, Suffix(v.w, n))
    requires forall n, b: byte :: 0 <= n <= |v.w| && TotalOf(v.s, v.hs, Suffix(v.w, n)) > 0 ==>
               Modest(TotalOf(v.s, v.hs, Suffix(v.w, n)), FreqOf(v.s, v.hs, Suffix(v.w, n), b))
    ensures Defined(v)
  {
    hide Readable, GoodLuts, TotalOf, FreqOf, Modest, ByteDefined, LookupEnds;
    forall k | 0 <= k < |LEVELS|
      ensures LevelDefined(v, LEVELS[k])
    {
      LevelShape(k);
      forall b: byte
        ensures ByteDefined(v, LevelDepths(v, LEVELS[k]), b)
      {
        ModestLevel(v, LevelDepths(v, LEVELS[k]), b);
      }
    }
  }

  lemma ModestLevel(v: View, d: seq<nat>, b: byte)
    requires TableView(v) && |d| <= 8
    requires forall i :: 0 <= i < |d| ==>
      d[i] <= |v.w| && Modest(TotalOf(v.s, v.hs, Suffix(v.w, d[i])), FreqOf(v.s, v.hs, Suffix(v.w, d[i]), b))
    ensures ByteDefined(v, d, b)
  {
    hide Readable, GoodLuts, TotalOf, FreqOf, Modest, CountsFit, EvidenceFor, Weighted, Weights, MaxL;
    forall i | 0 <= i < |d|
      ensures DepthFits(v, d[i], b) && EvidenceOf(v, d[i], b).p < 16 * PSCALE
    {
      ModestEvidence(v.luts, d[i], TotalOf(v.s, v.hs, Suffix(v.w, d[i])), FreqOf(v.s, v.hs, Suffix(v.w, d[i]), b));
    }
    var ev := EvidenceAt(v, d, b);
    assert forall i :: 0 <= i < |ev| ==> ev[i] == EvidenceOf(v, d[i], b);
    WeightedBound(v.luts, ev, MaxL(ev), 16 * PSCALE - 1);
    MulMono2(|ev|, 8, WSCALE, WSCALE);
    MulMono(Weights(v.luts, ev, MaxL(ev)), 8 * WSCALE, 16 * PSCALE - 1);
  }

  /** No context of a text is met so often that its 32-bit counter comes near its end. */
  ghost predicate CountersFit(seen: seq<Update>) {
    forall c :: CountContext(seen, c) < TWO32 - 256
  }

  /** In trained tables no byte is counted more often than its context, so every distribution is defined. */
  lemma TrainedDefined(v: View, seen: seq<Update>)
    requires TableView(v) && Trained(v.s, v.hs, seen) && CountersFit(seen)
    ensures GoodView(v)
  {
    assert Readable(v.s) && Findable(v.s, v.hs);
    hide TableView, Trained, Findable, GoodView, Defined, TotalOf, FreqOf, LookupEnds;
    forall n: nat | 1 <= n <= |v.w|
      ensures LookupEnds(v.s, v.hs, Suffix(v.w, n))
    {
      TrainedLookupsEnd(v.s, v.hs, Suffix(v.w, n));
    }
    forall n, b: byte | 0 <= n <= |v.w| && TotalOf(v.s, v.hs, Suffix(v.w, n)) > 0
      ensures Modest(TotalOf(v.s, v.hs, Suffix(v.w, n)), FreqOf(v.s, v.hs, Suffix(v.w, n), b))
    {
      LookupCounts(v.s, v.hs, seen, Suffix(v.w, n), b);
      CountSeen(seen, Suffix(v.w, n), b);
    }
    ModestDefined(v);
    GoodIf(v);
  }

  lemma GoodIf(v: View)
    requires TableView(v) && Defined(v)
    ensures GoodView(v)
  {
  }

  /** No term exceeds the weighted sum. */
  lemma {:induction false} WeightedAtLeast(t: Luts, ev: seq<Evidence>, m: nat, i: nat)
    requires Shaped(t) && i < |ev| && forall j :: 0 <= j < |ev| ==> ev[j].l <= m
    ensures Exp2W(t, ev[i].l - m) * ev[i].p <= Weighted(t, ev, m)
  {
    if i < |ev| - 1 {
      WeightedAtLeast(t, ev[..|ev| - 1], m, i);
      MulMono2(0, Exp2W(t, ev[|ev| - 1].l - m), 0, ev[|ev| - 1].p);
    }
  }
}
