/**
 * What the distribution makes of the counts: laws stated in the totals and frequencies of the contexts that the window
 * ends with, without the sums of the blend.
 */
module DistributionLaws {
  import opened Words
  import opened Arith
  import opened Occurrences
  import opened BtSnapshot
  import opened Distribution
  import opened DistributionBounds
  import opened CountSafety

  // ----- active contexts -----

  /** How often the last n bytes of the window were seen, and how often byte b followed them. */
  ghost function Seen(v: View, n: nat): nat
    requires TableView(v) && n <= |v.w|
  {
    TotalOf(v.s, v.hs, v.w[|v.w| - n..])
  }

  ghost function Followed(v: View, n: nat, b: byte): nat
    requires TableView(v) && n <= |v.w|
  {
    FreqOf(v.s, v.hs, v.w[|v.w| - n..], b)
  }

  ghost predicate Active(v: View, n: nat) {
    TableView(v) && 1 <= n <= |v.w| && Seen(v, n) > 0
  }

  /** The probability, out of PSCALE, that a context seen t times gives a byte that followed it f times. */
  function Alone(t: nat, f: nat): nat
    requires t > 0 && U32(t + 256) > 0
  {
    if f > 0 then Quotient(f * PSCALE, t) else Quotient(PSCALE, U32(t + 256))
  }

  /** The context of the last n bytes is active and gives byte b the probability x. */
  ghost predicate Gives(v: View, n: nat, b: byte, x: nat) {
    Active(v, n) && U32(Seen(v, n) + 256) > 0 && x == Alone(Seen(v, n), Followed(v, n, b))
  }

  lemma KnownIsActive(v: View, n: nat)
    requires TableView(v) && 1 <= n <= |v.w|
    ensures TotalOf(v.s, v.hs, Suffix(v.w, n)) > 0 <==> Active(v, n)
  {
    assert Suffix(v.w, n) == v.w[|v.w| - n..];
  }

  lemma DepthsStep(v: View, top: nat, dmin: nat)
    requires TableView(v) && 1 <= dmin && top <= |v.w|
    ensures Depths(v, top, dmin)
         == if top < dmin then [] else (if Active(v, top) then [top] else []) + Depths(v, top - 1, dmin)
  {
    if top >= dmin {
      KnownIsActive(v, top);
    }
    hide TableView, TotalOf, Active;
  }

  /** Active lengths are among those collected for their level, and the other way round. */
  lemma {:induction false} DepthsHas(v: View, top: nat, dmin: nat, n: nat)
    requires TableView(v) && 1 <= dmin <= n <= top <= |v.w| && Active(v, n)
    ensures n in Depths(v, top, dmin)
    decreases top
  {
    hide *;
    DepthsStep(v, top, dmin);
    if n < top {
      DepthsHas(v, top - 1, dmin, n);
    }
  }

  lemma ActiveInLevel(v: View, n: nat)
    requires TableView(v) && Active(v, n)
    ensures n in LevelDepths(v, LEVELS[LevelOf(n)])
  {
    var lv := LEVELS[LevelOf(n)];
    DepthsHas(v, if |v.w| < lv.dmax then |v.w| else lv.dmax, lv.dmin, n);
  }

  lemma LevelActive(v: View, k: nat, i: nat)
    requires TableView(v) && k < |LEVELS| && i < |LevelDepths(v, LEVELS[k])|
    ensures var n := LevelDepths(v, LEVELS[k])[i]; Active(v, n) && LevelOf(n) == k
  {
    var d := LevelDepths(v, LEVELS[k]);
    assert TotalOf(v.s, v.hs, Suffix(v.w, d[i])) > 0;
    LevelShape(k);
    hide TableView, LevelDepths, TotalOf, Suffix, Active;
    FirstOfLevel(v, LEVELS[k]);
    KnownIsActive(v, d[i]);
    ActiveLength(v, d[i]);
    assert LEVELS[k].dmin <= d[i] <= LEVELS[k].dmax;
  }

  lemma ActiveLength(v: View, n: nat)
    requires Active(v, n)
    ensures 1 <= n <= |v.w| <= MAX_DEPTH && Seen(v, n) > 0
  {
  }

  /** The evidence of an active context has its own probability. */
  lemma EvidenceIs(v: View, n: nat, b: byte)
    requires TableView(v) && n <= |v.w| && DepthFits(v, n, b)
    ensures n > 0 ==> Gives(v, n, b, EvidenceOf(v, n, b).p)
  {
    assert Suffix(v.w, n) == v.w[|v.w| - n..];
    hide TableView, TotalOf, FreqOf;
  }

  // ----- means lie between -----

  ghost predicate AllBetween(ev: seq<Evidence>, lo: nat, hi: nat) {
    forall i :: 0 <= i < |ev| ==> lo <= ev[i].p <= hi
  }

  lemma {:induction false} WeightedBetween(t: Luts, ev: seq<Evidence>, m: nat, lo: nat, hi: nat)
    requires Shaped(t) && (forall i :: 0 <= i < |ev| ==> ev[i].l <= m) && AllBetween(ev, lo, hi)
    ensures lo * Weights(t, ev, m) <= Weighted(t, ev, m) <= hi * Weights(t, ev, m)
  {
    if ev != [] {
      var front, last := ev[..|ev| - 1], ev[|ev| - 1];
      WeightedBetween(t, front, m, lo, hi);
      var w := Exp2W(t, last.l - m);
      MulMono(lo, last.p, w);
      MulMono(last.p, hi, w);
      AddBetween(Weighted(t, front, m), Weights(t, front, m), w * last.p, w, lo, hi);
    }
  }

  lemma AddBetween(x: nat, wx: nat, y: nat, wy: nat, lo: nat, hi: nat)
    requires lo * wx <= x <= hi * wx && lo * wy <= y <= hi * wy
    ensures lo * (wx + wy) <= x + y <= hi * (wx + wy)
  {
  }

  lemma QuotientBetween(x: nat, w: nat, lo: nat, hi: nat)
    requires w > 0 && lo * w <= x <= hi * w
    ensures lo <= x / w <= hi
  {
    DivAtLeast(lo, x, w);
    assert (hi + 1) * w == hi * w + w;
    DivBelow(hi + 1, x, w);
  }

  lemma MeanBetween(t: Luts, ev: seq<Evidence>, lo: nat, hi: nat)
    requires GoodLuts(t) && ev != [] && AllBetween(ev, lo, hi)
    ensures HasMean(t, ev) && lo <= Mean(t, ev) <= hi
  {
    DenominatorPositive(t, ev);
    WeightedBetween(t, ev, MaxL(ev), lo, hi);
    QuotientBetween(Weighted(t, ev, MaxL(ev)), Weights(t, ev, MaxL(ev)), lo, hi);
  }

  /** The contexts that the window ends with, of level k, give byte b a probability from lo to hi. */
  ghost predicate LevelBetween(v: View, k: nat, b: byte, lo: nat, hi: nat) {
    forall n: nat, x: nat :: Gives(v, n, b, x) && LevelOf(n) == k ==> lo <= x <= hi
  }

  lemma ShareBetween(v: View, k: nat, b: byte, lo: nat, hi: nat)
    requires GoodView(v) && k < |LEVELS| && LevelBetween(v, k, b, lo, hi)
    ensures TableView(v) && LevelDefined(v, LEVELS[k])
    ensures var s := LevelShare(v, LEVELS[k], b);
      && s.1 == (if LevelDepths(v, LEVELS[k]) == [] then 0 else LEVELS[k].weight)
      && lo * s.1 <= s.0 <= hi * s.1
  {
    var lv := LEVELS[k];
    LevelIsDefined(v, k);
    var d := LevelDepths(v, lv);
    assert ByteDefined(v, d, b);
    var ev := EvidenceAt(v, d, b);
    LevelBound(v, lv, b);
    if d != [] {
      forall i | 0 <= i < |ev|
        ensures lo <= ev[i].p <= hi
      {
        LevelActive(v, k, i);
        EvidenceIs(v, d[i], b);
      }
      MeanBetween(v.luts, ev, lo, hi);
      assert LevelShare(v, lv, b) == Share(v.luts, lv.weight, ev);
      hide *;
      Scale(lv.weight, Mean(v.luts, ev), lo, hi);
    }
  }

  lemma Scale(w: nat, m: nat, lo: nat, hi: nat)
    requires lo <= m <= hi
    ensures lo * w <= w * m <= hi * w
  {
    MulMono(lo, m, w);
    MulMono(m, hi, w);
  }

  /** The active contexts give byte b a probability from lo to hi. */
  ghost predicate AllBetweenAt(v: View, b: byte, lo: nat, hi: nat) {
    forall n: nat, x: nat :: Gives(v, n, b, x) ==> lo <= x <= hi
  }

  lemma AmongAll(v: View, k: nat, b: byte, lo: nat, hi: nat)
    requires GoodView(v) && AllBetweenAt(v, b, lo, hi)
    ensures LevelBetween(v, k, b, lo, hi)
  {
    hide GoodView, Gives;
  }

  lemma NoneBlended(v: View, b: byte)
    requires GoodView(v)
    ensures Blend(v, b, 0) == (0, 0)
  {
  }

  lemma {:induction false} BlendBetween(v: View, b: byte, lo: nat, hi: nat, k: nat)
    requires GoodView(v) && AllBetweenAt(v, b, lo, hi) && k <= |LEVELS|
    ensures lo * Blend(v, b, k).1 <= Blend(v, b, k).0 <= hi * Blend(v, b, k).1
  {
    hide *;
    NoneBlended(v, b);
    if k > 0 {
      AmongAll(v, k - 1, b, lo, hi);
      BlendBetween(v, b, lo, hi, k - 1);
      LevelShape(k - 1);
      ShareBetween(v, k - 1, b, lo, hi);
      BlendStep(v, b, k - 1);
      AddBetween(Blend(v, b, k - 1).0, Blend(v, b, k - 1).1, LevelShare(v, LEVELS[k - 1], b).0,
                 LevelShare(v, LEVELS[k - 1], b).1, lo, hi);
    }
  }

  /** x, or the nearer end of 1..PSCALE where x lies outside. */
  predicate IsClamped(p: nat, x: int) {
    p == if x < 1 then 1 else if x > 0x1000_0000 then 0x1000_0000 else x
  }

  lemma ProbOfBlend(v: View, b: byte)
    requires GoodView(v) && Blend(v, b, |LEVELS|).1 > 0 && |v.w| > 0
    ensures IsClamped(SimpleProb(v, b), Blend(v, b, |LEVELS|).0 / Blend(v, b, |LEVELS|).1)
  {
    hide GoodView, Blend;
  }

  lemma SomethingBlended(v: View, b: byte, n: nat)
    requires GoodView(v) && Active(v, n)
    ensures |v.w| > 0 && Blend(v, b, |LEVELS|).1 > 0
  {
    ActiveInLevel(v, n);
    var k := LevelOf(n);
    hide GoodView, Blend, LevelDepths;
    BlendPositive(v, b, k, |LEVELS|);
  }

  /**
   * However many contexts are active, a byte's probability lies between the least and the greatest that they
   * give it, cut off at 1 and 2^28.
   */
  lemma BetweenContexts(v: View, b: byte, n: nat, lo: nat, hi: nat)
    requires GoodView(v) && Active(v, n)
    requires forall m: nat, x: nat :: Gives(v, m, b, x) ==> lo <= x <= hi
    ensures SimpleProb(v, b) >= lo || SimpleProb(v, b) == 0x1000_0000
    ensures SimpleProb(v, b) <= hi || SimpleProb(v, b) == 1
  {
    assert AllBetweenAt(v, b, lo, hi);
    hide AllBetweenAt, GoodView, TableView, Active, Gives, Blend, SimpleProb;
    BlendBetween(v, b, lo, hi, |LEVELS|);
    SomethingBlended(v, b, n);
    ProbOfBlend(v, b);
    QuotientBetween(Blend(v, b, |LEVELS|).0, Blend(v, b, |LEVELS|).1, lo, hi);
  }

  lemma ActiveFits(v: View, n: nat)
    requires GoodView(v) && Active(v, n)
    ensures Seen(v, n) < TWO32 && U32(Seen(v, n) + 256) > 0
  {
    var lv := LEVELS[LevelOf(n)];
    ActiveInLevel(v, n);
    LevelIsDefined(v, LevelOf(n));
    EachByte(v, lv);
    assert DepthsFit(v, LevelDepths(v, lv), 0);
    DepthIsFit(v, LevelDepths(v, lv), n);
  }

  lemma DepthIsFit(v: View, d: seq<nat>, n: nat)
    requires TableView(v) && n <= |v.w| && n in d && DepthsFit(v, d, 0)
    ensures Seen(v, n) < TWO32 && U32(Seen(v, n) + 256) > 0
  {
    var i :| 0 <= i < |d| && d[i] == n;
    assert DepthFits(v, d[i], 0);
    assert Suffix(v.w, n) == v.w[|v.w| - n..];
  }

  /** The only active context decides alone: by its frequency, or by an equal share of what unseen bytes get. */
  lemma OneContext(v: View, n: nat, b: byte)
    requires GoodView(v) && Active(v, n) && forall m: nat :: Active(v, m) ==> m == n
    ensures var t, f := Seen(v, n), Followed(v, n, b);
      && U32(t + 256) > 0
      && IsClamped(SimpleProb(v, b), if f > 0 then f * 0x1000_0000 / t else 0x1000_0000 / U32(t + 256))
  {
    ActiveFits(v, n);
    var x := Alone(Seen(v, n), Followed(v, n, b));
    hide GoodView, TableView, TotalOf, FreqOf, SimpleProb, Seen, Followed;
    BetweenContexts(v, b, n, x, x);
  }

  // ----- the final widths -----

  ghost function WidthAt(v: View, scale: nat, b: byte): int
    requires GoodView(v)
  {
    SimpleTable(v, scale)[b + 1] as int - SimpleTable(v, scale)[b] as int
  }

  lemma WidthIs(v: View, scale: nat, b: byte)
    requires GoodView(v)
    ensures Total(SimpleProbs(v)) > 0
    ensures WidthAt(v, scale, b) == Width(SimpleProb(v, b), Total(SimpleProbs(v)), scale)
  {
    TotalAtLeast(SimpleProbs(v));
    TotalStep(Widths(SimpleProbs(v), scale), b);
    hide GoodView, Width, SimpleProb;
  }

  lemma WidthMono(p: nat, q: nat, sum: nat, scale: nat)
    requires p <= q && sum > 0
    ensures Width(p, sum, scale) <= Width(q, sum, scale)
  {
    MulMono(p, q, 950 * scale);
    DivMono(950 * scale * p, 950 * scale * q, 1000 * sum);
  }

  /** A byte that is at least as probable is at least as wide. */
  lemma ProbableIsWide(v: View, scale: nat, a: byte, b: byte)
    requires GoodView(v) && SimpleProb(v, a) <= SimpleProb(v, b)
    ensures WidthAt(v, scale, a) <= WidthAt(v, scale, b)
  {
    hide GoodView, WidthAt, SimpleProb, SimpleProbs, Width;
    WidthIs(v, scale, a);
    WidthIs(v, scale, b);
    WidthMono(SimpleProb(v, a), SimpleProb(v, b), Total(SimpleProbs(v)), scale);
  }

  /**
   * More counts never make a byte narrower: after the one active context, seen fewer than 2^32 - 256 times, a
   * byte that followed it at least as often as another is at least as wide.
   */
  lemma MoreCountsWider(v: View, n: nat, scale: nat, a: byte, b: byte)
    requires GoodView(v) && Active(v, n) && forall m: nat :: Active(v, m) ==> m == n
    requires Followed(v, n, a) <= Followed(v, n, b)
    requires Seen(v, n) < 0x1_0000_0000 - 256 || Followed(v, n, a) > 0
    ensures WidthAt(v, scale, a) <= WidthAt(v, scale, b)
  {
    OneContext(v, n, a);
    OneContext(v, n, b);
    ActiveFits(v, n);
    hide GoodView, TableView, TotalOf, FreqOf, SimpleProb, Seen, Followed, WidthAt;
    AloneMono(Seen(v, n), Followed(v, n, a), Followed(v, n, b));
    ProbableIsWide(v, scale, a, b);
  }

  lemma AloneMono(t: nat, f: nat, g: nat)
    requires 0 < t < TWO32 && U32(t + 256) > 0 && f <= g && (t < TWO32 - 256 || f > 0)
    ensures (if f > 0 then f * 0x1000_0000 / t else 0x1000_0000 / U32(t + 256))
         <= (if g > 0 then g * 0x1000_0000 / t else 0x1000_0000 / U32(t + 256))
  {
    if f > 0 {
      DivMono(f * 0x1000_0000, g * 0x1000_0000, t);
    } else if g > 0 {
      assert U32(t + 256) == t + 256;
      DivMono(0x1000_0000, g * 0x1000_0000, t);
      DivBounds(0x1000_0000, t + 256);
      var q := 0x1000_0000 / (t + 256);
      DivNat(0x1000_0000, t + 256);
      assert q * (t + 256) == q * t + q * 256;
      DivAtLeast(q, 0x1000_0000, t);
    }
  }

  /**
   * At the coder's scale of 16384 a byte of probability p gets 3 and its share of 95%, rounded down: 15564.8 out
   * of the sum of all probabilities.
   */
  lemma WidthShare(v: View, b: byte)
    requires GoodView(v)
    ensures var p, sum, w := SimpleProb(v, b), Total(SimpleProbs(v)), WidthAt(v, 16384, b);
      (w - 3) * (10 * sum) <= 155648 * p < (w - 2) * (10 * sum)
  {
    hide GoodView, SimpleProb, SimpleProbs, WidthAt, Width, ShareOf;
    WidthIs(v, 16384, b);
    var p, sum := SimpleProb(v, b), Total(SimpleProbs(v));
    ShareSpan(p, sum);
  }

  lemma ShareSpan(p: nat, sum: nat)
    requires sum > 0
    ensures (Width(p, sum, 16384) - 3) * (10 * sum) <= 155648 * p < (Width(p, sum, 16384) - 2) * (10 * sum)
  {
    WidthIsShare(p, sum);
    hide Width;
    DivBounds(15564800 * p, 1000 * sum);
    Hundredths(ShareOf(p, sum, 15564800), p, sum);
  }

  lemma Hundredths(q: nat, p: nat, sum: nat)
    requires q * (1000 * sum) <= 15564800 * p < q * (1000 * sum) + 1000 * sum
    ensures q * (10 * sum) <= 155648 * p < (q + 1) * (10 * sum)
  {
    assert q * (1000 * sum) == 100 * (q * (10 * sum));
    assert (q + 1) * (10 * sum) == q * (10 * sum) + 10 * sum;
  }

  /** Without an active context every byte is as probable as any other. */
  lemma NoContext(v: View, b: byte)
    requires GoodView(v) && forall n: nat :: !Active(v, n)
    ensures SimpleProb(v, b) == 0x10_0000
    ensures WidthAt(v, 16384, b) == 63
  {
    forall b: byte
      ensures SimpleProb(v, b) == 0x10_0000
    {
      NothingActive(v, b);
    }
    hide GoodView, Active, SimpleProb, WidthAt, Width;
    assert SimpleProbs(v) == seq(256, _ => 0x10_0000);
    TotalOfSame(0x10_0000, 256);
    WidthIs(v, 16384, b);
    EqualWidth();
  }

  lemma EqualWidth()
    ensures Width(0x10_0000, 256 * 0x10_0000, 16384) == 63
  {
  }

  lemma {:induction false} TotalOfSame(x: nat, n: nat)
    ensures Total(seq(n, _ => x)) == n * x
  {
    if n > 0 {
      TotalOfSame(x, n - 1);
      assert seq(n, _ => x)[..n - 1] == seq(n - 1, _ => x);
    }
  }

  lemma NothingActive(v: View, b: byte)
    requires GoodView(v) && forall n: nat :: !Active(v, n)
    ensures SimpleProb(v, b) == 0x10_0000
  {
    if |v.w| > 0 {
      BlendOfNone(v, b, |LEVELS|);
    }
  }

  lemma {:induction false} BlendOfNone(v: View, b: byte, k: nat)
    requires GoodView(v) && k <= |LEVELS| && forall n: nat :: !Active(v, n)
    ensures Blend(v, b, k) == (0, 0)
  {
    hide *;
    NoneBlended(v, b);
    if k > 0 {
      BlendOfNone(v, b, k - 1);
      BlendStep(v, b, k - 1);
      NoShare(v, k - 1, b);
    }
  }

  lemma NoShare(v: View, k: nat, b: byte)
    requires GoodView(v) && k < |LEVELS| && forall n: nat :: Active(v, n) ==> LevelOf(n) != k
    ensures TableView(v) && LevelDefined(v, LEVELS[k]) && LevelShare(v, LEVELS[k], b) == (0, 0)
  {
    hide GoodView, Active;
    ShareBetween(v, k, b, 0, 0);
    if LevelDepths(v, LEVELS[k]) != [] {
      LevelActive(v, k, 0);
    }
  }

  // ----- two contexts -----

  /** The weight of a context of n bytes, times 256, beside contexts of other lengths. */
  function WeightAt(n: nat): (w: nat)
    ensures w > 0
  {
    if n <= 2 then 230 else if n <= 4 then 333 else if n <= 8 then 384
    else if n <= 12 then 435 else if n <= 16 then 384 else 282
  }

  /** The mean of x and y by the weights w and u, rounded down. */
  function Average(w: nat, x: nat, u: nat, y: nat): int
    requires w + u > 0
  {
    (w * x + u * y) / (w + u)
  }

  /** Contexts of 1-2, 3-4, 5-8, 9-12, 13-16 and 17-24 bytes. */
  function GroupOf(n: nat): (k: nat) {
    if n <= 2 then 0 else if n <= 4 then 1 else if n <= 8 then 2
    else if n <= 12 then 3 else if n <= 16 then 4 else 5
  }

  lemma GroupIsLevel(n: nat)
    requires 1 <= n <= MAX_DEPTH
    ensures GroupOf(n) == LevelOf(n) < |LEVELS| && LEVELS[GroupOf(n)].weight == WeightAt(n)
  {
  }

  /** A level with one active context passes on the probability that this context gives. */
  lemma LoneShare(v: View, n: nat, b: byte, x: nat)
    requires GoodView(v) && Gives(v, n, b, x)
    requires forall m: nat :: Active(v, m) && GroupOf(m) == GroupOf(n) ==> m == n
    ensures var k, w := GroupOf(n), WeightAt(n);
      k < |LEVELS| && TableView(v) && LevelDefined(v, LEVELS[k]) && LevelShare(v, LEVELS[k], b) == (w * x, w)
  {
    var k := GroupOf(n);
    OnlyGiver(v, n, b, x);
    ActiveLength(v, n);
    ActiveInLevel(v, n);
    GroupIsLevel(n);
    hide *;
    ShareBetween(v, k, b, x, x);
    assert LevelDepths(v, LEVELS[k]) != [];
    Squeezed(LevelShare(v, LEVELS[k], b), x, WeightAt(n));
  }

  lemma Squeezed(s: (nat, nat), x: nat, w: nat)
    requires s.1 == w && x * s.1 <= s.0 <= x * s.1
    ensures s == (w * x, w)
  {
  }

  lemma OnlyGiver(v: View, n: nat, b: byte, x: nat)
    requires GoodView(v) && Gives(v, n, b, x)
    requires forall m: nat :: Active(v, m) && GroupOf(m) == GroupOf(n) ==> m == n
    ensures LevelBetween(v, GroupOf(n), b, x, x)
  {
    hide GoodView, GroupOf, Seen, Followed;
    forall m: nat, y: nat | Gives(v, m, b, y) && LevelOf(m) == GroupOf(n)
      ensures y == x
    {
      ActiveLength(v, m);
      GroupIsLevel(m);
    }
  }

  /** What of the two contexts m and n lies below level k. */
  function TwoBelow(m: nat, x: nat, n: nat, y: nat, k: nat): (nat, nat)
  {
    ((if GroupOf(m) < k then WeightAt(m) * x else 0) + (if GroupOf(n) < k then WeightAt(n) * y else 0),
     (if GroupOf(m) < k then WeightAt(m) else 0) + (if GroupOf(n) < k then WeightAt(n) else 0))
  }

  lemma {:induction false} BlendOfTwo(v: View, m: nat, x: nat, n: nat, y: nat, b: byte, k: nat)
    requires GoodView(v) && Gives(v, m, b, x) && Gives(v, n, b, y) && GroupOf(m) != GroupOf(n) && k <= |LEVELS|
    requires forall i: nat :: Active(v, i) ==> i == m || i == n
    ensures Blend(v, b, k) == TwoBelow(m, x, n, y, k)
  {
    hide *;
    LoneShare(v, m, b, x);
    LoneShare(v, n, b, y);
    NoneBlended(v, b);
    if k > 0 {
      BlendOfTwo(v, m, x, n, y, b, k - 1);
      BlendStep(v, b, k - 1);
      if k - 1 != GroupOf(m) && k - 1 != GroupOf(n) {
        NeitherShares(v, m, n, b, k - 1);
      }
      TwoStep(m, x, n, y, k - 1);
    } else {
      TwoNone(m, x, n, y);
    }
  }

  lemma NeitherShares(v: View, m: nat, n: nat, b: byte, k: nat)
    requires GoodView(v) && k < |LEVELS| && k != GroupOf(m) && k != GroupOf(n)
    requires forall i: nat :: Active(v, i) ==> i == m || i == n
    ensures TableView(v) && LevelDefined(v, LEVELS[k]) && LevelShare(v, LEVELS[k], b) == (0, 0)
  {
    forall i: nat | Active(v, i)
      ensures LevelOf(i) != k
    {
      ActiveLength(v, i);
      GroupIsLevel(i);
    }
    hide *;
    NoShare(v, k, b);
  }

  lemma TwoNone(m: nat, x: nat, n: nat, y: nat)
    ensures TwoBelow(m, x, n, y, 0) == (0, 0)
  {
  }

  lemma TwoStep(m: nat, x: nat, n: nat, y: nat, k: nat)
    requires GroupOf(m) != GroupOf(n)
    ensures var t := TwoBelow(m, x, n, y, k);
      TwoBelow(m, x, n, y, k + 1)
      == if k == GroupOf(m) then (t.0 + WeightAt(m) * x, t.1 + WeightAt(m))
         else if k == GroupOf(n) then (t.0 + WeightAt(n) * y, t.1 + WeightAt(n)) else t
  {
    hide WeightAt;
  }

  lemma GroupBelow(n: nat)
    ensures GroupOf(n) < |LEVELS| && WeightAt(n) > 0
  {
  }

  /** Two active contexts of different levels are averaged by the weights of their levels. */
  lemma TwoLevels(v: View, m: nat, x: nat, n: nat, y: nat, b: byte)
    requires GoodView(v) && Gives(v, m, b, x) && Gives(v, n, b, y) && GroupOf(m) != GroupOf(n)
    requires forall i: nat :: Active(v, i) ==> i == m || i == n
    ensures IsClamped(SimpleProb(v, b), Average(WeightAt(m), x, WeightAt(n), y))
  {
    TwoAll(m, x, n, y);
    hide *;
    BlendOfTwo(v, m, x, n, y, b, |LEVELS|);
    GivesActive(v, m, b, x);
    SomethingBlended(v, b, m);
    ProbOfBlend(v, b);
  }

  lemma GivesActive(v: View, n: nat, b: byte, x: nat)
    requires Gives(v, n, b, x)
    ensures Active(v, n)
  {
  }

  lemma TwoAll(m: nat, x: nat, n: nat, y: nat)
    ensures var t := TwoBelow(m, x, n, y, |LEVELS|);
      t.1 > 0 && t.0 / t.1 == Average(WeightAt(m), x, WeightAt(n), y)
  {
    GroupBelow(m);
    GroupBelow(n);
    hide WeightAt, GroupOf;
  }

  // ----- two contexts of one level -----

  /** The logarithm of the weight of a context: its length, and 20 times how sure it is of the byte. */
  function LogWeight(luts: Luts, n: nat, t: nat, f: nat): nat
    requires Shaped(luts) && n <= MAX_DEPTH && CountsFit(luts, t, f)
  {
    var pres := |luts.confLog2|;
    var q := if f > 0 then Quotient(f * pres, t) else Quotient(pres, U32(t + 256));
    SmallIndex(Quotient(pres, U32(t + 256)), pres);
    luts.expLog2[n] + luts.confLog2[ConfIndex(q, pres)]
  }

  /** 2^28 * 2^(-d / 2^16): a table entry for the fraction, shifted right by the whole part; nothing from 40 on. */
  function HalfPower(luts: Luts, d: nat): nat
    requires Shaped(luts)
  {
    DivNat(luts.exp2Frac[FracIndex(d, luts.exp2Step, |luts.exp2Frac|)], Pow2(d / 0x1_0000));
    if d / 0x1_0000 >= 40 then 0
    else luts.exp2Frac[FracIndex(d, luts.exp2Step, |luts.exp2Frac|)] / Pow2(d / 0x1_0000)
  }

  lemma {:induction false} HalvedIs(x: nat, k: nat)
    ensures Halved(x, k) == x / Pow2(k)
  {
    if k > 0 {
      HalvedIs(x, k - 1);
      DivDiv(x, Pow2(k - 1), 2);
      assert Pow2(k) == Pow2(k - 1) * 2;
    } else {
      assert x / 1 == x;
    }
  }

  /** The heavier context weighs 2^28, the other one what is left by the difference of the logarithms. */
  function BesideWeight(luts: Luts, l: nat, other: nat): nat
    requires Shaped(luts)
  {
    if l >= other then 0x1000_0000 else HalfPower(luts, other - l)
  }

  lemma WeightIs(luts: Luts, l: nat, other: nat, m: nat)
    requires GoodLuts(luts) && m == if l >= other then l else other
    ensures Exp2W(luts, l - m) == BesideWeight(luts, l, other)
  {
    Exp2WRange(luts, l - m);
    HalvedIs(luts.exp2Frac[FracIndex(m - l, luts.exp2Step, |luts.exp2Frac|)], (m - l) / LOG2_UNIT);
    hide Halved;
  }

  lemma MeanOfTwo(luts: Luts, e: Evidence, g: Evidence)
    requires GoodLuts(luts)
    ensures var u, w := BesideWeight(luts, e.l, g.l), BesideWeight(luts, g.l, e.l);
      u + w > 0 && Mean(luts, [e, g]) == Average(u, e.p, w, g.p)
  {
    var ev, m := [e, g], if e.l >= g.l then e.l else g.l;
    assert ev[..1] == [e] && [e][..0] == [];
    assert MaxL([]) == 0 && MaxL([e]) == e.l;
    assert MaxL(ev) == m;
    WeightIs(luts, e.l, g.l, m);
    WeightIs(luts, g.l, e.l, m);
    hide Exp2W, BesideWeight, GoodLuts;
    assert Weights(luts, [], m) == 0 && Weighted(luts, [], m) == 0;
    assert Weights(luts, [e], m) == Exp2W(luts, e.l - m);
    assert Weighted(luts, [e], m) == Exp2W(luts, e.l - m) * e.p;
    DenominatorPositive(luts, ev);
  }

  /** The active context of n bytes gives byte b the probability x, with log-weight l. */
  ghost predicate Weighs(v: View, n: nat, b: byte, x: nat, l: nat) {
    && Gives(v, n, b, x)
    && CountsFit(v.luts, Seen(v, n), Followed(v, n, b))
    && l == LogWeight(v.luts, n, Seen(v, n), Followed(v, n, b))
  }

  lemma WeighsEvidence(v: View, n: nat, b: byte, x: nat, l: nat)
    requires Weighs(v, n, b, x, l)
    ensures TableView(v) && n <= |v.w| && DepthFits(v, n, b) && EvidenceOf(v, n, b) == Evidence(l, x)
  {
    assert Suffix(v.w, n) == v.w[|v.w| - n..];
    hide TotalOf, FreqOf;
  }

  lemma {:induction false} DepthsOfTwo(v: View, top: nat, dmin: nat, m: nat, n: nat)
    requires TableView(v) && 1 <= dmin <= m < n && top <= |v.w| && Active(v, m) && Active(v, n)
    requires forall i: nat :: Active(v, i) ==> i == m || i == n
    ensures Depths(v, top, dmin) == (if n <= top then [n] else []) + (if m <= top then [m] else [])
    decreases top
  {
    hide *;
    DepthsStep(v, top, dmin);
    if top >= dmin {
      DepthsOfTwo(v, top - 1, dmin, m, n);
    }
  }

  lemma LevelOfTwo(v: View, m: nat, n: nat)
    requires Active(v, m) && Active(v, n) && m < n && GroupOf(m) == GroupOf(n)
    requires forall i: nat :: Active(v, i) ==> i == m || i == n
    ensures GroupOf(n) < |LEVELS| && TableView(v) && LevelDepths(v, LEVELS[GroupOf(n)]) == [n, m]
  {
    ActiveLength(v, m);
    ActiveLength(v, n);
    GroupIsLevel(m);
    GroupIsLevel(n);
    var lv := LEVELS[GroupOf(n)];
    hide GroupOf, TableView, Active, Depths;
    DepthsOfTwo(v, if |v.w| < lv.dmax then |v.w| else lv.dmax, lv.dmin, m, n);
  }

  /** A level with two active contexts passes on their mean. */
  lemma PairShare(v: View, m: nat, x: nat, l: nat, n: nat, y: nat, j: nat, b: byte)
    requires GoodView(v) && Weighs(v, m, b, x, l) && Weighs(v, n, b, y, j) && m < n && GroupOf(m) == GroupOf(n)
    requires forall i: nat :: Active(v, i) ==> i == m || i == n
    ensures var k, u, w := GroupOf(n), BesideWeight(v.luts, j, l), BesideWeight(v.luts, l, j);
      && k < |LEVELS| && TableView(v) && LevelDefined(v, LEVELS[k]) && u + w > 0
      && LevelShare(v, LEVELS[k], b) == (WeightAt(n) * Average(u, y, w, x), WeightAt(n))
  {
    hide *;
    WeighsActive(v, m, b, x, l);
    WeighsActive(v, n, b, y, j);
    LevelOfTwo(v, m, n);
    GroupIsLevel(n);
    LevelIsDefined(v, GroupOf(n));
    PairEvidence(v, LEVELS[GroupOf(n)], m, x, l, n, y, j, b);
    GoodTables(v);
    MeanOfTwo(v.luts, Evidence(j, y), Evidence(l, x));
    DenominatorPositive(v.luts, [Evidence(j, y), Evidence(l, x)]);
    ShareIs(v.luts, WeightAt(n), [Evidence(j, y), Evidence(l, x)]);
  }

  lemma WeighsActive(v: View, n: nat, b: byte, x: nat, l: nat)
    requires Weighs(v, n, b, x, l)
    ensures Active(v, n) && 1 <= n <= MAX_DEPTH
  {
  }

  lemma GoodTables(v: View)
    requires TableView(v)
    ensures GoodLuts(v.luts) && Shaped(v.luts)
  {
  }

  lemma PairEvidence(v: View, lv: Level, m: nat, x: nat, l: nat, n: nat, y: nat, j: nat, b: byte)
    requires TableView(v) && LevelDefined(v, lv) && LevelDepths(v, lv) == [n, m]
    requires Weighs(v, m, b, x, l) && Weighs(v, n, b, y, j)
    ensures Shaped(v.luts)
    ensures LevelShare(v, lv, b) == Share(v.luts, lv.weight, [Evidence(j, y), Evidence(l, x)])
  {
    hide *;
    GoodTables(v);
    WeighsEvidence(v, m, b, x, l);
    WeighsEvidence(v, n, b, y, j);
    ShareOfDepths(v, lv, [n, m], b);
    EvidencePair(v, n, m, b);
  }

  lemma ShareOfDepths(v: View, lv: Level, d: seq<nat>, b: byte)
    requires TableView(v) && LevelDefined(v, lv) && LevelDepths(v, lv) == d
    ensures Shaped(v.luts) && DepthsFit(v, d, b)
    ensures LevelShare(v, lv, b) == Share(v.luts, lv.weight, EvidenceAt(v, d, b))
  {
    assert ByteDefined(v, LevelDepths(v, lv), b);
    hide Readable, GoodLuts, LevelDepths, Share, EvidenceAt, DepthFits;
  }

  lemma EvidencePair(v: View, n: nat, m: nat, b: byte)
    requires TableView(v) && n <= |v.w| && m <= |v.w| && DepthFits(v, n, b) && DepthFits(v, m, b)
    requires DepthsFit(v, [n, m], b)
    ensures EvidenceAt(v, [n, m], b) == [EvidenceOf(v, n, b), EvidenceOf(v, m, b)]
  {
    hide TableView, DepthFits, EvidenceOf;
  }

  lemma ShareIs(luts: Luts, weight: nat, ev: seq<Evidence>)
    requires Shaped(luts) && HasMean(luts, ev)
    ensures Share(luts, weight, ev) == (weight * Mean(luts, ev), weight)
  {
  }

  /** Where only level j has active contexts, the blend is its share. */
  lemma {:induction false} BlendOfOne(v: View, j: nat, b: byte, k: nat)
    requires GoodView(v) && j < |LEVELS| && k <= |LEVELS|
    requires forall i: nat :: Active(v, i) ==> LevelOf(i) == j
    ensures TableView(v) && LevelDefined(v, LEVELS[j])
    ensures Blend(v, b, k) == if k > j then LevelShare(v, LEVELS[j], b) else (0, 0)
  {
    hide *;
    BlendStep(v, b, j);
    NoneBlended(v, b);
    if k > 0 {
      BlendOfOne(v, j, b, k - 1);
      BlendStep(v, b, k - 1);
      if k - 1 != j {
        NoShare(v, k - 1, b);
      }
    }
  }

  /**
   * Two active contexts of one level are averaged by weights that halve with every unit of the difference of their
   * logarithms.
   */
  lemma TwoInLevel(v: View, m: nat, x: nat, l: nat, n: nat, y: nat, j: nat, b: byte)
    requires GoodView(v) && Weighs(v, m, b, x, l) && Weighs(v, n, b, y, j) && m < n && GroupOf(m) == GroupOf(n)
    requires forall i: nat :: Active(v, i) ==> i == m || i == n
    ensures var u, w := BesideWeight(v.luts, j, l), BesideWeight(v.luts, l, j);
      u + w > 0 && IsClamped(SimpleProb(v, b), Average(u, y, w, x))
  {
    hide *;
    PairShare(v, m, x, l, n, y, j, b);
    WeighsActive(v, n, b, y, j);
    GoodTables(v);
    SomethingBlended(v, b, n);
    ProbOfBlend(v, b);
    GroupIsLevel(n);
    SameLevel(v, m, n);
    BlendOfOne(v, GroupOf(n), b, |LEVELS|);
    var u, w := BesideWeight(v.luts, j, l), BesideWeight(v.luts, l, j);
    MulDiv(Average(u, y, w, x), WeightAt(n));
    assert WeightAt(n) * Average(u, y, w, x) == Average(u, y, w, x) * WeightAt(n);
  }

  lemma SameLevel(v: View, m: nat, n: nat)
    requires GroupOf(m) == GroupOf(n) && forall i: nat :: Active(v, i) ==> i == m || i == n
    ensures forall i: nat :: Active(v, i) ==> LevelOf(i) == GroupOf(n)
  {
    hide GroupOf, Seen;
    forall i: nat | Active(v, i)
      ensures LevelOf(i) == GroupOf(n)
    {
      ActiveLength(v, i);
      GroupIsLevel(i);
    }
  }
}
