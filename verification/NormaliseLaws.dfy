/**
 * Which bins the corrections of a table change, and by how much: laws that fix the results of normalising, blending
 * and quantising without their loops.
 */
module NormaliseLaws {
  import opened Words
  import opened Arith
  import opened Distribution
  import opened Symdist
  import opened AuxBlend
  import opened Quantize

  // ----- normalising -----

  /** Bin d is wider than bin b, or as wide and before it. */
  predicate Before(w: seq<nat>, d: nat, b: nat)
    requires d < |w| && b < |w|
  {
    w[d] > w[b] || (w[d] == w[b] && d < b)
  }

  /** The widest bins are emptied first: where a bin is cut, every wider one is down to 1. */
  predicate CutFromWidest(w: seq<nat>, r: seq<nat>) {
    && |w| == |r| == 256
    && (forall b :: 0 <= b < 256 ==> 1 <= r[b] <= w[b])
    && forall b, d :: 0 <= b < 256 && 0 <= d < 256 && r[b] < w[b] && Before(w, d, b) ==> r[d] == 1
  }

  /** No bin grows, and the excess is taken from the widest bins, each down to 1 before the next is touched. */
  lemma {:induction false} ReducedFromWidest(w: seq<nat>, excess: nat)
    requires AllPositive(w)
    ensures CutFromWidest(w, Reduced(w, excess))
    decreases excess
  {
    var i := Widest(w, 256);
    var take := if w[i] - 1 > excess then excess else w[i] - 1;
    ReducedStep(w, excess, i, take);
    if take > 0 {
      var w' := w[i := w[i] - take];
      ReducedFromWidest(w', excess - take);
      if take == excess {
        ReducedStep(w', 0, Widest(w', 256), 0);
      }
      hide Reduced, Widest;
      CutOnce(w, i, take, Reduced(w', excess - take), excess);
    }
  }

  lemma CutOnce(w: seq<nat>, i: nat, take: nat, r: seq<nat>, excess: nat)
    requires AllPositive(w) && i < 256 && 0 < take < w[i] && (take == w[i] - 1 || take == excess)
    requires forall b :: 0 <= b < 256 && b != i ==> Before(w, i, b)
    requires CutFromWidest(w[i := w[i] - take], r) && (take == excess ==> r == w[i := w[i] - take])
    ensures CutFromWidest(w, r)
  {
    var w' := w[i := w[i] - take];
    forall b, d | 0 <= b < 256 && 0 <= d < 256 && r[b] < w[b] && Before(w, d, b)
      ensures r[d] == 1
    {
      assert 1 <= r[d] <= w'[d];
      assert d != i ==> Before(w, i, d);
      if d != i && b != i {
        assert Before(w', d, b);
      }
    }
  }

  /** The one bin that grows where units are missing: the first of the widest. */
  predicate OnlyWidestGrows(w: seq<nat>, r: seq<nat>) {
    && |w| == |r| == 256
    && forall b, d :: 0 <= b < 256 && 0 <= d < 256 && r[b] != w[b] && d != b ==> r[b] > w[b] && Before(w, b, d)
  }

  lemma WidestGrows(w: seq<nat>, scale: nat)
    requires AllPositive(w) && Total(w) < scale
    ensures OnlyWidestGrows(w, Balanced(w, scale)) && Total(Balanced(w, scale)) == scale
  {
    var i := Widest(w, 256);
    var x := w[i] + (scale - Total(w));
    assert Balanced(w, scale) == w[i := x];
    hide Balanced, Widest;
    TotalUpdate(w, i, x);
    hide Total;
    forall d | 0 <= d < 256 && d != i
      ensures Before(w, i, d)
    {
    }
  }

  /** What correcting does to 256 positive widths. */
  lemma BalancedIs(w: seq<nat>, scale: nat)
    requires AllPositive(w)
    ensures Total(w) >= scale ==> CutFromWidest(w, Balanced(w, scale))
    ensures Total(w) < scale ==> OnlyWidestGrows(w, Balanced(w, scale)) && Total(Balanced(w, scale)) == scale
  {
    if Total(w) >= scale {
      hide CutFromWidest, Total, Widest;
      ReducedFromWidest(w, Total(w) - scale);
    } else {
      hide *;
      WidestGrows(w, scale);
    }
  }

  /** A width in proportion: within one unit of w / total of the scale, unless that is below 1. */
  lemma RequantisedIs(w: nat, total: nat, scale: nat)
    ensures var r := Requantised(w, total, scale);
      if total == 0 then r == (if w < 1 then 1 else w)
      else (r == 1 || r * total <= w * scale) && w * scale < (r + 1) * total
  {
    if total > 0 {
      DivBounds(w * scale, total);
      var q := w * scale / total;
      assert (q + 1) * total == q * total + total;
      MulMono(0, w, scale);
      DivNat(w * scale, total);
    }
  }

  /** r holds the widths of the table t. */
  predicate WidthsAre(t: seq<nat>, r: seq<nat>) {
    |t| == 257 && |r| == 256 && t[0] == 0 && forall b {:trigger r[b]} :: 0 <= b < 256 ==> t[b + 1] == t[b] + r[b]
  }

  /** The widths w are those of the table c in proportion to the scale. */
  predicate InProportion(c: seq<nat>, scale: nat, w: seq<nat>)
    requires |c| == 257
  {
    && |w| == 256
    && forall b {:trigger w[b]} :: 0 <= b < 256 ==>
        if c[256] == 0 then w[b] == (if scale < 256 then 1 else scale / 256)
        else w[b] >= 1 && (w[b] == 1 || w[b] * c[256] <= (c[b + 1] - c[b]) * scale)
             && (c[b + 1] - c[b]) * scale < (w[b] + 1) * c[256]
  }

  /**
   * The whole of normalising: widths in proportion, and then either only the first of the widest grows, or only
   * the widest are cut.
   */
  lemma NormalisedIs(c: seq<nat>, scale: nat)
    requires Monotone(c)
    ensures exists w, r :: InProportion(c, scale, w) && WidthsAre(Normalised(c, scale), r)
                           && if Total(w) < scale then OnlyWidestGrows(w, r) else CutFromWidest(w, r)
  {
    var w := RequantisedAll(c, scale);
    var r := Balanced(w, scale);
    RequantisedAllIs(c, scale);
    BalancedIs(w, scale);
    CumulativeStrict(r);
    assert WidthsAre(Normalised(c, scale), r);
  }

  lemma RequantisedAllIs(c: seq<nat>, scale: nat)
    requires Monotone(c)
    ensures InProportion(c, scale, RequantisedAll(c, scale))
  {
    var w, e := RequantisedAll(c, scale), Extracted(c, scale);
    forall b {:trigger w[b]} | 0 <= b < 256
      ensures if c[256] == 0 then w[b] == (if scale < 256 then 1 else scale / 256)
              else w[b] >= 1 && (w[b] == 1 || w[b] * c[256] <= (c[b + 1] - c[b]) * scale)
                   && (c[b + 1] - c[b]) * scale < (w[b] + 1) * c[256]
    {
      assert w[b] == Requantised(e[b], c[256], scale);
      RequantisedIs(e[b], c[256], scale);
    }
  }

  // ----- blending -----

  /** A weight of 0 leaves only the channel: its prior widths brought to the scale. */
  lemma NoWeight(c: seq<nat>, scale: nat, prior: seq<nat>)
    requires Monotone(c) && c[256] > 0 && |prior| == 256
    ensures Monotone(Cumulative(prior)) && Blended(c, scale, 0, prior) == Normalised(Cumulative(prior), scale)
  {
    CumulativeMonotone(prior);
    var w := BlendWidths(c, scale, 0, prior);
    forall b | 0 <= b < 256
      ensures w[b] == prior[b]
    {
      MulDiv(prior[b], A_DEN);
    }
    assert w == prior;
  }

  /** A blended width is the mean of the table's share and the prior's, within two roundings. */
  lemma BlendWidthIs(w: nat, total: nat, scale: nat, alpha: nat, prior: nat)
    requires total > 0 && alpha <= 65536
    ensures var r := BlendWidth(w, total, scale, alpha, prior);
      var mean := alpha * (w * scale) + (65536 - alpha) * (prior * total);
      65536 * total * r <= mean < 65536 * total * (r + 1) + alpha * total
  {
    var q := w * scale / total;
    MulMono(0, w, scale);
    DivNat(w * scale, total);
    DivBounds(w * scale, total);
    var n := alpha * q + (65536 - alpha) * prior;
    DivBounds(n, 65536);
    var r := BlendWidth(w, total, scale, alpha, prior);
    assert r == n / 65536;
    hide BlendWidth;
    TwoRoundings(alpha, 65536 - alpha, w * scale, q, total, prior, r);
  }

  lemma TwoRoundings(alpha: nat, beta: nat, x: nat, q: nat, total: nat, prior: nat, r: nat)
    requires q * total <= x < q * total + total
    requires r * 65536 <= alpha * q + beta * prior < r * 65536 + 65536 && total > 0
    ensures 65536 * total * r <= alpha * x + beta * (prior * total) < 65536 * total * (r + 1) + alpha * total
  {
    var n := alpha * q + beta * prior;
    MulMono(r * 65536, n, total);
    MulMono(n + 1, r * 65536 + 65536, total);
    assert n * total == alpha * (q * total) + beta * (prior * total);
    MulMono(q * total, x, alpha);
    MulMono(x, q * total + total, alpha);
    assert alpha * (q * total + total) == alpha * (q * total) + alpha * total;
  }

  /** A wider prior never narrows a bin. */
  lemma MorePrior(w: nat, total: nat, scale: nat, alpha: nat, prior: nat, prior': nat)
    requires total > 0 && alpha <= A_DEN && prior <= prior'
    ensures BlendWidth(w, total, scale, alpha, prior) <= BlendWidth(w, total, scale, alpha, prior')
  {
    var q := w * scale / total;
    MulMono(prior, prior', A_DEN - alpha);
    DivMono(alpha * q + (A_DEN - alpha) * prior, alpha * q + (A_DEN - alpha) * prior', A_DEN);
  }

  // ----- quantising -----

  /**
   * The widest are lowered together: no bin stays more than one unit above a lowered one, or above it and before
   * it.
   */
  predicate LoweredTogether(w: seq<nat>, r: seq<nat>) {
    && |w| == |r| == 256
    && (forall b :: 0 <= b < 256 ==> 1 <= r[b] <= w[b])
    && forall b, d :: 0 <= b < 256 && 0 <= d < 256 && r[b] < w[b] ==> r[d] <= (if d > b then r[b] + 1 else r[b])
  }

  lemma {:induction false} TrimmedTogether(w: seq<nat>, excess: nat)
    requires AllPositive(w)
    ensures LoweredTogether(w, Trimmed(w, excess))
    decreases excess
  {
    var i := Widest(w, 256);
    TrimmedStep(w, excess, i);
    if excess > 0 && w[i] > 1 {
      TrimmedTogether(w[i := w[i] - 1], excess - 1);
      hide Trimmed, Widest;
      LowerOnce(w, i, Trimmed(w[i := w[i] - 1], excess - 1));
    }
  }

  lemma LowerOnce(w: seq<nat>, i: nat, r: seq<nat>)
    requires AllPositive(w) && i < 256 && w[i] > 1 && forall b :: 0 <= b < 256 && b != i ==> Before(w, i, b)
    requires LoweredTogether(w[i := w[i] - 1], r)
    ensures LoweredTogether(w, r)
  {
    var w' := w[i := w[i] - 1];
    forall b, d | 0 <= b < 256 && 0 <= d < 256 && r[b] < w[b]
      ensures r[d] <= if d > b then r[b] + 1 else r[b]
    {
      assert r[d] <= w'[d] && r[b] <= w'[b];
      if b == i && d != i {
        assert Before(w, i, d);
      }
    }
  }

  /** Targets cut off at 1 and the scale. */
  predicate CutOff(targets: seq<int>, scale: nat, w: seq<nat>) {
    |targets| == |w| == 256
    && forall b :: 0 <= b < 256 ==>
        w[b] == if targets[b] < 1 then 1 else if targets[b] > scale then scale else targets[b]
  }

  /**
   * The whole of quantising: targets cut off at 1 and the scale, and then only the most probable byte gains what
   * is missing, or the widest are lowered together.
   */
  lemma QuantizedIs(targets: seq<int>, top: byte, scale: nat)
    requires |targets| == 256 && scale >= 1
    ensures exists w :: CutOff(targets, scale, w)
                        && if Total(w) <= scale
                           then forall b :: 0 <= b < 256 && b != top ==> Quantized(targets, top, scale)[b] == w[b]
                           else LoweredTogether(w, Quantized(targets, top, scale))
  {
    var w := ClampedAll(targets, scale);
    assert CutOff(targets, scale, w);
    if Total(w) > scale {
      TrimmedTogether(w, Total(w) - scale);
    }
  }
}
