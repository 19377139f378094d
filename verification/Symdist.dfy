/** Forcing a table to a given total: proportional requantising, then correction from the widest bins. */
module Symdist {
  import opened Words
  import opened Arith
  import opened Distribution
  import opened DistributionBounds
  import RangeCoder

  /** A cumulative array as the callers pass it: it never decreases. */
  predicate Monotone(c: seq<nat>) {
    |c| == 257 && forall i, j :: 0 <= i <= j <= 256 ==> c[i] <= c[j]
  }

  predicate AllPositive(w: seq<nat>) {
    |w| == 256 && forall b :: 0 <= b < 256 ==> w[b] >= 1
  }

  /** The bin widths of a table; equal widths for an empty one. */
  function Extracted(c: seq<nat>, scale: nat): (w: seq<nat>)
    requires Monotone(c)
    ensures |w| == 256
  {
    seq(256, b requires 0 <= b < 256 =>
      if c[256] > 0 then c[b + 1] - c[b] else if scale / 256 > 0 then scale / 256 else 1)
  }

  /** The width in proportion to the scale, at least 1. */
  function Requantised(w: nat, total: nat, scale: nat): (r: nat)
    ensures r >= 1
  {
    var q := if total > 0 then w * scale / total else w;
    if q < 1 then 1 else q
  }

  function RequantisedAll(c: seq<nat>, scale: nat): (w: seq<nat>)
    requires Monotone(c)
    ensures AllPositive(w)
  {
    var e := Extracted(c, scale);
    seq(256, b requires 0 <= b < 256 => Requantised(e[b], c[256], scale))
  }

  /** The first of the widest bins among the first n. */
  function Widest(w: seq<nat>, n: nat): (i: nat)
    requires 0 < n <= |w|
    ensures i < n
    ensures forall b :: 0 <= b < n ==> w[b] <= w[i]
    ensures forall b :: 0 <= b < i ==> w[b] < w[i]
  {
    if n == 1 then 0 else
    var i := Widest(w, n - 1);
    if w[n - 1] > w[i] then n - 1 else i
  }

  /** Takes the excess out of the widest bins in turn, leaving at least 1 in each. */
  function Reduced(w: seq<nat>, excess: nat): (r: seq<nat>)
    requires AllPositive(w)
    ensures AllPositive(r)
    decreases excess
  {
    var i := Widest(w, 256);
    var take := if w[i] - 1 > excess then excess else w[i] - 1;
    if take == 0 then w else Reduced(w[i := w[i] - take], excess - take)
  }

  function Balanced(w: seq<nat>, scale: nat): (r: seq<nat>)
    requires AllPositive(w)
    ensures AllPositive(r)
  {
    var i := Widest(w, 256);
    if Total(w) < scale then w[i := w[i] + (scale - Total(w))]
    else Reduced(w, Total(w) - scale)
  }

  lemma CumulativeMonotone(w: seq<nat>)
    requires |w| == 256
    ensures Monotone(Cumulative(w))
  {
    forall i, j | 0 <= i <= j <= 256
      ensures Cumulative(w)[i] <= Cumulative(w)[j]
    {
      PrefixTotals(w, i, j);
    }
  }

  lemma PrefixTotals(w: seq<nat>, i: nat, j: nat)
    requires i <= j <= |w|
    ensures Total(w[..i]) <= Total(w[..j])
  {
    TotalPrefix(w[..j], i);
    assert w[..j][..i] == w[..i];
  }

  function Normalised(c: seq<nat>, scale: nat): (r: seq<nat>)
    requires Monotone(c)
    ensures Monotone(r)
  {
    CumulativeMonotone(Balanced(RequantisedAll(c, scale), scale));
    Cumulative(Balanced(RequantisedAll(c, scale), scale))
  }

  // ----- the total comes out right -----

  lemma {:induction false} TotalUpdate(w: seq<nat>, i: nat, x: nat)
    requires i < |w|
    ensures Total(w[i := x]) == Total(w) - w[i] + x
  {
    var n := |w| - 1;
    if i < n {
      TotalUpdate(w[..n], i, x);
      assert w[i := x][..n] == w[..n][i := x];
    } else {
      assert w[i := x][..n] == w[..n];
    }
  }

  lemma {:induction false} TotalOfOnes(w: seq<nat>)
    requires forall b :: 0 <= b < |w| ==> w[b] == 1
    ensures Total(w) == |w|
  {
    if w != [] {
      TotalOfOnes(w[..|w| - 1]);
    }
  }

  lemma {:induction false} TotalOfPositive(w: seq<nat>)
    requires forall b :: 0 <= b < |w| ==> w[b] >= 1
    ensures Total(w) >= |w|
  {
    if w != [] {
      TotalOfPositive(w[..|w| - 1]);
    }
  }

  lemma ReducedStep(w: seq<nat>, excess: nat, i: nat, take: nat)
    requires AllPositive(w) && i == Widest(w, 256) && take == if w[i] - 1 > excess then excess else w[i] - 1
    ensures Reduced(w, excess) == if take == 0 then w else Reduced(w[i := w[i] - take], excess - take)
    ensures take > 0 ==> AllPositive(w[i := w[i] - take])
  {
  }

  lemma AllOnes(w: seq<nat>)
    requires AllPositive(w) && w[Widest(w, 256)] == 1
    ensures Total(w) == 256
  {
    TotalOfOnes(w);
  }

  lemma PositiveTotal(w: seq<nat>)
    requires AllPositive(w)
    ensures |w| == 256 && Total(w) >= 256 && forall b :: 0 <= b < 256 ==> w[b] >= 1
  {
    TotalOfPositive(w);
  }

  lemma WidestPositive(w: seq<nat>)
    requires AllPositive(w)
    ensures |w| == 256 && w[Widest(w, 256)] >= 1
  {
  }

  /** The reduction takes out the whole excess, unless every bin is down to 1. */
  lemma {:induction false} ReducedTotal(w: seq<nat>, excess: nat)
    requires AllPositive(w)
    ensures var rest := Total(w) - excess; Total(Reduced(w, excess)) == if rest >= 256 then rest else 256
    decreases excess
  {
    hide *;
    PositiveTotal(w);
    var i := Widest(w, 256);
    var take := if w[i] - 1 > excess then excess else w[i] - 1;
    ReducedStep(w, excess, i, take);
    if take == 0 {
      if w[i] == 1 {
        AllOnes(w);
      }
    } else {
      TotalUpdate(w, i, w[i] - take);
      ReducedTotal(w[i := w[i] - take], excess - take);
    }
  }

  lemma BalancedTotal(w: seq<nat>, scale: nat)
    requires AllPositive(w)
    ensures Total(Balanced(w, scale)) == if scale >= 256 then scale else 256
  {
    TotalOfPositive(w);
    if Total(w) < scale {
      var i := Widest(w, 256);
      TotalUpdate(w, i, w[i] + (scale - Total(w)));
    } else {
      ReducedTotal(w, Total(w) - scale);
    }
  }

  /** From 0, strictly increasing. */
  predicate Strict(c: seq<nat>) {
    |c| == 257 && c[0] == 0 && forall i, j :: 0 <= i < j <= 256 ==> c[i] < c[j]
  }

  lemma CumulativeStrict(w: seq<nat>)
    requires AllPositive(w)
    ensures Strict(Cumulative(w)) && Cumulative(w)[256] == Total(w)
    ensures forall b :: 0 <= b < 256 ==> Cumulative(w)[b + 1] - Cumulative(w)[b] == w[b]
  {
    var c := Cumulative(w);
    forall b | 0 <= b < 256
      ensures c[b + 1] == c[b] + w[b]
    {
      TotalStep(w, b);
    }
    StepsIncrease(c);
    assert w[..0] == [] && w[..256] == w;
  }

  /** Any monotone table becomes strict, and its total is the scale exactly when the scale has room for 256 bins. */
  lemma NormalisedStrict(c: seq<nat>, scale: nat)
    requires Monotone(c)
    ensures Strict(Normalised(c, scale))
    ensures Normalised(c, scale)[256] == scale <==> scale >= 256
    ensures 256 <= scale <= RangeCoder.MAX_TOTAL ==> RangeCoder.LegalTable(Normalised(c, scale))
  {
    var w := RequantisedAll(c, scale);
    BalancedTotal(w, scale);
    CumulativeStrict(Balanced(w, scale));
  }

  /** A strict table of the right total is left as it is; so normalising twice is normalising once. */
  lemma NormalisedFixed(c: seq<nat>, scale: nat)
    requires Strict(c) && c[256] == scale
    ensures Normalised(c, scale) == c
  {
    var w := Extracted(c, scale);
    forall b | 0 <= b < 256
      ensures Requantised(w[b], scale, scale) == w[b]
    {
      MulDiv(w[b], scale);
    }
    assert RequantisedAll(c, scale) == w;
    assert Reduced(w, 0) == w;
    WidthsBack(c, w);
    assert w[..256] == w;
  }

  /** w holds the widths of the table c. */
  predicate WidthsOf(c: seq<nat>, w: seq<nat>) {
    |c| == 257 && |w| == 256 && forall b {:trigger w[b]} :: 0 <= b < 256 ==> c[b + 1] == c[b] + w[b]
  }

  /** The running totals of a table's widths are the table. */
  lemma WidthsBack(c: seq<nat>, w: seq<nat>)
    requires Strict(c) && WidthsOf(c, w)
    ensures Cumulative(w) == c
  {
    forall b | 0 <= b <= 256
      ensures Cumulative(w)[b] == c[b]
    {
      CumulativeOfWidths(c, w, b);
    }
  }

  lemma {:induction false} CumulativeOfWidths(c: seq<nat>, w: seq<nat>, n: nat)
    requires Strict(c) && WidthsOf(c, w) && n <= 256
    ensures Total(w[..n]) == c[n]
  {
    if n > 0 {
      CumulativeOfWidths(c, w, n - 1);
      TotalStep(w, n - 1);
    }
  }

  // ----- machine words -----

  /** The requantised widths overshoot by at most the 256 units of the minimum, and each fits its word. */
  lemma RequantisedFits(c: seq<nat>, scale: uint32)
    requires Monotone(c) && c[256] < TWO32 && scale >= 256
    ensures Total(RequantisedAll(c, scale)) <= scale + 256
    ensures c[256] > 0 ==> forall b :: 0 <= b < 256 ==> Extracted(c, scale)[b] * scale < TWO64
  {
    var w, t := RequantisedAll(c, scale), c[256];
    assert w[..256] == w;
    if t > 0 {
      SharesFit(c, scale, 256);
      ShareSum(Total(w), c[256] - c[0], scale, t);
      forall b | 0 <= b < 256
        ensures Extracted(c, scale)[b] * scale < TWO64
      {
        FitsWord(c[b + 1] - c[b], scale);
      }
    } else {
      EqualShares(w, scale / 256);
    }
  }

  lemma FitsWord(x: uint32, y: uint32)
    ensures x * y < TWO64
  {
    MulMono2(x, TWO32 - 1, y, TWO32 - 1);
  }

  lemma {:induction false} SharesFit(c: seq<nat>, scale: nat, n: nat)
    requires Monotone(c) && c[256] > 0 && n <= 256
    ensures Total(RequantisedAll(c, scale)[..n]) * c[256] <= (c[n] - c[0]) * scale + n * c[256]
  {
    var w, t := RequantisedAll(c, scale), c[256];
    if n > 0 {
      SharesFit(c, scale, n - 1);
      TotalStep(w, n - 1);
      var x := c[n] - c[n - 1];
      OneShare(x, scale, t);
      AddShares(Total(w[..n - 1]), w[n - 1], t, c[n - 1] - c[0], x, scale, n - 1);
    } else {
      assert w[..0] == [];
    }
  }

  lemma OneShare(x: nat, scale: nat, t: nat)
    requires t > 0
    ensures Requantised(x, t, scale) * t <= x * scale + t
  {
    DivBounds(x * scale, t);
  }

  lemma AddShares(a: nat, b: nat, t: nat, x: nat, y: nat, scale: nat, n: nat)
    requires a * t <= x * scale + n * t && b * t <= y * scale + t
    ensures (a + b) * t <= (x + y) * scale + (n + 1) * t
  {
  }

  lemma ShareSum(a: nat, x: nat, scale: nat, t: nat)
    requires t > 0 && x <= t && a * t <= x * scale + 256 * t
    ensures a <= scale + 256
  {
    MulMono(x, t, scale);
    assert t * scale + 256 * t == (scale + 256) * t;
    MulCancel(a, scale + 256, t);
  }

  lemma EqualShares(w: seq<nat>, base: nat)
    requires |w| == 256 && base >= 1 && forall b :: 0 <= b < 256 ==> w[b] == base
    ensures Total(w) == 256 * base
  {
    assert w[..256] == w;
    SameEverywhere(w, base, 256);
  }

  lemma {:induction false} SameEverywhere(w: seq<nat>, base: nat, n: nat)
    requires n <= |w| && forall b :: 0 <= b < |w| ==> w[b] == base
    ensures Total(w[..n]) == n * base
  {
    if n > 0 {
      SameEverywhere(w, base, n - 1);
      TotalStep(w, n - 1);
      assert n * base == (n - 1) * base + base;
    }
  }

  // ----- in place -----

  method WidestOf(w: array<nat>) returns (i: nat)
    requires w.Length == 256
    ensures i == Widest(w[..], 256)
  {
    i := 0;
    for b := 1 to 256
      invariant i == Widest(w[..], b)
    {
      if w[b] > w[i] {
        i := b;
      }
    }
  }

  /** One pass: takes what it can from the widest bin; done when nothing can be taken. */
  method ReduceOnce(w: array<nat>, excess: nat) returns (done: bool, left: nat)
    requires AllPositive(w[..]) && excess > 0
    modifies w
    ensures done ==> w[..] == Reduced(old(w[..]), excess)
    ensures !done ==> left < excess && AllPositive(w[..]) && Reduced(w[..], left) == Reduced(old(w[..]), excess)
  {
    ghost var before := w[..];
    WidestPositive(before);
    hide *;
    var idx := WidestOf(w);
    var take := w[idx] - 1;
    if take > excess {
      take := excess;
    }
    ReducedStep(before, excess, idx, take);
    done, left := take == 0, excess - take;
    w[idx] := w[idx] - take;
    assert w[..] == before[idx := before[idx] - take];
  }

  /** The reduction loop; it ends because every pass takes something. */
  method Reduce(w: array<nat>, excess0: nat)
    requires AllPositive(w[..])
    modifies w
    ensures w[..] == Reduced(old(w[..]), excess0)
  {
    var excess, done := excess0, false;
    while excess > 0 && !done
      invariant if done then w[..] == Reduced(old(w[..]), excess0)
                else AllPositive(w[..]) && Reduced(w[..], excess) == Reduced(old(w[..]), excess0)
      decreases !done, excess
    {
      hide *;
      done, excess := ReduceOnce(w, excess);
    }
    if !done {
      WidestPositive(w[..]);
      ReducedStep(w[..], 0, Widest(w[..], 256), 0);
    }
  }

  method Normalize(cum: array<nat>, scale: nat)
    requires Monotone(cum[..])
    modifies cum
    ensures cum[..] == Normalised(old(cum[..]), scale)
  {
    var w := new nat[256];
    var sum := Requantise(cum, scale, w);
    Balance(w, sum, scale);
    Rebuild(cum, w);
  }

  /** Brings the widths to the scale, from the widest bin or by reduction. */
  method Balance(w: array<nat>, sum: nat, scale: nat)
    requires AllPositive(w[..]) && sum == Total(w[..])
    modifies w
    ensures w[..] == Balanced(old(w[..]), scale)
  {
    ghost var before := w[..];
    hide Reduced, Widest, AllPositive, Total;
    if sum == scale {
      ReducedStep(before, 0, Widest(before, 256), 0);
    } else if sum < scale {
      assert |before| == 256;
      var big := WidestOf(w);
      w[big] := w[big] + (scale - sum);
      assert w[..] == before[big := before[big] + (scale - sum)];
    } else {
      Reduce(w, sum - scale);
    }
  }

  method Requantise(cum: array<nat>, scale: nat, w: array<nat>) returns (sum: nat)
    requires Monotone(cum[..]) && w.Length == 256 && w != cum
    modifies w
    ensures w[..] == RequantisedAll(cum[..], scale) && sum == Total(w[..])
  {
    ghost var c, r := cum[..], RequantisedAll(cum[..], scale);
    Extract(cum, scale, w);
    ghost var e := w[..];
    var total := cum[256];
    assert r[..0] == [] && Total([]) == 0;
    hide Total, Extracted, Monotone, Requantised;
    sum := 0;
    for b := 0 to 256
      invariant forall k :: 0 <= k < b ==> w[k] == r[k]
      invariant forall k :: b <= k < 256 ==> w[k] == e[k]
      invariant sum == Total(r[..b])
    {
      var nw := Requantised(w[b], total, scale);
      assert nw == r[b];
      w[b] := nw;
      TotalStep(r, b);
      sum := sum + nw;
    }
    assert w[..] == r && r[..256] == r;
  }

  method Extract(cum: array<nat>, scale: nat, w: array<nat>)
    requires Monotone(cum[..]) && w.Length == 256 && w != cum
    modifies w
    ensures w[..] == Extracted(cum[..], scale)
  {
    ghost var e := Extracted(cum[..], scale);
    var total := cum[256];
    var base := scale / 256;
    for b := 0 to 256
      invariant forall k :: 0 <= k < b ==> w[k] == e[k]
    {
      assert cum[..][b] <= cum[..][b + 1];
      w[b] := if total == 0 then (if base > 0 then base else 1) else cum[b + 1] - cum[b];
    }
    assert w[..] == e;
  }

  method Rebuild(cum: array<nat>, w: array<nat>)
    requires cum.Length == 257 && w.Length == 256 && w != cum
    modifies cum
    ensures cum[..] == Cumulative(w[..])
  {
    var acc := 0;
    for b := 0 to 256
      invariant acc == Total(w[..b])
      invariant forall k :: 0 <= k < b ==> cum[k] == Total(w[..k])
    {
      cum[b] := acc;
      TotalStep(w[..], b);
      assert w[..][..b] == w[..b] && w[..][..b + 1] == w[..b + 1];
      acc := acc + w[b];
    }
    cum[256] := acc;
    assert forall k :: 0 <= k <= 256 ==> w[..][..k] == w[..k];
  }
}
