/** The stored widths of landmarks and schemas: arbitrary rounded targets corrected to the scale. */
module Quantize {
  import opened Words
  import opened Distribution
  import opened Symdist
  import CodecModel
  import DistributionBounds

  function Clamped(v: int, scale: nat): (w: nat)
    requires scale >= 1
    ensures 1 <= w <= scale
  {
    if v < 1 then 1 else if v > scale then scale else v
  }

  function ClampedAll(targets: seq<int>, scale: nat): (w: seq<nat>)
    requires |targets| == 256 && scale >= 1
    ensures AllPositive(w)
  {
    seq(256, b requires 0 <= b < 256 => Clamped(targets[b], scale))
  }

  /** Units taken one at a time from the first of the widest bins, as long as one is wider than 1. */
  function Trimmed(w: seq<nat>, excess: nat): (r: seq<nat>)
    requires AllPositive(w)
    ensures AllPositive(r)
    decreases excess
  {
    var i := Widest(w, 256);
    if excess == 0 || w[i] == 1 then w else Trimmed(w[i := w[i] - 1], excess - 1)
  }

  /** What is missing goes to the most probable byte, what is too much comes off the widest. */
  function Quantized(targets: seq<int>, top: byte, scale: nat): (w: seq<nat>)
    requires |targets| == 256 && scale >= 1
    ensures AllPositive(w)
  {
    var w := ClampedAll(targets, scale);
    if Total(w) <= scale then w[top := w[top] + (scale - Total(w))] else Trimmed(w, Total(w) - scale)
  }

  lemma TrimmedStep(w: seq<nat>, excess: nat, i: nat)
    requires AllPositive(w) && i == Widest(w, 256)
    ensures excess == 0 || w[i] == 1 ==> Trimmed(w, excess) == w
    ensures excess > 0 && w[i] > 1 ==>
      AllPositive(w[i := w[i] - 1]) && Trimmed(w, excess) == Trimmed(w[i := w[i] - 1], excess - 1)
  {
  }

  lemma {:induction false} TrimmedTotal(w: seq<nat>, excess: nat)
    requires AllPositive(w)
    ensures var rest := Total(w) - excess; Total(Trimmed(w, excess)) == if rest >= 256 then rest else 256
    decreases excess
  {
    hide *;
    PositiveTotal(w);
    var i := Widest(w, 256);
    TrimmedStep(w, excess, i);
    if excess > 0 {
      if w[i] == 1 {
        AllOnes(w);
      } else {
        TotalUpdate(w, i, w[i] - 1);
        TrimmedTotal(w[i := w[i] - 1], excess - 1);
      }
    }
  }

  /**
   * Whatever the targets, the widths are positive and total the scale, so they are used as they are and give a
   * legal table.
   */
  lemma QuantizedTotal(targets: seq<int>, top: byte, scale: nat)
    requires |targets| == 256 && scale >= 1
    ensures Total(Quantized(targets, top, scale)) == scale <==> scale >= 256
    ensures scale == CodecModel.SCALE ==>
      CodecModel.StoredWidths(Quantized(targets, top, scale))
      && CodecModel.TableFor(Quantized(targets, top, scale)) == Cumulative(Quantized(targets, top, scale))
  {
    var w := ClampedAll(targets, scale);
    TotalOfPositive(w);
    if Total(w) <= scale {
      TotalUpdate(w, top, w[top] + (scale - Total(w)));
    } else {
      TrimmedTotal(w, Total(w) - scale);
    }
  }

  // ----- in place -----

  method ClampInto(targets: seq<int>, scale: nat, w: array<nat>) returns (acc: nat)
    requires |targets| == 256 && scale >= 1 && w.Length == 256
    modifies w
    ensures w[..] == ClampedAll(targets, scale) && acc == Total(w[..])
  {
    ghost var c := ClampedAll(targets, scale);
    acc := 0;
    for b := 0 to 256
      invariant acc == Total(c[..b])
      invariant forall k :: 0 <= k < b ==> w[k] == c[k]
    {
      w[b] := Clamped(targets[b], scale);
      DistributionBounds.TotalStep(c, b);
      acc := acc + w[b];
    }
    assert w[..] == c && c[..256] == c;
  }

  /** Raises one bin unit by unit. */
  method Raise(w: array<nat>, top: byte, missing: nat)
    requires w.Length == 256
    modifies w
    ensures w[..] == old(w[..])[top := old(w[top]) + missing]
  {
    ghost var c := w[..];
    var diff := missing;
    while diff > 0
      invariant 0 <= diff <= missing && w[..] == c[top := c[top] + (missing - diff)]
    {
      w[top] := w[top] + 1;
      diff := diff - 1;
    }
  }

  /** One unit off the widest bin of the moment; done when every bin is down to 1. */
  method TrimOnce(w: array<nat>, excess: nat) returns (done: bool)
    requires AllPositive(w[..]) && excess > 0
    modifies w
    ensures done ==> w[..] == Trimmed(old(w[..]), excess)
    ensures !done ==> AllPositive(w[..]) && Trimmed(w[..], excess - 1) == Trimmed(old(w[..]), excess)
  {
    ghost var before := w[..];
    WidestPositive(before);
    hide *;
    var i := WidestOf(w);
    TrimmedStep(before, excess, i);
    done := w[i] <= 1;
    if !done {
      w[i] := w[i] - 1;
      assert w[..] == before[i := before[i] - 1];
    }
  }

  /** Lowers the widest bin of the moment unit by unit. */
  method Trim(w: array<nat>, excess0: nat)
    requires AllPositive(w[..])
    modifies w
    ensures w[..] == Trimmed(old(w[..]), excess0)
  {
    var excess, done := excess0, false;
    while excess > 0 && !done
      invariant if done then w[..] == Trimmed(old(w[..]), excess0)
                else AllPositive(w[..]) && Trimmed(w[..], excess) == Trimmed(old(w[..]), excess0)
      decreases !done, excess
    {
      hide *;
      done := TrimOnce(w, excess);
      excess := excess - 1;
    }
    if !done {
      WidestPositive(w[..]);
      TrimmedStep(w[..], 0, Widest(w[..], 256));
    }
  }

  /** The correction loops. */
  method LmQuantize(targets: seq<int>, top: byte, scale: nat, w: array<nat>)
    requires |targets| == 256 && scale >= 1 && w.Length == 256
    modifies w
    ensures w[..] == Quantized(targets, top, scale)
  {
    var acc := ClampInto(targets, scale, w);
    hide ClampedAll, Total, Trimmed;
    if acc <= scale {
      Raise(w, top, scale - acc);
    } else {
      Trim(w, acc - scale);
    }
  }
}
