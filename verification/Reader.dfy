/**
 * The per-instance reader: it computes the distribution in scratch buffers, by the hoisted form.  For each level
 * it collects the contexts that the tables know, longest first, and the bytes observed after any
 * of them; it adds the share of an unobserved byte to all 256 bytes at once and then
 * swaps it for the exact share of every observed byte.  Distribution is proved to return the
 * table of the form that blends every byte separately.
 */
module Reader {
  import opened Words
  import opened Arith
  import opened Occurrences
  import opened BtTables
  import opened BtSnapshot
  import opened Distribution
  import opened DistributionBounds
  import BtTrain

  /** An active context of a level: its length and total, its evidence for an unobserved byte, its frequencies. */
  datatype Active = Active(n: nat, total: nat, base: Evidence, freq: seq<nat>)

  ghost predicate ActiveOk(v: View, a: Active, n: nat)
    requires TableView(v) && n <= |v.w|
  {
    && a.n == n
    && a.total == TotalOf(v.s, v.hs, Suffix(v.w, n)) > 0 && Spread(a.total) > 0
    && a.base == Unobserved(v.luts, n, a.total)
    && |a.freq| == 256 && forall b: byte :: a.freq[b] == FreqOf(v.s, v.hs, Suffix(v.w, n), b)
  }

  /** obs lists each marked byte once. */
  ghost predicate Listed(marks: seq<bool>, obs: seq<byte>) {
    && |marks| == 256
    && (forall b: byte :: marks[b] <==> b in obs)
    && (forall i, j :: 0 <= i < j < |obs| ==> obs[i] != obs[j])
  }

  ghost predicate ActivesOk(v: View, act: seq<Active>, d: seq<nat>)
    requires TableView(v) && forall i :: 0 <= i < |d| ==> d[i] <= |v.w|
  {
    |act| == |d| && forall i :: 0 <= i < |d| ==> ActiveOk(v, act[i], d[i])
  }

  ghost predicate Covered(act: seq<Active>, obs: seq<byte>) {
    forall i, b: byte :: 0 <= i < |act| && b < |act[i].freq| && act[i].freq[b] > 0 ==> b in obs
  }

  lemma ActivesMore(v: View, act: seq<Active>, d: seq<nat>, a: Active, n: nat)
    requires TableView(v) && n <= |v.w| && forall i :: 0 <= i < |d| ==> d[i] <= |v.w|
    requires ActivesOk(v, act, d) && ActiveOk(v, a, n)
    ensures forall i :: 0 <= i < |d + [n]| ==> (d + [n])[i] <= |v.w|
    ensures ActivesOk(v, act + [a], d + [n])
  {
  }

  lemma EntryTotal(v: View, n: nat, j: int)
    requires TableView(v) && n <= |v.w| && j == EntryOf(v.s, v.hs, Suffix(v.w, n))
    ensures TotalOf(v.s, v.hs, Suffix(v.w, n)) == if j < 0 then 0 else v.s.ctxPool[j].total
  {
  }

  /** The contexts longer than n have been collected: they have the lengths d. */
  ghost predicate Collected(v: View, lv: Level, n: int, marks: seq<bool>, act: seq<Active>, obs: seq<byte>,
                            d: seq<nat>) {
    && TableView(v) && 0 <= n <= |v.w|
    && Listed(marks, obs) && Covered(act, obs)
    && (forall i :: 0 <= i < |d| ==> d[i] <= |v.w|) && ActivesOk(v, act, d)
    && d + Depths(v, n, lv.dmin) == LevelDepths(v, lv)
  }

  lemma LevelStart(v: View, lv: Level, n: int, marks: seq<bool>)
    requires TableView(v) && n == if |v.w| < lv.dmax then |v.w| else lv.dmax
    requires |marks| == 256 && forall b :: 0 <= b < 256 ==> !marks[b]
    ensures Collected(v, lv, n, marks, [], [], [])
  {
    assert [] + Depths(v, n, lv.dmin) == LevelDepths(v, lv);
  }

  lemma LevelEnd(v: View, lv: Level, n: nat, marks: seq<bool>, act: seq<Active>, obs: seq<byte>, d: seq<nat>)
    requires Collected(v, lv, n, marks, act, obs, d) && n < lv.dmin
    ensures ActivesOk(v, act, LevelDepths(v, lv)) && Covered(act, obs)
    ensures forall i, j :: 0 <= i < j < |obs| ==> obs[i] != obs[j]
  {
    assert d + Depths(v, n, lv.dmin) == d;
  }

  lemma CoveredMore(act: seq<Active>, obs: seq<byte>, a: Active, obs': seq<byte>)
    requires Covered(act, obs) && obs <= obs' && |a.freq| == 256
    requires forall b: byte :: a.freq[b] > 0 ==> b in obs'
    ensures Covered(act + [a], obs')
  {
    assert forall b :: b in obs ==> b in obs';
  }

  lemma DepthsStep(v: View, n: nat, dmin: nat, d: seq<nat>)
    requires TableView(v) && 0 < dmin <= n <= |v.w|
    ensures d + Depths(v, n, dmin)
         == (if TotalOf(v.s, v.hs, Suffix(v.w, n)) > 0 then d + [n] else d) + Depths(v, n - 1, dmin)
  {
    assert Readable(v.s);
    hide TableView, TotalOf;
  }

  /** A context of the level that is met on the way down has counts that fit. */
  lemma MetFits(v: View, lv: Level, n: nat, marks: seq<bool>, act: seq<Active>, obs: seq<byte>, d: seq<nat>)
    requires Collected(v, lv, n, marks, act, obs, d) && LevelDefined(v, lv) && 0 < lv.dmin <= n
    requires TotalOf(v.s, v.hs, Suffix(v.w, n)) > 0
    ensures Spread(TotalOf(v.s, v.hs, Suffix(v.w, n))) > 0
  {
    var ds, zero: byte := LevelDepths(v, lv), 0;
    assert Depths(v, n, lv.dmin)[0] == n;
    hide Readable, GoodLuts, TotalOf, FreqOf, Depths, LevelDepths, SumFits;
    assert ds[|d|] == n;
    assert ByteDefined(v, ds, zero);
    assert DepthFits(v, ds[|d|], zero);
  }

  class BtV3Reader {
    const s: Snapshot
    const hs: BtTrain.Hashes
    const luts: Luts
    var window: seq<byte>
    const ws: array<int64>
    const wt: array<int64>
    const probs: array<nat>

    ghost function V(): View
      reads `window
    {
      View(s, hs, luts, window)
    }

    ghost predicate Valid()
      reads `window
    {
      TableView(V()) && ws.Length == wt.Length == probs.Length == 256 && ws != wt
    }

    constructor (s: Snapshot, hs: BtTrain.Hashes, luts: Luts)
      requires Readable(s) && GoodLuts(luts)
      ensures Valid() && window == [] && this.s == s && this.hs == hs && this.luts == luts
      ensures fresh(ws) && fresh(wt) && fresh(probs)
    {
      this.s, this.hs, this.luts, window := s, hs, luts, [];
      ws, wt, probs := new int64[256](_ => 0), new int64[256](_ => 0), new nat[256](_ => 0);
    }

    method ResetWindow()
      requires Valid()
      modifies `window
      ensures Valid() && window == []
    {
      window := [];
    }

    method Push(b: byte)
      requires Valid()
      modifies `window
      ensures Valid() && window == Occurrences.Push(old(window), b)
    {
      window := Occurrences.Push(window, b);
    }

    /** Walks one chain, recording frequencies and listing the bytes not listed before. */
    method CollectFreqs(start: int, marks: array<bool>, obs0: seq<byte>) returns (freq: seq<nat>, obs: seq<byte>)
      requires Walkable(s.pool, start) && Listed(marks[..], obs0)
      modifies marks
      ensures |freq| == 256 && forall b: byte :: freq[b] == WalkFreq(s.pool, PathOf(s.pool, start), b)
      ensures Listed(marks[..], obs) && obs0 <= obs
      ensures forall b: byte :: freq[b] > 0 ==> b in obs
    {
      var row := new nat[256](_ => 0);
      obs := obs0;
      var idx := start;
      ghost var path, k := PathOf(s.pool, start), 0;
      while idx >= 0
        invariant fresh(row)
        invariant k <= |path| && IsPath(s.pool, idx, path[k..])
        invariant forall b: byte :: row[b] == WalkFreq(s.pool, path[..k], b)
        invariant Listed(marks[..], obs) && obs0 <= obs
        invariant forall b: byte :: row[b] > 0 ==> b in obs
        decreases |path| - k
      {
        var e := s.pool[idx];
        assert path[k] == idx && path[..k + 1][..k] == path[..k] && path[k..][1..] == path[k + 1..];
        row[e.next] := e.freq;
        obs := MarkByte(marks, obs, e.next);
        idx := e.ctxNext;
        k := k + 1;
      }
      assert path[..k] == path;
      freq := row[..];
    }

    static method MarkByte(marks: array<bool>, obs0: seq<byte>, b: byte) returns (obs: seq<byte>)
      requires Listed(marks[..], obs0)
      modifies marks
      ensures Listed(marks[..], obs) && obs0 <= obs && b in obs
    {
      obs := obs0;
      if !marks[b] {
        assert b !in obs0 by {
          assert marks[..][b] == marks[b];
        }
        ghost var before := marks[..];
        marks[b] := true;
        obs := obs0 + [b];
        assert marks[..] == before[b := true];
      } else {
        assert marks[..][b];
      }
    }

    /** The active contexts of a level, longest first, and the union of their observed bytes. */
    method CollectLevel(lv: Level) returns (act: seq<Active>, obs: seq<byte>)
      requires Valid() && lv.dmin > 0 && LevelDefined(V(), lv)
      ensures ActivesOk(V(), act, LevelDepths(V(), lv)) && Covered(act, obs)
      ensures forall i, j :: 0 <= i < j < |obs| ==> obs[i] != obs[j]
    {
      ghost var d: seq<nat>, v := [], V();
      hide TableView, LevelDefined, ActivesOk, Covered, Listed, LevelDepths, Collected;
      var marks := new bool[256](_ => false);
      act, obs := [], [];
      var n: int := if |window| < lv.dmax then |window| else lv.dmax;
      LevelStart(v, lv, n, marks[..]);
      while n >= lv.dmin
        invariant fresh(marks) && 0 <= n <= lv.dmax && Collected(v, lv, n, marks[..], act, obs, d)
      {
        act, obs, d := CollectDepth(lv, n, marks, act, obs, d);
        n := n - 1;
      }
      LevelEnd(v, lv, n, marks[..], act, obs, d);
    }

    method CollectDepth(lv: Level, n: nat, marks: array<bool>, act0: seq<Active>, obs0: seq<byte>, ghost d0: seq<nat>)
      returns (act: seq<Active>, obs: seq<byte>, ghost d: seq<nat>)
      requires Valid() && LevelDefined(V(), lv) && 0 < lv.dmin <= n <= lv.dmax
      requires Collected(V(), lv, n, marks[..], act0, obs0, d0)
      modifies marks
      ensures Collected(V(), lv, n - 1, marks[..], act, obs, d)
    {
      ghost var v := V();
      assert LookupEnds(s, hs, Suffix(window, n));
      var j := FindContext(s, hs, Suffix(window, n));
      DepthsStep(v, n, lv.dmin, d0);
      EntryTotal(v, n, j);
      act, obs, d := act0, obs0, d0;
      if j >= 0 && s.ctxPool[j].total > 0 {
        MetFits(v, lv, n, marks[..], act0, obs0, d0);
        var a;
        a, obs := CollectOne(n, j, marks, obs0);
        CoveredMore(act0, obs0, a, obs);
        ActivesMore(v, act0, d0, a, n);
        act, d := act0 + [a], d0 + [n];
      }
    }

    method CollectOne(n: nat, j: nat, marks: array<bool>, obs0: seq<byte>) returns (a: Active, obs: seq<byte>)
      requires Valid() && n <= |window| && j < |s.ctxPool| && s.ctxPool[j].total > 0
      requires j == EntryOf(s, hs, Suffix(window, n)) && Spread(s.ctxPool[j].total) > 0
      requires Listed(marks[..], obs0)
      modifies marks
      ensures ActiveOk(V(), a, n) && |a.freq| == 256 && Listed(marks[..], obs) && obs0 <= obs
      ensures forall b: byte :: a.freq[b] > 0 ==> b in obs
    {
      var total := s.ctxPool[j].total;
      var freq;
      freq, obs := CollectFreqs(s.ctxPool[j].first, marks, obs0);
      a := Active(n, total, Unobserved(luts, n, total), freq);
    }

    static method LargestL(ev: seq<Evidence>) returns (m: nat)
      ensures m == MaxL(ev)
    {
      m := 0;
      for i := 0 to |ev|
        invariant m == MaxL(ev[..i])
      {
        assert ev[..i + 1][..i] == ev[..i];
        if i == 0 || ev[i].l > m {
          m := ev[i].l;
        }
      }
      assert ev[..|ev|] == ev;
    }

    /** Largest log-weight first, then the weighted mean relative to it. */
    method MeanOf(ev: seq<Evidence>) returns (has: bool, mean: nat)
      requires GoodLuts(luts) && |ev| <= 8 && Weighted(luts, ev, MaxL(ev)) < TWO63
      ensures has == HasMean(luts, ev) && mean == Mean(luts, ev)
    {
      var m := LargestL(ev);
      var num: int64, den: int64 := 0, 0;
      hide Exp2W, GoodLuts;
      for i := 0 to |ev|
        invariant den == Weights(luts, ev[..i], m) && num == Weighted(luts, ev[..i], m)
      {
        num, den := AddTerm(ev, m, i, num, den);
      }
      assert ev[..|ev|] == ev;
      has := den > 0;
      mean := 0;
      if den > 0 {
        DivNat(num, den);
        mean := num / den;
      }
    }

    method AddTerm(ev: seq<Evidence>, m: nat, i: nat, num0: int64, den0: int64) returns (num: int64, den: int64)
      requires GoodLuts(luts) && i < |ev| <= 8 && (forall j :: 0 <= j < |ev| ==> ev[j].l <= m)
      requires Weighted(luts, ev, m) < TWO63
      requires den0 == Weights(luts, ev[..i], m) && num0 == Weighted(luts, ev[..i], m)
      ensures den == Weights(luts, ev[..i + 1], m) && num == Weighted(luts, ev[..i + 1], m)
    {
      TermFits(luts, ev, m, i);
      WeightedStep(luts, ev, m, i);
      hide *;
      var w: int64 := Exp2W(luts, ev[i].l - m);
      var term: int64 := w * ev[i].p;
      num, den := num0 + term, den0 + w;
    }

    /** The default share goes to all bytes. */
    method AddToAll(s0: int64, w0: int64)
      requires ws.Length == wt.Length == 256 && ws != wt
      requires 0 <= s0 <= SHARE_MAX && 0 <= w0 <= 435 && Roomy(ws[..], ROOM) && Roomy(wt[..], ROOM)
      modifies ws, wt
      ensures forall b: byte :: ws[b] == old(ws[b]) + s0 && wt[b] == old(wt[b]) + w0
      ensures Roomy(ws[..], 2 * ROOM) && Roomy(wt[..], 2 * ROOM)
    {
      assert forall b: byte :: ws[..][b] == ws[b] && wt[..][b] == wt[b];
      for b := 0 to 256
        invariant forall c: byte :: ws[c] == old(ws[c]) + (if c < b then s0 else 0)
        invariant forall c: byte :: wt[c] == old(wt[c]) + (if c < b then w0 else 0)
      {
        ws[b] := ws[b] + s0;
        wt[b] := wt[b] + w0;
      }
    }

    /** For each observed byte the default share is taken back and its own share added. */
    method SwapObserved(act: seq<Active>, obs: seq<byte>, weight: nat, base: (nat, nat))
      requires ws.Length == wt.Length == 256 && ws != wt
      requires ActsFit(luts, act) && weight <= 435 && base.0 <= SHARE_MAX && base.1 <= 435
      requires Roomy(ws[..], 2 * ROOM) && Roomy(wt[..], 2 * ROOM)
      requires forall i, j :: 0 <= i < j < |obs| ==> obs[i] != obs[j]
      modifies ws, wt
      ensures forall b: byte :: b in obs ==>
                var sh := Share(luts, weight, ByteEv(luts, act, b));
                ws[b] == old(ws[b]) - base.0 + sh.0 && wt[b] == old(wt[b]) - base.1 + sh.1
      ensures forall b: byte :: b !in obs ==> ws[b] == old(ws[b]) && wt[b] == old(wt[b])
    {
      assert forall b: byte :: ws[..][b] == ws[b] && wt[..][b] == wt[b];
      hide Share, ByteEv, WellCollected, ActsFit;
      for oi := 0 to |obs|
        invariant forall b: byte :: b in obs[..oi] ==>
                    var sh := Share(luts, weight, ByteEv(luts, act, b));
                    ws[b] == old(ws[b]) - base.0 + sh.0 && wt[b] == old(wt[b]) - base.1 + sh.1
        invariant forall b: byte :: b !in obs[..oi] ==> ws[b] == old(ws[b]) && wt[b] == old(wt[b])
      {
        var b := obs[oi];
        assert b !in obs[..oi];
        assert obs[..oi + 1] == obs[..oi] + [b];
        var share := ByteShare(act, b, weight);
        ws[b] := ws[b] - base.0 + share.0;
        wt[b] := wt[b] - base.1 + share.1;
      }
      assert obs[..|obs|] == obs;
    }

    method ByteShare(act: seq<Active>, b: byte, weight: nat) returns (share: (nat, nat))
      requires ActsFit(luts, act) && weight <= 435
      ensures share == Share(luts, weight, ByteEv(luts, act, b)) && share.0 <= SHARE_MAX && share.1 <= 435
    {
      var ev := seq(|act|, i requires 0 <= i < |act| => ActiveEvidence(luts, act[i], b));
      assert ev == ByteEv(luts, act, b);
      share := EvidenceShare(ev, weight);
    }

    method EvidenceShare(ev: seq<Evidence>, weight: nat) returns (share: (nat, nat))
      requires GoodLuts(luts) && |ev| <= 8 && Weighted(luts, ev, MaxL(ev)) < TWO63 && weight <= 435
      ensures share == Share(luts, weight, ev) && share.0 <= SHARE_MAX && share.1 <= 435
    {
      var has, mean := MeanOf(ev);
      ShareBound(luts, weight, ev);
      MulMono(weight, 435, MEAN_MAX);
      hide *;
      hide Mean, HasMean;
      if has {
        var sum: int64 := weight * mean;
        share := (sum, weight);
      } else {
        share := (0, 0);
      }
    }

    /** Gives every byte the default share of the level and swaps it out for the observed bytes. */
    method ApplyLevel(act: seq<Active>, obs: seq<byte>, weight: nat)
      requires ws.Length == wt.Length == 256 && ws != wt
      requires ActsFit(luts, act) && weight <= 435 && Roomy(ws[..], ROOM) && Roomy(wt[..], ROOM)
      requires forall i, j :: 0 <= i < j < |obs| ==> obs[i] != obs[j]
      requires forall b: byte :: b !in obs ==> ByteEv(luts, act, b) == BaseEv(act)
      modifies ws, wt
      ensures Applied(luts, act, weight, old(ws[..]), old(wt[..]), ws[..], wt[..])
    {
      if |act| == 0 {
        assert forall b: byte :: ByteEv(luts, act, b) == [];
        ShareOfNothing(luts, weight);
        return;
      }
      BaseFits(luts, act);
      hide Share, ByteEv, WellCollected, ActsFit, Weighted, Roomy;
      var base := EvidenceShare(BaseEv(act), weight);
      AddToAll(base.0, base.1);
      SwapObserved(act, obs, weight, base);
    }

    /** One level: collect, then apply. */
    method AddLevel(k: nat)
      requires Valid() && GoodView(V()) && k < |LEVELS|
      requires SumsAre(V(), k, ws[..], wt[..])
      modifies ws, wt
      ensures SumsAre(V(), k + 1, ws[..], wt[..])
    {
      ghost var ws0, wt0 := ws[..], wt[..];
      LevelIsDefined(V(), k);
      LevelShape(k);
      hide GoodView, LevelDefined, SumsAre, ActivesOk, Covered, LevelShare, Share, ByteEv, BaseEv, WellCollected,
           ActsFit, Applied;
      var act, obs := CollectLevel(LEVELS[k]);
      LevelEvidence(V(), k, act, obs);
      SumsRoomy(V(), k, ws0, wt0);
      ApplyLevel(act, obs, LEVELS[k].weight);
      LevelIsApplied(V(), k, act, obs, ws0, wt0, ws[..], wt[..]);
    }

    /** The table for the current window. */
    method Distribution(scale: nat) returns (cum: seq<nat>)
      requires Valid() && Defined(V()) && scale <= SCALE_MAX
      modifies ws, wt, probs
      ensures cum == SimpleTable(V(), scale)
    {
      ghost var v := V();
      if |window| == 0 {
        for b := 0 to 256
          invariant forall c :: 0 <= c < b ==> probs[c] == SimpleProb(v, c)
        {
          probs[b] := PSCALE / 256;
        }
      } else {
        BlendAll();
      }
      assert probs[..] == SimpleProbs(v);
      cum := TableOf(probs[..], scale);
    }

    method BlendAll()
      requires Valid() && GoodView(V()) && |window| > 0
      modifies ws, wt, probs
      ensures forall b: byte :: probs[b] == SimpleProb(V(), b)
    {
      for b := 0 to 256
        invariant forall c :: 0 <= c < b ==> ws[c] == 0 && wt[c] == 0
      {
        ws[b] := 0;
        wt[b] := 0;
      }
      AddLevels();
      SetProbs();
    }

    method AddLevels()
      requires Valid() && GoodView(V())
      requires forall b: byte :: ws[b] == 0 && wt[b] == 0
      modifies ws, wt
      ensures SumsAre(V(), |LEVELS|, ws[..], wt[..])
    {
      for k := 0 to |LEVELS|
        invariant SumsAre(V(), k, ws[..], wt[..])
      {
        AddLevel(k);
      }
    }

    method SetProbs()
      requires Valid() && GoodView(V()) && |window| > 0
      requires SumsAre(V(), |LEVELS|, ws[..], wt[..])
      modifies probs
      ensures forall b: byte :: probs[b] == SimpleProb(V(), b)
    {
      ghost var v := V();
      hide Blend, ProbOf, SumsAre, SimpleProb, GoodView;
      for b := 0 to 256
        invariant forall c: byte :: c < b ==> probs[c] == SimpleProb(v, c)
      {
        ProbAt(v, ws[..], wt[..], b);
        probs[b] := ProbOf(ws[b], wt[b]);
      }
    }
  }

  /** Scales for which every product of the last loop fits 64 bits and the running total 32. */
  const SCALE_MAX := 0x80_0000

  lemma WidthFits(p: seq<nat>, b: byte, scale: nat)
    requires |p| == 256 && (forall c :: 0 <= c < 256 ==> 1 <= p[c] <= PSCALE) && scale <= SCALE_MAX
    ensures Total(p) > 0 && 1000 * Total(p) < TWO63 && 950 * scale * p[b] < TWO63
    ensures Width(p[b], Total(p), scale) <= 0x80_1000
  {
    TotalAtLeast(p);
    TermAtMost(p, b);
    ShareAtMost(p[b], Total(p), scale);
  }

  lemma ShareAtMost(x: nat, sum: nat, scale: nat)
    requires 0 < sum && x <= sum && x <= PSCALE && scale <= SCALE_MAX
    ensures 950 * scale * x < TWO63 && Width(x, sum, scale) <= 0x80_1000
  {
    MulMono2(950 * scale, 950 * SCALE_MAX, x, PSCALE);
    MulMono2(950 * scale, 1000 * SCALE_MAX, x, sum);
    assert 1000 * SCALE_MAX * sum == SCALE_MAX * (1000 * sum);
    assert SCALE_MAX * (1000 * sum) < (SCALE_MAX + 1) * (1000 * sum);
    DivBelow(SCALE_MAX + 1, 950 * scale * x, 1000 * sum);
  }

  lemma {:induction false} TermAtMost(p: seq<nat>, b: nat)
    requires b < |p|
    ensures p[b] <= Total(p)
  {
    if b < |p| - 1 {
      TermAtMost(p[..|p| - 1], b);
    }
  }

  /** Sums the probabilities and accumulates the widths. */
  method TableOf(p: seq<nat>, scale: nat) returns (cum: seq<nat>)
    requires |p| == 256 && (forall b :: 0 <= b < 256 ==> 1 <= p[b] <= PSCALE) && scale <= SCALE_MAX
    ensures Total(p) > 0 && cum == Cumulative(Widths(p, scale))
  {
    TotalAtLeast(p);
    var sum: int64 := 0;
    for b := 0 to 256
      invariant sum == Total(p[..b]) <= b * PSCALE
    {
      assert p[..b + 1][..b] == p[..b];
      sum := sum + p[b];
    }
    assert p[..256] == p;
    var acc: uint32 := 0;
    cum := [];
    ghost var w := Widths(p, scale);
    for b := 0 to 256
      invariant |cum| == b && acc == Total(w[..b]) <= b * 0x80_1000
      invariant forall c :: 0 <= c < b ==> cum[c] == Total(w[..c])
    {
      assert w[..b + 1][..b] == w[..b];
      WidthFits(p, b, scale);
      cum := cum + [acc];
      acc := acc + Width(p[b], sum, scale);
    }
    cum := cum + [acc];
    assert w[..256] == w;
  }

  // ----- room in the 64-bit sums -----

  const SHARE_MAX := 435 * MEAN_MAX
  const ROOM := 0x1000_0000_0000_0000

  predicate Roomy(sums: seq<int>, top: nat) {
    |sums| == 256 && forall b: byte :: 0 <= sums[b] <= top
  }

  lemma SumsRoomy(v: View, k: nat, ws: seq<int>, wt: seq<int>)
    requires GoodView(v) && k < |LEVELS| && SumsAre(v, k, ws, wt)
    ensures Roomy(ws, ROOM) && Roomy(wt, ROOM)
  {
    hide GoodView, Blend;
    LevelShape(k);
    forall b: byte
      ensures 0 <= ws[b] <= ROOM && 0 <= wt[b] <= ROOM
    {
      BlendBound(v, b, k);
    }
  }

  /** The i-th weight, its product and the sums up to it stay in range. */
  lemma TermFits(t: Luts, ev: seq<Evidence>, m: nat, i: nat)
    requires GoodLuts(t) && i < |ev| <= 8 && (forall j :: 0 <= j < |ev| ==> ev[j].l <= m) && Weighted(t, ev, m) < TWO63
    ensures var w := Exp2W(t, ev[i].l - m);
      && w < TWO63 && w * ev[i].p < TWO63
      && Weighted(t, ev[..i], m) + w * ev[i].p < TWO63 && Weights(t, ev[..i], m) + w < TWO63
  {
    Exp2WRange(t, ev[i].l - m);
    WeightsAtMost(t, ev[..i], m);
    PrefixAtMost(t, ev, m, i + 1);
    assert ev[..i + 1][..i] == ev[..i];
  }

  lemma WeightedStep(t: Luts, ev: seq<Evidence>, m: nat, i: nat)
    requires Shaped(t) && i < |ev| && forall j :: 0 <= j < |ev| ==> ev[j].l <= m
    ensures Weights(t, ev[..i + 1], m) == Weights(t, ev[..i], m) + Exp2W(t, ev[i].l - m)
    ensures Weighted(t, ev[..i + 1], m) == Weighted(t, ev[..i], m) + Exp2W(t, ev[i].l - m) * ev[i].p
  {
    assert ev[..i + 1][..i] == ev[..i];
  }

  lemma {:induction false} WeightsAtMost(t: Luts, ev: seq<Evidence>, m: nat)
    requires GoodLuts(t) && forall j :: 0 <= j < |ev| ==> ev[j].l <= m
    ensures Weights(t, ev, m) <= |ev| * WSCALE
  {
    if ev != [] {
      WeightsAtMost(t, ev[..|ev| - 1], m);
      Exp2WRange(t, ev[|ev| - 1].l - m);
    }
  }

  lemma {:induction false} PrefixAtMost(t: Luts, ev: seq<Evidence>, m: nat, i: nat)
    requires Shaped(t) && i <= |ev| && forall j :: 0 <= j < |ev| ==> ev[j].l <= m
    ensures Weighted(t, ev[..i], m) <= Weighted(t, ev, m)
    decreases |ev|
  {
    if i < |ev| {
      PrefixAtMost(t, ev[..|ev| - 1], m, i);
      assert ev[..|ev| - 1][..i] == ev[..i];
      MulMono2(0, Exp2W(t, ev[|ev| - 1].l - m), 0, ev[|ev| - 1].p);
    } else {
      assert ev[..i] == ev;
    }
  }

  // ----- the hoisted evidence is the evidence -----

  predicate ActiveFits(t: Luts, a: Active, b: byte) {
    a.n <= MAX_DEPTH && |a.freq| == 256 && CountsFit(t, a.total, a.freq[b])
  }

  ghost predicate WellCollected(t: Luts, a: Active) {
    && |a.freq| == 256 && a.base.p <= PSCALE
    && forall b: byte :: ActiveFits(t, a, b)
  }

  /** The collected contexts of a level: their counts fit, and so does every byte's weighted sum. */
  ghost predicate ActsFit(t: Luts, act: seq<Active>) {
    && GoodLuts(t) && |act| <= 8
    && (forall i :: 0 <= i < |act| ==> WellCollected(t, act[i]))
    && (forall b: byte :: Weighted(t, ByteEv(t, act, b), MaxL(ByteEv(t, act, b))) < TWO63)
  }

  function ActiveEvidence(t: Luts, a: Active, b: byte): Evidence
    requires Shaped(t) && WellCollected(t, a)
  {
    assert ActiveFits(t, a, b);
    if a.freq[b] > 0 then Observed(t, a.n, a.total, a.freq[b]) else a.base
  }

  ghost function ByteEv(t: Luts, act: seq<Active>, b: byte): seq<Evidence>
    requires Shaped(t) && forall i :: 0 <= i < |act| ==> WellCollected(t, act[i])
  {
    seq(|act|, i requires 0 <= i < |act| => ActiveEvidence(t, act[i], b))
  }

  lemma BaseFits(t: Luts, act: seq<Active>)
    requires ActsFit(t, act)
    ensures |BaseEv(act)| == |act| && Weighted(t, BaseEv(act), MaxL(BaseEv(act))) < TWO63
  {
    var ev := BaseEv(act);
    WeightedBound(t, ev, MaxL(ev), PSCALE);
    MulMono2(|ev|, 8, WSCALE, WSCALE);
    MulMono(Weights(t, ev, MaxL(ev)), 8 * WSCALE, PSCALE);
  }

  function BaseEv(act: seq<Active>): seq<Evidence> {
    seq(|act|, i requires 0 <= i < |act| => act[i].base)
  }

  /** The collected contexts give every byte its exact evidence, the default one to unlisted bytes. */
  lemma CollectedEvidence(v: View, lv: Level, act: seq<Active>, obs: seq<byte>, b: byte)
    requires TableView(v) && LevelDefined(v, lv) && ActivesOk(v, act, LevelDepths(v, lv)) && Covered(act, obs)
    ensures forall i :: 0 <= i < |act| ==> WellCollected(v.luts, act[i])
    ensures LevelShare(v, lv, b) == Share(v.luts, lv.weight, ByteEv(v.luts, act, b))
    ensures Weighted(v.luts, ByteEv(v.luts, act, b), MaxL(ByteEv(v.luts, act, b))) < TWO63
    ensures b !in obs ==> ByteEv(v.luts, act, b) == BaseEv(act)
  {
    hide *;
    var d := LevelDepths(v, lv);
    DepthsOfLevelFit(v, lv);
    LevelShareIs(v, lv, b);
    ActivesAre(v, act, d, obs, b);
  }

  lemma ActivesAre(v: View, act: seq<Active>, d: seq<nat>, obs: seq<byte>, b: byte)
    requires TableView(v) && DepthsFit(v, d, b) && (forall i :: 0 <= i < |d| ==> d[i] <= |v.w|)
    requires forall i, x: byte :: 0 <= i < |d| ==> DepthFits(v, d[i], x)
    requires ActivesOk(v, act, d) && Covered(act, obs)
    ensures forall i :: 0 <= i < |act| ==> WellCollected(v.luts, act[i])
    ensures ByteEv(v.luts, act, b) == EvidenceAt(v, d, b)
    ensures b !in obs ==> ByteEv(v.luts, act, b) == BaseEv(act)
  {
    hide GoodLuts, Readable, EvidenceOf, ActiveEvidence, ActiveOk, WellCollected, DepthFits, Covered;
    forall i | 0 <= i < |act|
      ensures WellCollected(v.luts, act[i])
      ensures ActiveEvidence(v.luts, act[i], b) == EvidenceOf(v, d[i], b)
      ensures b !in obs ==> ActiveEvidence(v.luts, act[i], b) == act[i].base
    {
      assert ActiveOk(v, act[i], d[i]);
      ActiveIsEvidence(v, act[i], d[i], b);
      DefaultOf(v, act, obs, i, b);
    }
  }

  lemma LevelShareIs(v: View, lv: Level, b: byte)
    requires TableView(v) && LevelDefined(v, lv)
    ensures DepthsFit(v, LevelDepths(v, lv), b)
    ensures var ev := EvidenceAt(v, LevelDepths(v, lv), b);
      LevelShare(v, lv, b) == Share(v.luts, lv.weight, ev) && Weighted(v.luts, ev, MaxL(ev)) < TWO63
  {
    hide TableView, LevelDepths, DepthsFit, Share, Weighted, MaxL;
    assert ByteDefined(v, LevelDepths(v, lv), b);
  }

  lemma DepthsOfLevelFit(v: View, lv: Level)
    requires TableView(v) && LevelDefined(v, lv)
    ensures forall b: byte :: ByteDefined(v, LevelDepths(v, lv), b)
    ensures forall i, b: byte :: 0 <= i < |LevelDepths(v, lv)| ==> DepthFits(v, LevelDepths(v, lv)[i], b)
  {
    hide TableView, LevelDepths, DepthFits, SumFits;
    forall i, b: byte | 0 <= i < |LevelDepths(v, lv)|
      ensures DepthFits(v, LevelDepths(v, lv)[i], b)
    {
      assert ByteDefined(v, LevelDepths(v, lv), b);
    }
  }

  lemma ActiveIsEvidence(v: View, a: Active, n: nat, b: byte)
    requires TableView(v) && n <= |v.w| && ActiveOk(v, a, n) && forall x: byte :: DepthFits(v, n, x)
    ensures WellCollected(v.luts, a)
    ensures ActiveEvidence(v.luts, a, b) == EvidenceOf(v, n, b)
  {
    hide Readable, GoodLuts, TotalOf, FreqOf, Observed, CountsFit, ConfIndex;
    forall x: byte
      ensures ActiveFits(v.luts, a, x)
    {
      assert DepthFits(v, n, x);
    }
  }

  lemma DefaultOf(v: View, act: seq<Active>, obs: seq<byte>, i: nat, b: byte)
    requires TableView(v) && i < |act| && WellCollected(v.luts, act[i]) && Covered(act, obs)
    ensures b !in obs ==> ActiveEvidence(v.luts, act[i], b) == act[i].base
  {
    hide Readable, GoodLuts, Observed, CountsFit;
  }

  lemma ShareOfNothing(t: Luts, weight: nat)
    requires Shaped(t)
    ensures Share(t, weight, []) == (0, 0)
  {
  }

  /** The sums hold, for every byte, the shares of the first k levels. */
  ghost predicate SumsAre(v: View, k: nat, ws: seq<int>, wt: seq<int>)
    requires GoodView(v) && k <= |LEVELS|
  {
    && |ws| == |wt| == 256
    && forall b: byte :: ws[b] == Blend(v, b, k).0 && wt[b] == Blend(v, b, k).1
  }

  lemma ProbAt(v: View, ws: seq<int>, wt: seq<int>, b: byte)
    requires GoodView(v) && SumsAre(v, |LEVELS|, ws, wt) && |v.w| > 0
    ensures |ws| == |wt| == 256 && ws[b] >= 0 && wt[b] >= 0
    ensures SimpleProb(v, b) == ProbOf(ws[b], wt[b])
  {
    hide Blend, ProbOf;
  }

  /** Every byte got the share of its own evidence. */
  ghost predicate Applied(t: Luts, act: seq<Active>, weight: nat,
                          ws0: seq<int>, wt0: seq<int>, ws: seq<int>, wt: seq<int>)
    requires Shaped(t) && forall i :: 0 <= i < |act| ==> WellCollected(t, act[i])
  {
    && |ws0| == |wt0| == |ws| == |wt| == 256
    && forall b: byte :: ws[b] == ws0[b] + Share(t, weight, ByteEv(t, act, b)).0
                         && wt[b] == wt0[b] + Share(t, weight, ByteEv(t, act, b)).1
  }

  lemma LevelEvidence(v: View, k: nat, act: seq<Active>, obs: seq<byte>)
    requires GoodView(v) && k < |LEVELS|
    requires ActivesOk(v, act, LevelDepths(v, LEVELS[k])) && Covered(act, obs)
    ensures ActsFit(v.luts, act)
    ensures forall b: byte :: b !in obs ==> ByteEv(v.luts, act, b) == BaseEv(act)
  {
    LevelIsDefined(v, k);
    LevelShape(k);
    hide GoodView, Covered, LevelDefined, WellCollected, Weighted, MaxL;
    assert |act| <= 8;
    hide ActivesOk, LevelDepths;
    forall b: byte
      ensures forall i :: 0 <= i < |act| ==> WellCollected(v.luts, act[i])
      ensures Weighted(v.luts, ByteEv(v.luts, act, b), MaxL(ByteEv(v.luts, act, b))) < TWO63
      ensures b !in obs ==> ByteEv(v.luts, act, b) == BaseEv(act)
    {
      CollectedEvidence(v, LEVELS[k], act, obs, b);
    }
    CollectedEvidence(v, LEVELS[k], act, obs, 0);
  }

  /** Applying the collected contexts of level k moves every byte's sums on by one level. */
  lemma LevelIsApplied(v: View, k: nat, act: seq<Active>, obs: seq<byte>,
                       ws0: seq<int>, wt0: seq<int>, ws: seq<int>, wt: seq<int>)
    requires GoodView(v) && k < |LEVELS|
    requires ActivesOk(v, act, LevelDepths(v, LEVELS[k])) && Covered(act, obs)
    requires SumsAre(v, k, ws0, wt0) && forall i :: 0 <= i < |act| ==> WellCollected(v.luts, act[i])
    requires Applied(v.luts, act, LEVELS[k].weight, ws0, wt0, ws, wt)
    ensures SumsAre(v, k + 1, ws, wt)
  {
    LevelIsDefined(v, k);
    hide GoodView, LevelDefined, ActivesOk, Covered, LevelShare, Share, ByteEv, BaseEv, WellCollected, Blend;
    forall b: byte
      ensures ws[b] == Blend(v, b, k + 1).0 && wt[b] == Blend(v, b, k + 1).1
    {
      CollectedEvidence(v, LEVELS[k], act, obs, b);
      BlendStep(v, b, k);
    }
  }
}
