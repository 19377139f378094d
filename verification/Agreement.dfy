/** Two trained models of the same text agree on every table, whatever their hash functions and capacities. */
module Agreement {
  import opened Words
  import opened Occurrences
  import opened BtSnapshot
  import opened Distribution
  import opened DistributionBounds
  import BtTrain

  /** Two views of the same window whose tables give the same counts for every context of it. */
  ghost predicate SameCounts(a: View, b: View) {
    && TableView(a) && TableView(b) && GoodView(a) && GoodView(b) && a.luts == b.luts && a.w == b.w
    && (forall n :: 0 <= n <= |a.w| ==> SameAt(a, b, n))
  }

  ghost predicate SameAt(a: View, b: View, n: nat)
    requires TableView(a) && TableView(b) && a.w == b.w && n <= |a.w|
  {
    && TotalOf(a.s, a.hs, Suffix(a.w, n)) == TotalOf(b.s, b.hs, Suffix(a.w, n))
    && forall x: byte :: FreqOf(a.s, a.hs, Suffix(a.w, n), x) == FreqOf(b.s, b.hs, Suffix(a.w, n), x)
  }

  lemma {:induction false} DepthsAgree(a: View, b: View, n: nat, dmin: nat)
    requires SameCounts(a, b) && n <= |a.w|
    ensures Depths(a, n, dmin) == Depths(b, n, dmin)
    decreases n
  {
    hide *;
    SameTotal(a, b, n);
    DepthsUnfold(a, n, dmin);
    DepthsUnfold(b, n, dmin);
    if n >= dmin && n > 0 {
      DepthsAgree(a, b, n - 1, dmin);
    }
  }

  lemma SameTotal(a: View, b: View, n: nat)
    requires SameCounts(a, b) && n <= |a.w|
    ensures TableView(a) && TableView(b) && Readable(a.s) && Readable(b.s) && a.w == b.w
    ensures TotalOf(a.s, a.hs, Suffix(a.w, n)) == TotalOf(b.s, b.hs, Suffix(b.w, n))
  {
    assert SameAt(a, b, n);
    hide GoodView, TotalOf, FreqOf;
  }

  lemma DepthsUnfold(v: View, n: nat, dmin: nat)
    requires TableView(v) && Readable(v.s) && n <= |v.w|
    ensures Depths(v, n, dmin)
         == if n < dmin then []
            else (if TotalOf(v.s, v.hs, Suffix(v.w, n)) > 0 then [n] else [])
                 + (if n == 0 then [] else Depths(v, n - 1, dmin))
  {
    hide TableView, TotalOf;
  }

  lemma EvidenceAgrees(a: View, b: View, d: seq<nat>, x: byte)
    requires SameCounts(a, b) && DepthsFit(a, d, x) && DepthsFit(b, d, x)
    ensures EvidenceAt(a, d, x) == EvidenceAt(b, d, x)
  {
    hide EvidenceFor, TotalOf, FreqOf, CountsFit, GoodView, TableView;
    forall i | 0 <= i < |d|
      ensures EvidenceAt(a, d, x)[i] == EvidenceAt(b, d, x)[i]
    {
      assert SameAt(a, b, d[i]);
    }
  }

  lemma LevelAgrees(a: View, b: View, lv: Level, x: byte)
    requires SameCounts(a, b) && LevelDefined(a, lv) && LevelDefined(b, lv)
    ensures LevelShare(a, lv, x) == LevelShare(b, lv, x)
  {
    DepthsAgree(a, b, if |a.w| < lv.dmax then |a.w| else lv.dmax, lv.dmin);
    hide Depths, EvidenceAt, Share, TotalOf, GoodView, TableView, SumFits, DepthsFit;
    assert ByteDefined(a, LevelDepths(a, lv), x) && ByteDefined(b, LevelDepths(b, lv), x);
    EvidenceAgrees(a, b, LevelDepths(a, lv), x);
  }

  lemma {:induction false} BlendAgrees(a: View, b: View, x: byte, k: nat)
    requires SameCounts(a, b) && k <= |LEVELS|
    ensures Blend(a, x, k) == Blend(b, x, k)
  {
    hide *;
    if k == 0 {
      BothGood(a, b);
      NoLevels(a, b, x);
    } else {
      BlendAgrees(a, b, x, k - 1);
      OneMoreLevel(a, b, x, k - 1);
    }
  }

  lemma OneMoreLevel(a: View, b: View, x: byte, k: nat)
    requires SameCounts(a, b) && k < |LEVELS| && Blend(a, x, k) == Blend(b, x, k)
    ensures Blend(a, x, k + 1) == Blend(b, x, k + 1)
  {
    hide *;
    BothGood(a, b);
    BlendStep(a, x, k);
    BlendStep(b, x, k);
    LevelIsDefined(a, k);
    LevelIsDefined(b, k);
    LevelAgrees(a, b, LEVELS[k], x);
  }

  lemma BothGood(a: View, b: View)
    requires SameCounts(a, b)
    ensures GoodView(a) && GoodView(b) && TableView(a) && TableView(b)
  {
  }

  lemma NoLevels(a: View, b: View, x: byte)
    requires GoodView(a) && GoodView(b)
    ensures Blend(a, x, 0) == Blend(b, x, 0)
  {
  }

  lemma TableAgrees(a: View, b: View, scale: nat)
    requires SameCounts(a, b)
    ensures SimpleTable(a, scale) == SimpleTable(b, scale)
  {
    var p, q := SimpleProbs(a), SimpleProbs(b);
    forall x: byte
      ensures p[x] == q[x]
    {
      ProbAgrees(a, b, x);
    }
    assert forall i :: 0 <= i < 256 ==> p[i] == q[i];
    assert p == q;
  }

  lemma ProbAgrees(a: View, b: View, x: byte)
    requires SameCounts(a, b)
    ensures SimpleProb(a, x) == SimpleProb(b, x)
  {
    var k := |LEVELS|;
    BlendAgrees(a, b, x, k);
    hide Blend, LEVELS, SameCounts;
  }

  /** Hash functions, growth and rehashing never show in a table. */
  lemma TrainedTablesAgree(s: Snapshot, hs: BtTrain.Hashes, t: Snapshot, ht: BtTrain.Hashes, seen: seq<Update>,
                           luts: Luts, w: seq<byte>, scale: nat)
    requires Trained(s, hs, seen) && Trained(t, ht, seen) && CountersFit(seen) && GoodLuts(luts) && |w| <= MAX_DEPTH
    ensures GoodView(View(s, hs, luts, w)) && GoodView(View(t, ht, luts, w))
    ensures SimpleTable(View(s, hs, luts, w), scale) == SimpleTable(View(t, ht, luts, w), scale)
  {
    hide *;
    TrainedView(s, hs, seen, luts, w);
    TrainedView(t, ht, seen, luts, w);
    TrainedSame(s, hs, t, ht, seen, luts, w);
    TableAgrees(View(s, hs, luts, w), View(t, ht, luts, w), scale);
  }

  lemma TrainedView(s: Snapshot, hs: BtTrain.Hashes, seen: seq<Update>, luts: Luts, w: seq<byte>)
    requires Trained(s, hs, seen) && CountersFit(seen) && GoodLuts(luts) && |w| <= MAX_DEPTH
    ensures GoodView(View(s, hs, luts, w)) && TableView(View(s, hs, luts, w))
  {
    TrainedIsReadable(s, hs, seen);
    hide Trained, Readable, GoodView;
    TrainedDefined(View(s, hs, luts, w), seen);
  }

  lemma TrainedSame(s: Snapshot, hs: BtTrain.Hashes, t: Snapshot, ht: BtTrain.Hashes, seen: seq<Update>,
                    luts: Luts, w: seq<byte>)
    requires Trained(s, hs, seen) && Trained(t, ht, seen)
    requires TableView(View(s, hs, luts, w)) && TableView(View(t, ht, luts, w))
    requires GoodView(View(s, hs, luts, w)) && GoodView(View(t, ht, luts, w))
    ensures SameCounts(View(s, hs, luts, w), View(t, ht, luts, w))
  {
    assert Readable(s) && Readable(t);
    hide Trained, TableView, GoodView, TotalOf, FreqOf;
    forall n | 0 <= n <= |w|
      ensures SameAt(View(s, hs, luts, w), View(t, ht, luts, w), n)
    {
      forall x: byte
        ensures TotalOf(s, hs, Suffix(w, n)) == TotalOf(t, ht, Suffix(w, n))
        ensures FreqOf(s, hs, Suffix(w, n), x) == FreqOf(t, ht, Suffix(w, n), x)
      {
        LookupCounts(s, hs, seen, Suffix(w, n), x);
        LookupCounts(t, ht, seen, Suffix(w, n), x);
      }
      var zero: byte := 0;
      assert FreqOf(s, hs, Suffix(w, n), zero) == FreqOf(t, ht, Suffix(w, n), zero);
    }
  }
}
