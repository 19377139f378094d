module FixedLookup {
  // Lookup in tables of fixed capacity: counts are exact or absent, and a context's total is the sum of its chain.

  import opened Words
  import opened Occurrences
  import opened OpenAddressing
  import opened BtTables
  import opened FixedCapacity
  import opened ReaderProbe
  import opened BtSnapshot
  import opened Distribution
  import opened DistributionBounds
  import BtTrain

  // ----- chains -----

  /** The chain of a linked context: its pool indices up to idx, latest first. */
  function LinkedChain(pool: seq<BtEntry>, c: Context, idx: int): (path: seq<nat>)
    requires LinkedFor(pool, c) && -1 <= idx < |pool| && (idx >= 0 ==> pool[idx].ctx == c)
    ensures forall i :: i in path ==> 0 <= i <= idx && pool[i].ctx == c
    decreases idx
  {
    if idx < 0 then []
    else
      assert LinkOk(pool, idx);
      [idx] + LinkedChain(pool, c, pool[idx].ctxNext)
  }

  lemma {:induction false} LinkedChainIsPath(pool: seq<BtEntry>, c: Context, idx: int)
    requires LinkedFor(pool, c) && -1 <= idx < |pool| && (idx >= 0 ==> pool[idx].ctx == c)
    ensures IsPath(pool, idx, LinkedChain(pool, c, idx))
    ensures forall i :: 0 <= i <= idx && pool[i].ctx == c ==> i in LinkedChain(pool, c, idx)
    decreases idx
  {
    if idx >= 0 {
      assert LinkOk(pool, idx);
      LinkedChainIsPath(pool, c, pool[idx].ctxNext);
      assert LinkedChain(pool, c, idx)[1..] == LinkedChain(pool, c, pool[idx].ctxNext);
    }
  }

  /** A reader's walk from a context entry meets exactly the stored pairs of the context. */
  lemma HeadPath(pool: seq<BtEntry>, ctxPool: seq<CtxEntry>, j: nat)
    requires HeadsExact(pool, ctxPool) && j < |ctxPool|
    ensures Walkable(pool, ctxPool[j].first)
    ensures forall i :: 0 <= i < |pool| ==> (i in PathOf(pool, ctxPool[j].first) <==> pool[i].ctx == ctxPool[j].ctx)
  {
    var c, first := ctxPool[j].ctx, ctxPool[j].first;
    assert HeadOk(pool, ctxPool[j]) && LinkedFor(pool, c);
    LinkedChainIsPath(pool, c, first);
    PathUnique(pool, first, LinkedChain(pool, c, first), PathOf(pool, first));
  }

  lemma FixedIsReadable(s: Snapshot, hs: BtTrain.Hashes, seen: seq<Update>, poolCap: nat, ctxCap: nat)
    requires TrainedFixed(s, hs, seen, poolCap, ctxCap)
    ensures Readable(s)
  {
    var pos :| Indexed(s.ctxSlot, CtxKeys(s.ctxPool), hs.ctx, pos);
    EmptyExists(s.ctxSlot, CtxKeys(s.ctxPool), hs.ctx, pos);
    hide HeadsExact, PairsExact, SumsExact;
    forall j | 0 <= j < |s.ctxPool|
      ensures Walkable(s.pool, s.ctxPool[j].first)
    {
      HeadPath(s.pool, s.ctxPool, j);
    }
  }

  /** The validator accepts the tables of a build of fixed capacity too. */
  lemma FixedIsAcceptable(s: Snapshot, hs: BtTrain.Hashes, seen: seq<Update>, poolCap: nat, ctxCap: nat,
                          build: Signature)
    requires TrainedFixed(s, hs, seen, poolCap, ctxCap)
    ensures Acceptable(s, build, build)
  {
    FixedIsReadable(s, hs, seen, poolCap, ctxCap);
    TrainedLookupsEnd(s, hs, []);
    assert forall x :: 0 <= x < |s.ctxSlot| ==> s.ctxSlot[x] < |CtxKeys(s.ctxPool)|;
    FixedFieldsOk(s, seen);
    FixedChainsApart(s);
    hide PairsExact, HeadsExact, SumsExact, FieldsOk;
  }

  lemma FixedFieldsOk(s: Snapshot, seen: seq<Update>)
    requires PairsExact(s.pool, seen) && HeadsExact(s.pool, s.ctxPool)
    ensures FieldsOk(s)
  {
    forall j | 0 <= j < |s.ctxPool|
      ensures |s.ctxPool[j].ctx| <= MAX_DEPTH && s.ctxPool[j].first < |s.pool|
    {
      assert HeadOk(s.pool, s.ctxPool[j]);
    }
  }

  lemma FixedChainsApart(s: Snapshot)
    requires HeadsExact(s.pool, s.ctxPool) && forall j :: 0 <= j < |s.ctxPool| ==> Walkable(s.pool, s.ctxPool[j].first)
    ensures exists paths :: |paths| == |s.ctxPool| && ChainsApart(s, paths)
  {
    var paths := seq(|s.ctxPool|, j requires 0 <= j < |s.ctxPool| => PathOf(s.pool, s.ctxPool[j].first));
    forall j, k, i | 0 <= j < k < |paths| && i in paths[k]
      ensures i !in paths[j]
    {
      assert s.ctxPool[j].ctx != s.ctxPool[k].ctx;
      hide HeadsExact;
      HeadPath(s.pool, s.ctxPool, j);
      HeadPath(s.pool, s.ctxPool, k);
    }
    assert ChainsApart(s, paths);
  }

  // ----- one count -----

  /** The count of one pair: its entry's, or 0 when it has none. */
  function PairFreq(pool: seq<BtEntry>, c: Context, b: byte): nat {
    if pool == [] then 0
    else
      PairFreq(pool[..|pool| - 1], c, b)
      + (if PairKey(pool[|pool| - 1]) == Update(c, b) then pool[|pool| - 1].freq else 0)
  }

  lemma {:induction false} NoPairFreq(pool: seq<BtEntry>, c: Context, b: byte)
    requires forall i :: 0 <= i < |pool| ==> PairKey(pool[i]) != Update(c, b)
    ensures PairFreq(pool, c, b) == 0
  {
    if pool != [] {
      NoPairFreq(pool[..|pool| - 1], c, b);
    }
  }

  lemma {:induction false} OnePairFreq(pool: seq<BtEntry>, c: Context, b: byte, i: nat)
    requires i < |pool| && PairKey(pool[i]) == Update(c, b)
    requires forall k :: 0 <= k < |pool| && k != i ==> PairKey(pool[k]) != Update(c, b)
    ensures PairFreq(pool, c, b) == pool[i].freq
  {
    var n := |pool| - 1;
    if i < n {
      OnePairFreq(pool[..n], c, b, i);
    } else {
      NoPairFreq(pool[..n], c, b);
    }
  }

  /** The count that a walk records is the pair's own. */
  lemma WalkIsPairFreq(pool: seq<BtEntry>, seen: seq<Update>, path: seq<nat>, c: Context, b: byte)
    requires PairsExact(pool, seen) && forall t :: 0 <= t < |path| ==> path[t] < |pool|
    requires forall i :: 0 <= i < |pool| ==> (i in path <==> pool[i].ctx == c)
    requires forall t :: 0 <= t < |path| ==> pool[path[t]].ctx == c
    ensures WalkFreq(pool, path, b) == PairFreq(pool, c, b)
    ensures PairFreq(pool, c, b) == if Update(c, b) in PairKeys(pool) then Count(seen, c, b) else 0
  {
    if i: nat :| i < |pool| && PairKeys(pool)[i] == Update(c, b) {
      assert PairKey(pool[i]) == Update(c, b);
      OnlyPair(pool, seen, i);
      hide *;
      OnePairFreq(pool, c, b, i);
      WalkOfStored(pool, path, c, b, i);
    } else {
      WalkOfMissing(pool, path, c, b);
    }
  }

  lemma WalkOfMissing(pool: seq<BtEntry>, path: seq<nat>, c: Context, b: byte)
    requires Update(c, b) !in PairKeys(pool)
    requires forall t :: 0 <= t < |path| ==> path[t] < |pool| && pool[path[t]].ctx == c
    ensures WalkFreq(pool, path, b) == PairFreq(pool, c, b) == 0
  {
    assert forall i :: 0 <= i < |pool| ==> PairKeys(pool)[i] == PairKey(pool[i]);
    NoPairFreq(pool, c, b);
    WalkFreqNone(pool, path, b);
  }

  lemma WalkOfStored(pool: seq<BtEntry>, path: seq<nat>, c: Context, b: byte, i: nat)
    requires i < |pool| && i in path && PairKey(pool[i]) == Update(c, b)
    requires forall t :: 0 <= t < |path| ==> path[t] < |pool| && pool[path[t]].ctx == c
    requires forall k :: 0 <= k < |pool| && k != i ==> PairKey(pool[k]) != PairKey(pool[i])
    ensures WalkFreq(pool, path, b) == pool[i].freq
  {
    var s :| 0 <= s < |path| && path[s] == i;
    forall t | 0 <= t < |path| && pool[path[t]].next == b
      ensures path[t] == path[s]
    {
      assert PairKey(pool[path[t]]) == PairKey(pool[i]);
    }
    WalkFreqOf(pool, path, b, s);
  }

  lemma OnlyPair(pool: seq<BtEntry>, seen: seq<Update>, i: nat)
    requires PairsExact(pool, seen) && i < |pool|
    ensures pool[i].freq == Count(seen, pool[i].ctx, pool[i].next)
    ensures forall k :: 0 <= k < |pool| && k != i ==> PairKey(pool[k]) != PairKey(pool[i])
  {
    forall k | 0 <= k < |pool| && k != i
      ensures PairKey(pool[k]) != PairKey(pool[i])
    {
      assert k < i ==> PairKey(pool[k]) != PairKey(pool[i]);
      assert i < k ==> PairKey(pool[i]) != PairKey(pool[k]);
    }
  }

  // ----- the sum over the bytes -----

  function PairFreqs(pool: seq<BtEntry>, c: Context, k: nat): nat
    requires k <= 256
  {
    if k == 0 then 0 else PairFreqs(pool, c, k - 1) + PairFreq(pool, c, k - 1)
  }

  lemma {:induction false} PairFreqsAppend(pool: seq<BtEntry>, e: BtEntry, c: Context, k: nat)
    requires k <= 256
    ensures PairFreqs(pool + [e], c, k) == PairFreqs(pool, c, k) + (if e.ctx == c && e.next < k then e.freq else 0)
  {
    if k > 0 {
      PairFreqsAppend(pool, e, c, k - 1);
      assert (pool + [e])[..|pool|] == pool;
    }
  }

  lemma {:induction false} PairFreqsOfNone(c: Context, k: nat)
    requires k <= 256
    ensures PairFreqs([], c, k) == 0
  {
    if k > 0 {
      PairFreqsOfNone(c, k - 1);
    }
  }

  lemma {:induction false} FreqSumIsPairFreqs(pool: seq<BtEntry>, c: Context)
    ensures FreqSum(pool, c) == PairFreqs(pool, c, 256)
  {
    if pool == [] {
      PairFreqsOfNone(c, 256);
    } else {
      var front, e := pool[..|pool| - 1], pool[|pool| - 1];
      FreqSumIsPairFreqs(front, c);
      PairFreqsAppend(front, e, c, 256);
      assert front + [e] == pool;
    }
  }

  lemma {:induction false} PairFreqAtMost(pool: seq<BtEntry>, c: Context, b: byte, k: nat)
    requires b < k <= 256
    ensures PairFreq(pool, c, b) <= PairFreqs(pool, c, k)
  {
    if b < k - 1 {
      PairFreqAtMost(pool, c, b, k - 1);
    }
  }

  // ----- lookup -----

  /**
   * Whatever full pools have refused, a lookup finds for every byte its exact count or none at all, and
   * the total of a context is the sum of what its chain holds.
   */
  lemma FixedCounts(s: Snapshot, hs: BtTrain.Hashes, seen: seq<Update>, poolCap: nat, ctxCap: nat, c: Context, b: byte)
    requires TrainedFixed(s, hs, seen, poolCap, ctxCap)
    ensures Readable(s) && LookupEnds(s, hs, c)
    ensures FreqOf(s, hs, c, b)
         == if c in CtxKeys(s.ctxPool) && Update(c, b) in PairKeys(s.pool) then Count(seen, c, b) else 0
    ensures TotalOf(s, hs, c) == if c in CtxKeys(s.ctxPool) then PairFreqs(s.pool, c, 256) else 0
    ensures c in CtxKeys(s.ctxPool) ==> FreqOf(s, hs, c, b) == PairFreq(s.pool, c, b)
  {
    FixedIsReadable(s, hs, seen, poolCap, ctxCap);
    TrainedLookupsEnd(s, hs, c);
    assert Reached(s.ctxSlot) == s.ctxSlot;
    var keys := CtxKeys(s.ctxPool);
    var pos :| Indexed(s.ctxSlot, keys, hs.ctx, pos);
    FindIsFirst(s.ctxSlot, keys, hs.ctx, pos, c);
    hide Indexed, HeadsExact, PairsExact, WalkFreq, Find;
    if c in keys {
      var j := Find(s.ctxSlot, keys, hs.ctx, c);
      assert keys[j] == s.ctxPool[j].ctx == c;
      assert EntryOf(s, hs, c) == j;
      HeadPath(s.pool, s.ctxPool, j);
      assert forall t :: 0 <= t < |PathOf(s.pool, s.ctxPool[j].first)| ==>
          PathOf(s.pool, s.ctxPool[j].first)[t] in PathOf(s.pool, s.ctxPool[j].first);
      WalkIsPairFreq(s.pool, seen, PathOf(s.pool, s.ctxPool[j].first), c, b);
      FreqSumIsPairFreqs(s.pool, c);
    } else {
      assert EntryOf(s, hs, c) == -1;
    }
  }

  /** So every distribution of such tables is defined too, as long as no counter came near its end. */
  lemma FixedDefined(v: View, seen: seq<Update>, poolCap: nat, ctxCap: nat)
    requires TableView(v) && TrainedFixed(v.s, v.hs, seen, poolCap, ctxCap)
    requires forall c :: TotalOf(v.s, v.hs, c) < TWO32 - 256
    ensures GoodView(v)
  {
    assert Readable(v.s);
    hide TableView, TrainedFixed, GoodView, Defined, TotalOf, FreqOf, LookupEnds;
    forall n: nat | 1 <= n <= |v.w|
      ensures LookupEnds(v.s, v.hs, Suffix(v.w, n))
    {
      FixedCounts(v.s, v.hs, seen, poolCap, ctxCap, Suffix(v.w, n), 0);
    }
    forall n, b: byte | 0 <= n <= |v.w| && TotalOf(v.s, v.hs, Suffix(v.w, n)) > 0
      ensures Modest(TotalOf(v.s, v.hs, Suffix(v.w, n)), FreqOf(v.s, v.hs, Suffix(v.w, n), b))
    {
      FixedCounts(v.s, v.hs, seen, poolCap, ctxCap, Suffix(v.w, n), b);
      PairFreqAtMost(v.s.pool, Suffix(v.w, n), b, 256);
    }
    ModestDefined(v);
    GoodIf(v);
  }
}
