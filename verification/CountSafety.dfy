module CountSafety {
  // Which stored counts the distribution can be computed on: an exact condition on the context entries of a prior.

  import opened Words
  import opened Arith
  import opened Occurrences
  import opened OpenAddressing
  import opened ReaderProbe
  import opened BtTables
  import opened BtSnapshot
  import opened Distribution
  import opened DistributionBounds
  import BtTrain

  /** The level that a context of n bytes belongs to. */
  function LevelOf(n: nat): (k: nat)
    requires 1 <= n <= MAX_DEPTH
    ensures k < |LEVELS| && LEVELS[k].dmin <= n <= LEVELS[k].dmax
    ensures forall i :: 0 <= i < |LEVELS| && LEVELS[i].dmin <= n <= LEVELS[i].dmax ==> i == k
  {
    if n <= 2 then 0 else if n <= 4 then 1 else if n <= 8 then 2 else if n <= 12 then 3 else if n <= 16 then 4 else 5
  }

  // ----- the condition on one entry -----

  /** A context entry that a lookup can find, with a total to divide by. */
  ghost predicate Live(s: Snapshot, hs: BtTrain.Hashes, j: nat)
    requires Readable(s)
  {
    && j < |s.ctxPool| && 1 <= |s.ctxPool[j].ctx| <= MAX_DEPTH
    && EntryOf(s, hs, s.ctxPool[j].ctx) == j && s.ctxPool[j].total > 0
  }

  /** The counts of the entry give no zero divisor and no negative index, whatever the byte. */
  ghost predicate EntryFits(s: Snapshot, luts: Luts, j: nat)
    requires Readable(s) && j < |s.ctxPool|
  {
    forall b: byte :: CountsFit(luts, s.ctxPool[j].total, WalkFreq(s.pool, PathOf(s.pool, s.ctxPool[j].first), b))
  }

  /** With the shorter contexts of its level, the entry's weighted probabilities stay below 2^63 for every byte. */
  ghost predicate EntrySumFits(s: Snapshot, hs: BtTrain.Hashes, luts: Luts, j: nat)
    requires Readable(s) && GoodLuts(luts) && Live(s, hs, j)
  {
    var v := View(s, hs, luts, s.ctxPool[j].ctx);
    var d := LevelDepths(v, LEVELS[LevelOf(|v.w|)]);
    forall b: byte :: DepthsFit(v, d, b) ==> SumFits(v, d, b)
  }

  ghost predicate EntrySafe(s: Snapshot, hs: BtTrain.Hashes, luts: Luts, j: nat)
    requires Readable(s) && GoodLuts(luts)
  {
    Live(s, hs, j) ==> EntryFits(s, luts, j) && EntrySumFits(s, hs, luts, j)
  }

  // ----- what lookups find -----

  lemma {:induction false} ProbeHit(slots: seq<int>, keys: seq<Context>, k: Context, h: nat, n: nat)
    requires h < |slots| && InRange(slots, keys)
    ensures var i := Probe(slots, keys, k, h, n); i >= 0 ==> i < |keys| && keys[i] == k
    decreases n
  {
    if n > 0 && slots[h] >= 0 && keys[slots[h]] != k {
      ProbeHit(slots, keys, k, Next(h, |slots|), n - 1);
    }
  }

  lemma EntryHasContext(s: Snapshot, hs: BtTrain.Hashes, c: Context)
    requires Readable(s)
    ensures var j := EntryOf(s, hs, c); j >= 0 ==> s.ctxPool[j].ctx == c
  {
    var slots := Reached(s.ctxSlot);
    ProbeHit(slots, CtxKeys(s.ctxPool), c, Home(hs.ctx, c, |slots|), |slots|);
  }

  /** A known context is the context of a live entry, which holds its counts. */
  lemma KnownIsLive(s: Snapshot, hs: BtTrain.Hashes, luts: Luts, c: Context)
    requires Readable(s) && 1 <= |c| <= MAX_DEPTH && TotalOf(s, hs, c) > 0
    ensures var j := EntryOf(s, hs, c);
      && 0 <= j < |s.ctxPool| && s.ctxPool[j].ctx == c && Live(s, hs, j)
      && (EntryFits(s, luts, j) <==> forall b: byte :: CountsFit(luts, TotalOf(s, hs, c), FreqOf(s, hs, c, b)))
  {
    EntryHasContext(s, hs, c);
    hide Readable, CountsFit, EntryOf;
    var j := EntryOf(s, hs, c);
    assert forall b: byte :: FreqOf(s, hs, c, b) == WalkFreq(s.pool, PathOf(s.pool, s.ctxPool[j].first), b);
  }

  // ----- a window is as safe as its longest known context -----

  lemma SuffixOfSuffix(w: seq<byte>, m: nat, n: nat)
    requires n <= m <= |w|
    ensures Suffix(Suffix(w, m), n) == Suffix(w, n)
  {
  }

  /** Below the longest known context the depths are those of a window that is just this context. */
  lemma {:induction false} DepthsOfSuffix(v: View, m: nat, n: nat, dmin: nat)
    requires TableView(v) && n <= m <= |v.w|
    ensures TableView(v.(w := Suffix(v.w, m))) && Depths(v, n, dmin) == Depths(v.(w := Suffix(v.w, m)), n, dmin)
    decreases n
  {
    SuffixOfSuffix(v.w, m, n);
    hide Readable, GoodLuts, TotalOf;
    if n >= dmin && n > 0 {
      DepthsOfSuffix(v, m, n - 1, dmin);
    }
  }

  /** Unknown lengths above the first depth contribute nothing. */
  lemma {:induction false} DepthsFromFirst(v: View, n: nat, dmin: nat)
    requires TableView(v) && n <= |v.w| && Depths(v, n, dmin) != []
    ensures Depths(v, n, dmin)[0] <= n && Depths(v, Depths(v, n, dmin)[0], dmin) == Depths(v, n, dmin)
    decreases n
  {
    assert Readable(v.s);
    hide TableView, TotalOf;
    if TotalOf(v.s, v.hs, Suffix(v.w, n)) == 0 && n > 0 {
      DepthsFromFirst(v, n - 1, dmin);
    }
  }

  lemma FirstOfLevel(v: View, lv: Level)
    requires TableView(v) && 0 < lv.dmin <= lv.dmax && LevelDepths(v, lv) != []
    ensures var d := LevelDepths(v, lv);
      && lv.dmin <= d[0] <= lv.dmax && d[0] <= |v.w| && (forall i :: 0 <= i < |d| ==> 1 <= d[i] <= d[0])
      && Depths(v, d[0], lv.dmin) == d
  {
    var n := if |v.w| < lv.dmax then |v.w| else lv.dmax;
    assert LevelDepths(v, lv) == Depths(v, n, lv.dmin);
    hide TableView, TotalOf;
    DepthsFromFirst(v, n, lv.dmin);
    hide Depths, LevelDepths;
  }

  lemma LevelOfSuffix(v: View, lv: Level)
    requires TableView(v) && 0 < lv.dmin <= lv.dmax && LevelDepths(v, lv) != []
    ensures var d := LevelDepths(v, lv);
      && lv.dmin <= d[0] <= lv.dmax && d[0] <= |v.w| && (forall i :: 0 <= i < |d| ==> 1 <= d[i] <= d[0])
      && TableView(v.(w := Suffix(v.w, d[0]))) && LevelDepths(v.(w := Suffix(v.w, d[0])), lv) == d
  {
    hide *;
    FirstOfLevel(v, lv);
    var m := LevelDepths(v, lv)[0];
    DepthsOfSuffix(v, m, m, lv.dmin);
    SuffixLength(v.w, m);
    LevelOfWhole(v.(w := Suffix(v.w, m)), lv);
  }

  lemma SuffixLength(w: seq<byte>, n: nat)
    requires n <= |w|
    ensures |Suffix(w, n)| == n
  {
  }

  /** A window that is itself of the level's lengths is collected from its own length down. */
  lemma LevelOfWhole(v: View, lv: Level)
    requires TableView(v) && |v.w| <= lv.dmax
    ensures LevelDepths(v, lv) == Depths(v, |v.w|, lv.dmin)
  {
  }

  lemma WholeFirst(v: View, lv: Level)
    requires TableView(v) && 0 < lv.dmin <= |v.w| <= lv.dmax && TotalOf(v.s, v.hs, v.w) > 0
    ensures LevelDepths(v, lv) != [] && LevelDepths(v, lv)[0] == |v.w|
  {
    assert Suffix(v.w, |v.w|) == v.w;
    hide Readable, GoodLuts, TotalOf;
  }

  lemma ByteOfSuffix(v: View, m: nat, d: seq<nat>, b: byte)
    requires TableView(v) && m <= |v.w| && forall i :: 0 <= i < |d| ==> d[i] <= m
    ensures TableView(v.(w := Suffix(v.w, m)))
    ensures DepthsFit(v, d, b) <==> DepthsFit(v.(w := Suffix(v.w, m)), d, b)
    ensures ByteDefined(v, d, b) <==> ByteDefined(v.(w := Suffix(v.w, m)), d, b)
  {
    var u := v.(w := Suffix(v.w, m));
    hide Readable, GoodLuts, TotalOf, FreqOf, CountsFit, EvidenceFor, Weighted, MaxL;
    forall i | 0 <= i < |d|
      ensures Suffix(u.w, d[i]) == Suffix(v.w, d[i])
    {
      SuffixOfSuffix(v.w, m, d[i]);
    }
    if DepthsFit(v, d, b) {
      assert EvidenceAt(v, d, b) == EvidenceAt(u, d, b);
    }
  }

  // ----- exactly when every distribution is defined -----

  /** Taken as the window itself, a live entry shows every fault it holds. */
  lemma EntryAsWindow(s: Snapshot, hs: BtTrain.Hashes, luts: Luts, j: nat)
    requires Readable(s) && GoodLuts(luts) && Live(s, hs, j)
    ensures Defined(View(s, hs, luts, s.ctxPool[j].ctx)) ==> EntrySafe(s, hs, luts, j)
  {
    var v := View(s, hs, luts, s.ctxPool[j].ctx);
    var k := LevelOf(|v.w|);
    var d := LevelDepths(v, LEVELS[k]);
    WholeFirst(v, LEVELS[k]);
    KnownIsLive(s, hs, luts, v.w);
    hide *;
    if Defined(v) {
      LevelIsDefined(v, k);
      EachByte(v, LEVELS[k]);
      forall b: byte
        ensures CountsFit(luts, TotalOf(s, hs, v.w), FreqOf(s, hs, v.w, b))
      {
        WholeFits(v, d, b);
      }
      EntryIsSafe(s, hs, luts, j);
    }
  }

  lemma EachByte(v: View, lv: Level)
    requires TableView(v) && LevelDefined(v, lv)
    ensures forall b: byte :: DepthsFit(v, LevelDepths(v, lv), b) && SumFits(v, LevelDepths(v, lv), b)
  {
    hide TableView, LevelDepths, DepthsFit, SumFits;
    forall b: byte
      ensures DepthsFit(v, LevelDepths(v, lv), b) && SumFits(v, LevelDepths(v, lv), b)
    {
      assert ByteDefined(v, LevelDepths(v, lv), b);
    }
  }

  lemma WholeFits(v: View, d: seq<nat>, b: byte)
    requires TableView(v) && DepthsFit(v, d, b) && d != [] && d[0] == |v.w|
    ensures CountsFit(v.luts, TotalOf(v.s, v.hs, v.w), FreqOf(v.s, v.hs, v.w, b))
  {
    hide Readable, GoodLuts, TotalOf, FreqOf, CountsFit;
    assert Suffix(v.w, |v.w|) == v.w;
    assert DepthFits(v, d[0], b);
  }

  lemma EntryIsSafe(s: Snapshot, hs: BtTrain.Hashes, luts: Luts, j: nat)
    requires Readable(s) && GoodLuts(luts) && Live(s, hs, j) && EntryFits(s, luts, j)
    requires 1 <= |s.ctxPool[j].ctx| <= MAX_DEPTH
    requires var v := View(s, hs, luts, s.ctxPool[j].ctx);
      forall b: byte :: DepthsFit(v, LevelDepths(v, LEVELS[LevelOf(|v.w|)]), b)
                        && SumFits(v, LevelDepths(v, LEVELS[LevelOf(|v.w|)]), b)
    ensures EntrySafe(s, hs, luts, j)
  {
    hide Readable, GoodLuts, Live, EntryFits, DepthsFit, SumFits, LevelDepths, LevelOf, LEVELS;
  }

  /** Windows that need no distribution, such that what a window needs its suffixes need. */
  ghost predicate Exempting(exempt: seq<byte> -> bool) {
    forall w: seq<byte>, n: nat {:trigger exempt(Suffix(w, n))} ::
      n <= |w| <= MAX_DEPTH && exempt(Suffix(w, n)) ==> exempt(w)
  }

  ghost predicate EntriesSafe(s: Snapshot, hs: BtTrain.Hashes, luts: Luts, exempt: seq<byte> -> bool)
    requires Readable(s) && GoodLuts(luts)
  {
    forall j: nat :: j < |s.ctxPool| && !exempt(s.ctxPool[j].ctx) ==> EntrySafe(s, hs, luts, j)
  }

  // ----- lookups that end -----

  /** The context has its entry in a slot that the reader's index reaches. */
  ghost predicate WithinReach(s: Snapshot, c: Context)
    requires Readable(s)
  {
    exists x: nat :: x < Reach(|s.ctxSlot|) && s.ctxSlot[x] >= 0 && s.ctxPool[s.ctxSlot[x]].ctx == c
  }

  /**
   * A slot within reach is empty, or every context that is asked and passes the Bloom filter has its entry within
   * reach.
   */
  ghost predicate ProbesEnd(s: Snapshot, hs: BtTrain.Hashes, exempt: seq<byte> -> bool)
    requires Readable(s)
  {
    HasEmpty(Reached(s.ctxSlot))
    || forall c: Context :: 1 <= |c| <= MAX_DEPTH && !exempt(c) && BtTrain.BloomHas(s.bloom, hs, c)
                            ==> WithinReach(s, c)
  }

  lemma LookupEndsExactly(s: Snapshot, hs: BtTrain.Hashes, c: Context)
    requires Readable(s)
    ensures LookupEnds(s, hs, c)
       <==> !BtTrain.BloomHas(s.bloom, hs, c) || HasEmpty(Reached(s.ctxSlot)) || WithinReach(s, c)
  {
    var slots, keys := s.ctxSlot, CtxKeys(s.ctxPool);
    EndsExactly(slots, keys, hs.ctx(c), c);
    hide Ends;
    if HasEmpty(Reached(slots)) {
      var x :| 0 <= x < |Reached(slots)| && Reached(slots)[x] < 0;
      assert StopsAt(slots, keys, c, x);
    }
    if WithinReach(s, c) {
      var x: nat :| x < Reach(|slots|) && slots[x] >= 0 && s.ctxPool[slots[x]].ctx == c;
      assert StopsAt(slots, keys, c, x);
    }
    if x: nat :| x < Reach(|slots|) && StopsAt(slots, keys, c, x) {
      assert Reached(slots)[x] == slots[x];
    }
  }

  /**
   * A missing context that passes the Bloom filter is looked up for ever exactly when no slot within reach is
   * empty.
   */
  lemma MissingEnds(s: Snapshot, hs: BtTrain.Hashes, c: Context)
    requires Readable(s) && BtTrain.BloomHas(s.bloom, hs, c) && c !in CtxKeys(s.ctxPool)
    ensures LookupEnds(s, hs, c) <==> HasEmpty(Reached(s.ctxSlot))
  {
    LookupEndsExactly(s, hs, c);
    hide LookupEnds, HasEmpty;
    assert forall j :: 0 <= j < |s.ctxPool| ==> CtxKeys(s.ctxPool)[j] == s.ctxPool[j].ctx;
  }

  lemma WindowLookups(v: View)
    requires TableView(v) && Defined(v)
    ensures forall n: nat :: 1 <= n <= |v.w| ==> LookupEnds(v.s, v.hs, Suffix(v.w, n))
  {
    hide LookupEnds, ByteDefined;
    forall n: nat | 1 <= n <= |v.w|
      ensures LookupEnds(v.s, v.hs, Suffix(v.w, n))
    {
      assert LevelDefined(v, LEVELS[LevelOf(n)]);
    }
  }

  /** The lookups that windows ask for all end exactly when ProbesEnd. */
  lemma ProbesEndExactly(s: Snapshot, hs: BtTrain.Hashes, exempt: seq<byte> -> bool)
    requires Readable(s)
    ensures ProbesEnd(s, hs, exempt)
       <==> forall c: Context :: 1 <= |c| <= MAX_DEPTH && !exempt(c) ==> LookupEnds(s, hs, c)
  {
    hide Readable, HasEmpty, WithinReach, LookupEnds;
    forall c: Context
      ensures LookupEnds(s, hs, c)
         <==> !BtTrain.BloomHas(s.bloom, hs, c) || HasEmpty(Reached(s.ctxSlot)) || WithinReach(s, c)
    {
      LookupEndsExactly(s, hs, c);
    }
  }

  lemma WindowSafe(v: View, exempt: seq<byte> -> bool)
    requires TableView(v) && Exempting(exempt) && !exempt(v.w)
    requires EntriesSafe(v.s, v.hs, v.luts, exempt) && ProbesEnd(v.s, v.hs, exempt)
    ensures Defined(v)
  {
    assert Readable(v.s);
    ProbesEndExactly(v.s, v.hs, exempt);
    hide ByteDefined, TableView, EntriesSafe, ProbesEnd, LookupEnds;
    forall k | 0 <= k < |LEVELS|
      ensures LevelDefined(v, LEVELS[k])
    {
      LevelShape(k);
      forall b: byte
        ensures ByteDefined(v, LevelDepths(v, LEVELS[k]), b)
      {
        LevelSafe(v, exempt, k, b);
      }
    }
  }

  lemma LevelSafe(v: View, exempt: seq<byte> -> bool, k: nat, b: byte)
    requires TableView(v) && Exempting(exempt) && !exempt(v.w) && EntriesSafe(v.s, v.hs, v.luts, exempt)
    requires k < |LEVELS|
    ensures ByteDefined(v, LevelDepths(v, LEVELS[k]), b)
  {
    var lv, d := LEVELS[k], LevelDepths(v, LEVELS[k]);
    LevelShape(k);
    if d == [] {
      NothingDefined(v, b);
    } else {
      LevelOfSuffix(v, lv);
      var c := Suffix(v.w, d[0]);
      assert LevelOf(|c|) == k && !exempt(c);
      KnownIsLive(v.s, v.hs, v.luts, c);
      var j := EntryOf(v.s, v.hs, c);
      assert EntrySafe(v.s, v.hs, v.luts, j);
      hide *;
      DepthsSafe(v, exempt, d, b);
      ByteOfSuffix(v, d[0], d, b);
      SumOfEntry(v, c, j, k, b);
    }
  }

  lemma SumOfEntry(v: View, c: Context, j: nat, k: nat, b: byte)
    requires Readable(v.s) && GoodLuts(v.luts) && Live(v.s, v.hs, j) && v.s.ctxPool[j].ctx == c
    requires EntrySafe(v.s, v.hs, v.luts, j) && TableView(v.(w := c)) && k < |LEVELS| && 1 <= |c| && LevelOf(|c|) == k
    requires DepthsFit(v.(w := c), LevelDepths(v.(w := c), LEVELS[k]), b)
    ensures ByteDefined(v.(w := c), LevelDepths(v.(w := c), LEVELS[k]), b)
  {
    hide Readable, GoodLuts, EntryFits, Live, DepthsFit, SumFits, LevelDepths, TableView;
    assert View(v.s, v.hs, v.luts, c) == v.(w := c);
  }

  lemma NothingDefined(v: View, b: byte)
    requires TableView(v)
    ensures ByteDefined(v, [], b)
  {
  }

  lemma DepthsSafe(v: View, exempt: seq<byte> -> bool, d: seq<nat>, b: byte)
    requires TableView(v) && Exempting(exempt) && !exempt(v.w) && EntriesSafe(v.s, v.hs, v.luts, exempt)
    requires forall i :: 0 <= i < |d| ==> 1 <= d[i] <= |v.w| && TotalOf(v.s, v.hs, Suffix(v.w, d[i])) > 0
    ensures DepthsFit(v, d, b)
  {
    forall i | 0 <= i < |d|
      ensures DepthFits(v, d[i], b)
    {
      DepthSafe(v, exempt, d[i], b);
    }
  }

  lemma DepthSafe(v: View, exempt: seq<byte> -> bool, n: nat, b: byte)
    requires TableView(v) && Exempting(exempt) && !exempt(v.w) && EntriesSafe(v.s, v.hs, v.luts, exempt)
    requires 1 <= n <= |v.w| && TotalOf(v.s, v.hs, Suffix(v.w, n)) > 0
    ensures DepthFits(v, n, b)
  {
    var c := Suffix(v.w, n);
    assert !exempt(c);
    KnownIsLive(v.s, v.hs, v.luts, c);
    hide Readable, GoodLuts, TotalOf, FreqOf, CountsFit, EntryFits, EntrySumFits, Live;
    var j := EntryOf(v.s, v.hs, c);
    assert EntrySafe(v.s, v.hs, v.luts, j);
  }

  /**
   * Every distribution that is asked for is defined exactly when its lookups end and every live entry whose own
   * context asks for one is safe; what fails, fails in the window that is the context.
   */
  lemma SafeExactly(s: Snapshot, hs: BtTrain.Hashes, luts: Luts, exempt: seq<byte> -> bool)
    requires Readable(s) && GoodLuts(luts) && Exempting(exempt)
    ensures EntriesSafe(s, hs, luts, exempt) && ProbesEnd(s, hs, exempt)
       <==> forall w: seq<byte> :: |w| <= MAX_DEPTH && !exempt(w) ==> Defined(View(s, hs, luts, w))
  {
    assert forall w: seq<byte> :: |w| <= MAX_DEPTH ==> TableView(View(s, hs, luts, w));
    hide Readable, GoodLuts, Exempting, Defined, Live, TableView, EntriesSafe, ProbesEnd;
    if EntriesSafe(s, hs, luts, exempt) && ProbesEnd(s, hs, exempt) {
      forall w: seq<byte> | |w| <= MAX_DEPTH && !exempt(w)
        ensures Defined(View(s, hs, luts, w))
      {
        WindowSafe(View(s, hs, luts, w), exempt);
      }
    }
    if forall w: seq<byte> :: |w| <= MAX_DEPTH && !exempt(w) ==> Defined(View(s, hs, luts, w)) {
      EntriesMustBeSafe(s, hs, luts, exempt);
      ProbesMustEnd(s, hs, luts, exempt);
    }
  }

  lemma EntriesMustBeSafe(s: Snapshot, hs: BtTrain.Hashes, luts: Luts, exempt: seq<byte> -> bool)
    requires Readable(s) && GoodLuts(luts)
    requires forall w: seq<byte> :: |w| <= MAX_DEPTH && !exempt(w) ==> Defined(View(s, hs, luts, w))
    ensures EntriesSafe(s, hs, luts, exempt)
  {
    hide Readable, GoodLuts, Defined, Live;
    forall j: nat | j < |s.ctxPool| && !exempt(s.ctxPool[j].ctx)
      ensures EntrySafe(s, hs, luts, j)
    {
      if Live(s, hs, j) {
        LiveLength(s, hs, j);
        EntryAsWindow(s, hs, luts, j);
      }
    }
  }

  lemma ProbesMustEnd(s: Snapshot, hs: BtTrain.Hashes, luts: Luts, exempt: seq<byte> -> bool)
    requires Readable(s) && GoodLuts(luts)
    requires forall w: seq<byte> :: |w| <= MAX_DEPTH && !exempt(w) ==> Defined(View(s, hs, luts, w))
    ensures ProbesEnd(s, hs, exempt)
  {
    ProbesEndExactly(s, hs, exempt);
    hide ProbesEnd, LookupEnds, Readable, GoodLuts, Defined;
    forall c: Context | 1 <= |c| <= MAX_DEPTH && !exempt(c)
      ensures LookupEnds(s, hs, c)
    {
      WindowLookups(View(s, hs, luts, c));
      assert Suffix(c, |c|) == c;
    }
  }

  lemma LiveLength(s: Snapshot, hs: BtTrain.Hashes, j: nat)
    requires Readable(s) && Live(s, hs, j)
    ensures |s.ctxPool[j].ctx| <= MAX_DEPTH
  {
  }

  // ----- what a safe entry cannot hold -----

  /** A more frequent byte is never less certain. */
  predicate Nondecreasing(conf: seq<nat>) {
    forall i, j :: 0 <= i <= j < |conf| ==> conf[i] <= conf[j]
  }

  lemma CertainEvidence(t: Luts, n: nat, total: nat, f: nat)
    requires GoodLuts(t) && n <= MAX_DEPTH && CountsFit(t, total, f) && f >= total
    requires Quotient(f * |t.confLog2|, total) < 0x8000_0000
    ensures EvidenceFor(t, n, total, f).l == t.expLog2[n] + t.confLog2[|t.confLog2| - 1]
  {
    var pres := |t.confLog2|;
    MulMono(total, f, pres);
    DivAtLeast(pres, f * pres, total);
    assert U32(Quotient(f * pres, total)) == Quotient(f * pres, total);
  }

  lemma CertaintyBound(t: Luts, n: nat, m: nat, total: nat, f: nat)
    requires GoodLuts(t) && Nondecreasing(t.confLog2) && n <= m <= MAX_DEPTH && CountsFit(t, total, f)
    ensures EvidenceFor(t, n, total, f).l <= t.expLog2[m] + t.confLog2[|t.confLog2| - 1]
  {
    SmallIndex(Quotient(|t.confLog2|, Spread(total)), |t.confLog2|);
    hide Quotient, ConfIndex;
  }

  /** The heaviest evidence weighs 2^28, so its probability is below 2^35 if the weighted sum is to fit. */
  lemma HeaviestFits(t: Luts, ev: seq<Evidence>, i: nat)
    requires GoodLuts(t) && i < |ev| && forall j :: 0 <= j < |ev| ==> ev[j].l <= ev[i].l
    requires Weighted(t, ev, MaxL(ev)) < TWO63
    ensures ev[i].p < MEAN_MAX
  {
    LargestIs(ev, i);
    WeightedAtLeast(t, ev, ev[i].l, i);
    Exp2WRange(t, 0);
    hide *;
    BelowMean(ev[i].p, Weighted(t, ev, ev[i].l));
  }

  lemma LargestIs(ev: seq<Evidence>, i: nat)
    requires i < |ev| && forall j :: 0 <= j < |ev| ==> ev[j].l <= ev[i].l
    ensures MaxL(ev) == ev[i].l
  {
  }

  lemma BelowMean(p: nat, sum: nat)
    requires WSCALE * p <= sum < TWO63
    ensures p < MEAN_MAX
  {
  }

  /**
   * Where distributions are defined an entry counts no byte 128 times as often as its context or more, short of
   * counts so large that the index wraps to a small one.  Counts below 16 times the total are always safe
   * (ModestDefined).
   */
  lemma RatioBelow128(s: Snapshot, hs: BtTrain.Hashes, luts: Luts, j: nat, b: byte)
    requires Readable(s) && GoodLuts(luts) && Nondecreasing(luts.confLog2) && Live(s, hs, j)
    requires |s.ctxPool[j].ctx| <= MAX_DEPTH && Defined(View(s, hs, luts, s.ctxPool[j].ctx))
    requires var f := WalkFreq(s.pool, PathOf(s.pool, s.ctxPool[j].first), b);
      Quotient(f * |luts.confLog2|, s.ctxPool[j].total) < 0x8000_0000
    ensures WalkFreq(s.pool, PathOf(s.pool, s.ctxPool[j].first), b) < 128 * s.ctxPool[j].total
  {
    var v, n := View(s, hs, luts, s.ctxPool[j].ctx), |s.ctxPool[j].ctx|;
    var total, f := s.ctxPool[j].total, WalkFreq(s.pool, PathOf(s.pool, s.ctxPool[j].first), b);
    var lv := LEVELS[LevelOf(n)];
    LevelIsDefined(v, LevelOf(n));
    EachByte(v, lv);
    WholeFirst(v, lv);
    FirstOfLevel(v, lv);
    assert Suffix(v.w, n) == v.w;
    if f >= 128 * total {
      LargeRatio(v, LevelDepths(v, lv), b);
    }
  }

  lemma LargeRatio(v: View, d: seq<nat>, b: byte)
    requires TableView(v) && Nondecreasing(v.luts.confLog2) && DepthsFit(v, d, b) && SumFits(v, d, b)
    requires d != [] && forall i :: 0 <= i < |d| ==> d[i] <= d[0] <= |v.w|
    requires var total, f := TotalOf(v.s, v.hs, Suffix(v.w, d[0])), FreqOf(v.s, v.hs, Suffix(v.w, d[0]), b);
      && total > 0 && Quotient(f * |v.luts.confLog2|, total) < 0x8000_0000
    ensures FreqOf(v.s, v.hs, Suffix(v.w, d[0]), b) < 128 * TotalOf(v.s, v.hs, Suffix(v.w, d[0]))
  {
    var total, f := TotalOf(v.s, v.hs, Suffix(v.w, d[0])), FreqOf(v.s, v.hs, Suffix(v.w, d[0]), b);
    if f >= 128 * total {
      var ev := EvidenceAt(v, d, b);
      hide Readable, GoodLuts, TotalOf, FreqOf, CountsFit, EvidenceFor, Quotient, Nondecreasing, Weighted, MaxL;
      assert DepthFits(v, d[0], b);
      CertainEvidence(v.luts, d[0], total, f);
      forall i | 0 <= i < |d|
        ensures ev[i].l <= ev[0].l
      {
        assert DepthFits(v, d[i], b);
        CertaintyBound(v.luts, d[i], d[0], TotalOf(v.s, v.hs, Suffix(v.w, d[i])),
                       FreqOf(v.s, v.hs, Suffix(v.w, d[i]), b));
      }
      HeaviestFits(v.luts, ev, 0);
      LargeProbability(v.luts, d[0], total, f);
    }
  }

  lemma LargeProbability(t: Luts, n: nat, total: nat, f: nat)
    requires GoodLuts(t) && n <= MAX_DEPTH && CountsFit(t, total, f) && f >= 128 * total
    ensures EvidenceFor(t, n, total, f).p >= MEAN_MAX
  {
    MulMono(128 * total, f, PSCALE);
    assert 128 * total * PSCALE == MEAN_MAX * total;
    DivAtLeast(MEAN_MAX, f * PSCALE, total);
  }
}
