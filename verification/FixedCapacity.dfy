/** Training in builds of fixed capacity: what the tables hold once a full pool has refused entries. */
module FixedCapacity {
  import opened Occurrences
  import opened BtTables

  // ----- invariants -----

  /** Every entry is a pair that was seen, with its exact count; pairs may be missing. */
  ghost predicate PairsExact(pool: seq<BtEntry>, seen: seq<Update>) {
    && (forall i :: 0 <= i < |pool| ==>
          && 1 <= |pool[i].ctx| <= MAX_DEPTH && pool[i].ctxNext < |pool|
          && pool[i].freq == Count(seen, pool[i].ctx, pool[i].next) > 0)
    && (forall i, j :: 0 <= i < j < |pool| ==> PairKey(pool[i]) != PairKey(pool[j]))
  }

  /** The entries of the context are linked, latest first. */
  ghost predicate LinkedFor(pool: seq<BtEntry>, c: Context) {
    forall i :: 0 <= i < |pool| && pool[i].ctx == c ==> LinkOk(pool, i)
  }

  /** Each context entry heads the chain of its pairs; pairs of refused contexts are on no chain. */
  ghost predicate HeadsExact(pool: seq<BtEntry>, ctxPool: seq<CtxEntry>) {
    && (forall j :: 0 <= j < |ctxPool| ==> HeadOk(pool, ctxPool[j]) && LinkedFor(pool, ctxPool[j].ctx))
    && (forall i, j :: 0 <= i < j < |ctxPool| ==> ctxPool[i].ctx != ctxPool[j].ctx)
  }

  /** The counts of a context's stored pairs, summed. */
  function FreqSum(pool: seq<BtEntry>, c: Context): nat {
    if pool == [] then 0
    else FreqSum(pool[..|pool| - 1], c) + (if pool[|pool| - 1].ctx == c then pool[|pool| - 1].freq else 0)
  }

  ghost predicate SumsExact(pool: seq<BtEntry>, ctxPool: seq<CtxEntry>) {
    forall j :: 0 <= j < |ctxPool| ==>
      ctxPool[j].total == FreqSum(pool, ctxPool[j].ctx) && ctxPool[j].unique == EntriesOf(pool, ctxPool[j].ctx)
  }

  /** A seen pair is missing only if the pool is full, a stored pair's context only if the context pool is. */
  ghost predicate RefusedWhenFull(pool: seq<BtEntry>, poolCap: nat, ctxPool: seq<CtxEntry>, ctxCap: nat,
                                  seen: seq<Update>) {
    && (forall u :: u in seen ==> u in PairKeys(pool) || |pool| == poolCap)
    && (forall i :: 0 <= i < |pool| ==> pool[i].ctx in CtxKeys(ctxPool) || |ctxPool| == ctxCap)
  }

  ghost predicate PartlyTrained(pool: seq<BtEntry>, poolCap: nat, ctxPool: seq<CtxEntry>, ctxCap: nat,
                                seen: seq<Update>) {
    && PairsExact(pool, seen) && HeadsExact(pool, ctxPool) && SumsExact(pool, ctxPool)
    && RefusedWhenFull(pool, poolCap, ctxPool, ctxCap, seen)
  }

  lemma NothingPartlyTrained(poolCap: nat, ctxCap: nat)
    ensures PartlyTrained([], poolCap, [], ctxCap, [])
  {
  }

  // ----- sums -----

  lemma FreqSumAppend(pool: seq<BtEntry>, e: BtEntry, c: Context)
    ensures FreqSum(pool + [e], c) == FreqSum(pool, c) + (if e.ctx == c then e.freq else 0)
  {
    assert (pool + [e])[..|pool|] == pool;
  }

  lemma {:induction false} FreqSumCounted(pool: seq<BtEntry>, i: nat, c: Context)
    requires i < |pool|
    ensures FreqSum(Counted(pool, i), c) == FreqSum(pool, c) + (if pool[i].ctx == c then 1 else 0)
  {
    var n := |pool| - 1;
    if i < n {
      FreqSumCounted(pool[..n], i, c);
      assert Counted(pool, i)[..n] == Counted(pool[..n], i);
    } else {
      assert Counted(pool, i)[..n] == pool[..n];
    }
  }

  // ----- the pairs -----

  lemma CountedPairs(pool: seq<BtEntry>, seen: seq<Update>, i: nat, u: Update)
    requires PairsExact(pool, seen) && i < |pool| && PairKey(pool[i]) == u
    ensures PairsExact(Counted(pool, i), seen + [u]) && PairKeys(Counted(pool, i)) == PairKeys(pool)
  {
    forall k | 0 <= k < |pool|
      ensures Counted(pool, i)[k].freq == Count(seen + [u], pool[k].ctx, pool[k].next)
    {
      CountAppend(seen, u, pool[k].ctx, pool[k].next);
      assert k < i ==> PairKey(pool[k]) != PairKey(pool[i]);
      assert i < k ==> PairKey(pool[i]) != PairKey(pool[k]);
    }
  }

  lemma OtherPairs(pool: seq<BtEntry>, seen: seq<Update>, u: Update)
    requires PairsExact(pool, seen) && u !in PairKeys(pool)
    ensures PairsExact(pool, seen + [u]) && forall k :: 0 <= k < |pool| ==> PairKey(pool[k]) != u
  {
    forall k | 0 <= k < |pool|
      ensures PairKey(pool[k]) != u
      ensures pool[k].freq == Count(seen + [u], pool[k].ctx, pool[k].next)
    {
      assert PairKeys(pool)[k] == PairKey(pool[k]);
      CountAppend(seen, u, pool[k].ctx, pool[k].next);
    }
  }

  /** A pair is stored when it is first seen: until then either it was not seen or the pool was full. */
  lemma AddedPairs(pool: seq<BtEntry>, poolCap: nat, seen: seq<Update>, u: Update, link: int)
    requires PairsExact(pool, seen) && u !in PairKeys(pool) && 1 <= |u.ctx| <= MAX_DEPTH
    requires link < |pool| < poolCap && forall v :: v in seen ==> v in PairKeys(pool) || |pool| == poolCap
    ensures PairsExact(pool + [BtEntry(u.ctx, u.next, 1, link)], seen + [u])
    ensures PairKeys(pool + [BtEntry(u.ctx, u.next, 1, link)]) == PairKeys(pool) + [u]
  {
    OtherPairs(pool, seen, u);
    CountSeen(seen, u.ctx, u.next);
    CountAppend(seen, u, u.ctx, u.next);
  }

  // ----- one update -----

  /** The pool is full and the pair is new: nothing changes. */
  lemma PairRefused(pool: seq<BtEntry>, poolCap: nat, ctxPool: seq<CtxEntry>, ctxCap: nat, seen: seq<Update>, u: Update)
    requires PartlyTrained(pool, poolCap, ctxPool, ctxCap, seen) && u !in PairKeys(pool) && |pool| == poolCap
    ensures PartlyTrained(pool, poolCap, ctxPool, ctxCap, seen + [u])
  {
    hide HeadsExact, SumsExact;
    OtherPairs(pool, seen, u);
  }

  lemma CountedHeadsExact(pool: seq<BtEntry>, ctxPool: seq<CtxEntry>, i: nat)
    requires HeadsExact(pool, ctxPool) && i < |pool|
    ensures HeadsExact(Counted(pool, i), ctxPool)
  {
    forall j | 0 <= j < |ctxPool|
      ensures HeadOk(Counted(pool, i), ctxPool[j]) && LinkedFor(Counted(pool, i), ctxPool[j].ctx)
    {
      assert HeadOk(pool, ctxPool[j]) && LinkedFor(pool, ctxPool[j].ctx);
      forall k | 0 <= k < |pool| && pool[k].ctx == ctxPool[j].ctx
        ensures LinkOk(Counted(pool, i), k)
      {
        assert LinkOk(pool, k);
      }
    }
  }

  /** Totals of context entries other than those of c do not change. */
  ghost predicate SameBut(ctxPool: seq<CtxEntry>, ctxPool': seq<CtxEntry>, c: Context) {
    && |ctxPool'| == |ctxPool|
    && forall j :: 0 <= j < |ctxPool| ==>
         ctxPool'[j].ctx == ctxPool[j].ctx && (ctxPool[j].ctx != c ==> ctxPool'[j] == ctxPool[j])
  }

  lemma SameKeys(ctxPool: seq<CtxEntry>, ctxPool': seq<CtxEntry>, c: Context)
    requires SameBut(ctxPool, ctxPool', c)
    ensures CtxKeys(ctxPool') == CtxKeys(ctxPool)
  {
  }

  /** A stored pair is seen again; its context's total goes up if the context has an entry. */
  lemma PairCounted(pool: seq<BtEntry>, poolCap: nat, ctxPool: seq<CtxEntry>, ctxCap: nat, seen: seq<Update>,
                    u: Update, i: nat, j: int)
    requires PartlyTrained(pool, poolCap, ctxPool, ctxCap, seen) && i < |pool| && PairKey(pool[i]) == u
    requires if j < 0 then u.ctx !in CtxKeys(ctxPool) else j < |ctxPool| && ctxPool[j].ctx == u.ctx
    ensures PartlyTrained(Counted(pool, i), poolCap, if j < 0 then ctxPool else ctxPool[j := Again(ctxPool[j])],
                          ctxCap, seen + [u])
  {
    var pool', ctxPool' := Counted(pool, i), if j < 0 then ctxPool else ctxPool[j := Again(ctxPool[j])];
    OnlyEntry(pool, ctxPool, u.ctx, j);
    assert SameBut(ctxPool, ctxPool', u.ctx);
    SameKeys(ctxPool, ctxPool', u.ctx);
    CountedSums(pool, ctxPool, i, j);
    assert forall k :: 0 <= k < |ctxPool| ==> ctxPool'[k].first == ctxPool[k].first;
    assert PairKeys(pool)[i] == u;
    hide SumsExact, HeadsExact, PairsExact, SameBut, RefusedWhenFull;
    CountedPairs(pool, seen, i, u);
    StillRefused(pool, poolCap, ctxPool, ctxCap, seen, u, pool', ctxPool');
    CountedHeadsExact(pool, ctxPool, i);
    AgainHeads(pool', ctxPool, ctxPool', u.ctx);
  }

  lemma StillRefused(pool: seq<BtEntry>, poolCap: nat, ctxPool: seq<CtxEntry>, ctxCap: nat, seen: seq<Update>,
                     u: Update, pool': seq<BtEntry>, ctxPool': seq<CtxEntry>)
    requires RefusedWhenFull(pool, poolCap, ctxPool, ctxCap, seen) && u in PairKeys(pool)
    requires PairKeys(pool') == PairKeys(pool) && CtxKeys(ctxPool') == CtxKeys(ctxPool)
    ensures RefusedWhenFull(pool', poolCap, ctxPool', ctxCap, seen + [u])
  {
    assert |pool'| == |PairKeys(pool')| && |ctxPool'| == |CtxKeys(ctxPool')|;
    forall i | 0 <= i < |pool'|
      ensures pool'[i].ctx == pool[i].ctx
    {
      assert PairKeys(pool')[i] == PairKeys(pool)[i];
    }
  }

  /** j is the one entry of context c, or there is none. */
  lemma OnlyEntry(pool: seq<BtEntry>, ctxPool: seq<CtxEntry>, c: Context, j: int)
    requires HeadsExact(pool, ctxPool)
    requires if j < 0 then c !in CtxKeys(ctxPool) else j < |ctxPool| && ctxPool[j].ctx == c
    ensures forall k :: 0 <= k < |ctxPool| && k != j ==> ctxPool[k].ctx != c
  {
    assert forall k :: 0 <= k < |ctxPool| ==> CtxKeys(ctxPool)[k] == ctxPool[k].ctx;
  }

  lemma CountedSums(pool: seq<BtEntry>, ctxPool: seq<CtxEntry>, i: nat, j: int)
    requires SumsExact(pool, ctxPool) && i < |pool|
    requires forall k :: 0 <= k < |ctxPool| && k != j ==> ctxPool[k].ctx != pool[i].ctx
    requires j < |ctxPool| && (j >= 0 ==> ctxPool[j].ctx == pool[i].ctx)
    ensures SumsExact(Counted(pool, i), if j < 0 then ctxPool else ctxPool[j := Again(ctxPool[j])])
  {
    forall k | 0 <= k < |ctxPool|
      ensures FreqSum(Counted(pool, i), ctxPool[k].ctx) == ctxPool[k].total + (if k == j then 1 else 0)
      ensures EntriesOf(Counted(pool, i), ctxPool[k].ctx) == ctxPool[k].unique
    {
      FreqSumCounted(pool, i, ctxPool[k].ctx);
      EntriesOfSameContexts(pool, Counted(pool, i), ctxPool[k].ctx);
    }
  }

  lemma AgainHeads(pool: seq<BtEntry>, ctxPool: seq<CtxEntry>, ctxPool': seq<CtxEntry>, c: Context)
    requires HeadsExact(pool, ctxPool) && SameBut(ctxPool, ctxPool', c)
    requires forall j :: 0 <= j < |ctxPool| ==> ctxPool'[j].first == ctxPool[j].first
    ensures HeadsExact(pool, ctxPool')
  {
    forall j | 0 <= j < |ctxPool'|
      ensures HeadOk(pool, ctxPool'[j]) && LinkedFor(pool, ctxPool'[j].ctx)
    {
      assert HeadOk(pool, ctxPool[j]);
    }
  }

  lemma AppendedLinks(pool: seq<BtEntry>, e: BtEntry, c: Context)
    requires LinkedFor(pool, c) && (e.ctx == c ==> LinkOk(pool + [e], |pool|))
    ensures LinkedFor(pool + [e], c)
  {
    forall k | 0 <= k < |pool| && pool[k].ctx == c
      ensures LinkOk(pool + [e], k)
    {
      assert LinkOk(pool, k);
    }
  }

  /** Context entries of other contexts keep their chains when a pair is appended. */
  lemma AppendedHead(pool: seq<BtEntry>, e: BtEntry, h: CtxEntry)
    requires HeadOk(pool, h) && LinkedFor(pool, h.ctx) && h.ctx != e.ctx
    ensures HeadOk(pool + [e], h) && LinkedFor(pool + [e], h.ctx)
  {
    AppendedLinks(pool, e, h.ctx);
  }

  lemma AppendedSum(pool: seq<BtEntry>, ctxPool: seq<CtxEntry>, e: BtEntry, k: nat)
    requires SumsExact(pool, ctxPool) && k < |ctxPool| && e.freq == 1
    ensures var d := if ctxPool[k].ctx == e.ctx then 1 else 0;
      && FreqSum(pool + [e], ctxPool[k].ctx) == ctxPool[k].total + d
      && EntriesOf(pool + [e], ctxPool[k].ctx) == ctxPool[k].unique + d
  {
    FreqSumAppend(pool, e, ctxPool[k].ctx);
    EntriesOfAppend(pool, e, ctxPool[k].ctx);
  }

  lemma LinkedHeads(pool: seq<BtEntry>, ctxPool: seq<CtxEntry>, e: BtEntry, j: nat)
    requires HeadsExact(pool, ctxPool) && j < |ctxPool| && ctxPool[j].ctx == e.ctx && e.ctxNext == ctxPool[j].first
    ensures HeadsExact(pool + [e], ctxPool[j := Bumped(ctxPool[j], |pool|)])
  {
    var ctxPool' := ctxPool[j := Bumped(ctxPool[j], |pool|)];
    forall k | 0 <= k < |ctxPool'|
      ensures HeadOk(pool + [e], ctxPool'[k]) && LinkedFor(pool + [e], ctxPool'[k].ctx)
    {
      assert HeadOk(pool, ctxPool[k]) && LinkedFor(pool, ctxPool[k].ctx);
      if k == j {
        AppendedLinks(pool, e, e.ctx);
      } else {
        AppendedHead(pool, e, ctxPool[k]);
      }
    }
  }

  lemma LinkedSums(pool: seq<BtEntry>, ctxPool: seq<CtxEntry>, e: BtEntry, j: nat)
    requires SumsExact(pool, ctxPool) && j < |ctxPool| && ctxPool[j].ctx == e.ctx && e.freq == 1
    requires forall k :: 0 <= k < |ctxPool| && k != j ==> ctxPool[k].ctx != e.ctx
    ensures SumsExact(pool + [e], ctxPool[j := Bumped(ctxPool[j], |pool|)])
  {
    forall k | 0 <= k < |ctxPool|
      ensures FreqSum(pool + [e], ctxPool[k].ctx) == ctxPool[k].total + (if k == j then 1 else 0)
      ensures EntriesOf(pool + [e], ctxPool[k].ctx) == ctxPool[k].unique + (if k == j then 1 else 0)
    {
      AppendedSum(pool, ctxPool, e, k);
    }
  }

  /** A new pair for the known context entry j. */
  lemma PairLinked(pool: seq<BtEntry>, poolCap: nat, ctxPool: seq<CtxEntry>, ctxCap: nat, seen: seq<Update>,
                   u: Update, j: nat)
    requires PartlyTrained(pool, poolCap, ctxPool, ctxCap, seen) && u !in PairKeys(pool) && |pool| < poolCap
    requires 1 <= |u.ctx| <= MAX_DEPTH && j < |ctxPool| && ctxPool[j].ctx == u.ctx
    ensures PartlyTrained(pool + [BtEntry(u.ctx, u.next, 1, ctxPool[j].first)], poolCap,
                          ctxPool[j := Bumped(ctxPool[j], |pool|)], ctxCap, seen + [u])
  {
    var e := BtEntry(u.ctx, u.next, 1, ctxPool[j].first);
    var ctxPool' := ctxPool[j := Bumped(ctxPool[j], |pool|)];
    OnlyEntry(pool, ctxPool, u.ctx, j);
    assert SameBut(ctxPool, ctxPool', u.ctx);
    SameKeys(ctxPool, ctxPool', u.ctx);
    assert CtxKeys(ctxPool)[j] == u.ctx && HeadOk(pool, ctxPool[j]);
    hide SumsExact, HeadsExact, PairsExact, SameBut;
    AddedPairs(pool, poolCap, seen, u, ctxPool[j].first);
    LinkedHeads(pool, ctxPool, e, j);
    LinkedSums(pool, ctxPool, e, j);
  }

  lemma {:induction false} NoFreqs(pool: seq<BtEntry>, c: Context)
    requires forall i :: 0 <= i < |pool| ==> pool[i].ctx != c
    ensures FreqSum(pool, c) == 0 && EntriesOf(pool, c) == 0
  {
    if pool != [] {
      NoFreqs(pool[..|pool| - 1], c);
    }
  }

  lemma OpenedHeadsExact(pool: seq<BtEntry>, ctxPool: seq<CtxEntry>, e: BtEntry)
    requires HeadsExact(pool, ctxPool) && e.ctx !in CtxKeys(ctxPool)
    ensures HeadsExact(pool + [e], ctxPool)
    ensures (forall i :: 0 <= i < |pool| ==> pool[i].ctx != e.ctx) && e.ctxNext == -1
            ==> HeadsExact(pool + [e], ctxPool + [CtxEntry(e.ctx, 1, 1, |pool|)])
  {
    forall k | 0 <= k < |ctxPool|
      ensures HeadOk(pool + [e], ctxPool[k]) && LinkedFor(pool + [e], ctxPool[k].ctx) && ctxPool[k].ctx != e.ctx
    {
      assert CtxKeys(ctxPool)[k] == ctxPool[k].ctx;
      assert HeadOk(pool, ctxPool[k]) && LinkedFor(pool, ctxPool[k].ctx);
      AppendedHead(pool, e, ctxPool[k]);
    }
    var h := CtxEntry(e.ctx, 1, 1, |pool|);
    if (forall i :: 0 <= i < |pool| ==> pool[i].ctx != e.ctx) && e.ctxNext == -1 {
      assert HeadOk(pool + [e], h) && LinkedFor(pool + [e], h.ctx);
    }
  }

  lemma OpenedSums(pool: seq<BtEntry>, ctxPool: seq<CtxEntry>, e: BtEntry)
    requires SumsExact(pool, ctxPool) && e.ctx !in CtxKeys(ctxPool) && e.freq == 1
    ensures SumsExact(pool + [e], ctxPool)
    ensures (forall i :: 0 <= i < |pool| ==> pool[i].ctx != e.ctx)
            ==> SumsExact(pool + [e], ctxPool + [CtxEntry(e.ctx, 1, 1, |pool|)])
  {
    forall k | 0 <= k < |ctxPool|
      ensures FreqSum(pool + [e], ctxPool[k].ctx) == ctxPool[k].total
      ensures EntriesOf(pool + [e], ctxPool[k].ctx) == ctxPool[k].unique
    {
      assert CtxKeys(ctxPool)[k] == ctxPool[k].ctx;
      AppendedSum(pool, ctxPool, e, k);
    }
    if forall i :: 0 <= i < |pool| ==> pool[i].ctx != e.ctx {
      NoFreqs(pool, e.ctx);
      FreqSumAppend(pool, e, e.ctx);
      EntriesOfAppend(pool, e, e.ctx);
    }
  }

  /** A new pair whose context has no entry: the entry is made, or refused by a full context pool. */
  lemma PairOpens(pool: seq<BtEntry>, poolCap: nat, ctxPool: seq<CtxEntry>, ctxCap: nat, seen: seq<Update>,
                  u: Update, made: bool)
    requires PartlyTrained(pool, poolCap, ctxPool, ctxCap, seen) && u !in PairKeys(pool) && |pool| < poolCap
    requires 1 <= |u.ctx| <= MAX_DEPTH && u.ctx !in CtxKeys(ctxPool)
    requires if made then |ctxPool| < ctxCap else |ctxPool| == ctxCap
    ensures PartlyTrained(pool + [BtEntry(u.ctx, u.next, 1, -1)], poolCap,
                          if made then ctxPool + [CtxEntry(u.ctx, 1, 1, |pool|)] else ctxPool, ctxCap, seen + [u])
  {
    var e, h := BtEntry(u.ctx, u.next, 1, -1), CtxEntry(u.ctx, 1, 1, |pool|);
    assert CtxKeys(ctxPool + [h]) == CtxKeys(ctxPool) + [u.ctx];
    assert made ==> forall i :: 0 <= i < |pool| ==> pool[i].ctx != u.ctx;
    hide SumsExact, HeadsExact, PairsExact;
    AddedPairs(pool, poolCap, seen, u, -1);
    OpenedHeadsExact(pool, ctxPool, e);
    OpenedSums(pool, ctxPool, e);
  }
}
