/** The context model's tables: the entry pool with its chains, and the context pool. */
module BtTables {
  import opened Words
  import opened Occurrences

  /** One (context, next byte) pair; ctxNext links the entries of a context, -1 ends the chain. */
  datatype BtEntry = BtEntry(ctx: Context, next: byte, freq: nat, ctxNext: int)

  datatype CtxEntry = CtxEntry(ctx: Context, total: nat, unique: nat, first: int)

  /** The key of the (context, byte) table. */
  function PairKey(e: BtEntry): Update {
    Update(e.ctx, e.next)
  }

  function PairKeys(pool: seq<BtEntry>): (k: seq<Update>)
    ensures |k| == |pool|
  {
    seq(|pool|, i requires 0 <= i < |pool| => PairKey(pool[i]))
  }

  function CtxKeys(ctxPool: seq<CtxEntry>): (k: seq<Context>)
    ensures |k| == |ctxPool|
  {
    seq(|ctxPool|, i requires 0 <= i < |ctxPool| => ctxPool[i].ctx)
  }

  // ----- invariants of training -----

  /** Every entry is a pair that was seen, with its count, and every pair seen has its entry. */
  ghost predicate PoolOk(pool: seq<BtEntry>, seen: seq<Update>) {
    && (forall i :: 0 <= i < |pool| ==>
          1 <= |pool[i].ctx| <= MAX_DEPTH && pool[i].freq == Count(seen, pool[i].ctx, pool[i].next) > 0)
    && (forall i, j :: 0 <= i < j < |pool| ==> PairKey(pool[i]) != PairKey(pool[j]))
    && (forall u :: u in seen ==> u in PairKeys(pool))
  }

  /** Each entry links to the previous entry of its context, so chains descend. */
  ghost predicate LinksOk(pool: seq<BtEntry>) {
    forall i :: 0 <= i < |pool| ==> LinkOk(pool, i)
  }

  ghost predicate LinkOk(pool: seq<BtEntry>, i: nat)
    requires i < |pool|
  {
    && -1 <= pool[i].ctxNext < i
    && (pool[i].ctxNext >= 0 ==> pool[pool[i].ctxNext].ctx == pool[i].ctx)
    && (forall k :: pool[i].ctxNext < k < i ==> pool[k].ctx != pool[i].ctx)
  }

  /** Each context has one entry, whose chain starts at its latest pool entry. */
  ghost predicate HeadsOk(pool: seq<BtEntry>, ctxPool: seq<CtxEntry>) {
    && (forall j :: 0 <= j < |ctxPool| ==> HeadOk(pool, ctxPool[j]))
    && (forall i, j :: 0 <= i < j < |ctxPool| ==> ctxPool[i].ctx != ctxPool[j].ctx)
    && (forall i :: 0 <= i < |pool| ==> pool[i].ctx in CtxKeys(ctxPool))
  }

  ghost predicate HeadOk(pool: seq<BtEntry>, e: CtxEntry) {
    && 0 <= e.first < |pool|
    && pool[e.first].ctx == e.ctx
    && (forall k :: e.first < k < |pool| ==> pool[k].ctx != e.ctx)
  }

  function EntriesOf(pool: seq<BtEntry>, c: Context): nat {
    if pool == [] then 0 else EntriesOf(pool[..|pool| - 1], c) + (if pool[|pool| - 1].ctx == c then 1 else 0)
  }

  ghost predicate TotalsOk(pool: seq<BtEntry>, ctxPool: seq<CtxEntry>, seen: seq<Update>) {
    forall j :: 0 <= j < |ctxPool| ==>
      && ctxPool[j].total == CountContext(seen, ctxPool[j].ctx)
      && ctxPool[j].unique == EntriesOf(pool, ctxPool[j].ctx)
  }

  ghost predicate TrainedOn(pool: seq<BtEntry>, ctxPool: seq<CtxEntry>, seen: seq<Update>) {
    PoolOk(pool, seen) && LinksOk(pool) && HeadsOk(pool, ctxPool) && TotalsOk(pool, ctxPool, seen)
  }

  // ----- one update -----

  /** A known pair: its count goes up. */
  function Counted(pool: seq<BtEntry>, i: nat): seq<BtEntry>
    requires i < |pool|
  {
    pool[i := pool[i].(freq := pool[i].freq + 1)]
  }

  lemma EntriesOfSameContexts(p: seq<BtEntry>, q: seq<BtEntry>, c: Context)
    requires |p| == |q| && forall i :: 0 <= i < |p| ==> p[i].ctx == q[i].ctx
    ensures EntriesOf(p, c) == EntriesOf(q, c)
  {
    if p != [] {
      EntriesOfSameContexts(p[..|p| - 1], q[..|q| - 1], c);
    }
  }

  lemma CountedPool(pool: seq<BtEntry>, seen: seq<Update>, i: nat, u: Update)
    requires PoolOk(pool, seen) && i < |pool| && PairKey(pool[i]) == u
    ensures PoolOk(Counted(pool, i), seen + [u])
  {
    var pool', seen' := Counted(pool, i), seen + [u];
    forall k | 0 <= k < |pool'|
      ensures pool'[k].freq == Count(seen', pool'[k].ctx, pool'[k].next)
    {
      CountAppend(seen, u, pool[k].ctx, pool[k].next);
      assert k < i ==> PairKey(pool[k]) != PairKey(pool[i]);
      assert i < k ==> PairKey(pool[i]) != PairKey(pool[k]);
    }
    assert PairKeys(pool') == PairKeys(pool);
    assert u == PairKeys(pool)[i];
  }

  lemma CountedLinks(pool: seq<BtEntry>, i: nat)
    requires LinksOk(pool) && i < |pool|
    ensures LinksOk(Counted(pool, i))
  {
    forall k | 0 <= k < |pool|
      ensures LinkOk(Counted(pool, i), k)
    {
      assert LinkOk(pool, k);
    }
  }

  function Again(e: CtxEntry): CtxEntry {
    e.(total := e.total + 1)
  }

  lemma CountedHeads(pool: seq<BtEntry>, ctxPool: seq<CtxEntry>, i: nat, j: nat)
    requires HeadsOk(pool, ctxPool) && i < |pool| && j < |ctxPool|
    ensures HeadsOk(Counted(pool, i), ctxPool[j := Again(ctxPool[j])])
  {
    var ctxPool' := ctxPool[j := Again(ctxPool[j])];
    assert CtxKeys(ctxPool') == CtxKeys(ctxPool);
    forall k | 0 <= k < |ctxPool'|
      ensures HeadOk(Counted(pool, i), ctxPool'[k])
    {
      assert HeadOk(pool, ctxPool[k]);
    }
  }

  lemma CountedTotals(pool: seq<BtEntry>, ctxPool: seq<CtxEntry>, seen: seq<Update>, i: nat, j: nat, u: Update)
    requires TotalsOk(pool, ctxPool, seen) && i < |pool|
    requires j < |ctxPool| && ctxPool[j].ctx == u.ctx
    requires forall a, b :: 0 <= a < b < |ctxPool| ==> ctxPool[a].ctx != ctxPool[b].ctx
    ensures TotalsOk(Counted(pool, i), ctxPool[j := Again(ctxPool[j])], seen + [u])
  {
    forall k | 0 <= k < |ctxPool|
      ensures CountContext(seen + [u], ctxPool[k].ctx) == ctxPool[k].total + (if k == j then 1 else 0)
      ensures ctxPool[k].unique == EntriesOf(Counted(pool, i), ctxPool[k].ctx)
    {
      CountAppend(seen, u, ctxPool[k].ctx, u.next);
      EntriesOfSameContexts(pool, Counted(pool, i), ctxPool[k].ctx);
    }
  }

  /** A known pair of context entry j is seen again. */
  lemma KnownPair(pool: seq<BtEntry>, ctxPool: seq<CtxEntry>, seen: seq<Update>, i: nat, j: nat, u: Update)
    requires TrainedOn(pool, ctxPool, seen)
    requires i < |pool| && PairKey(pool[i]) == u
    requires j < |ctxPool| && ctxPool[j].ctx == u.ctx
    ensures TrainedOn(Counted(pool, i), ctxPool[j := Again(ctxPool[j])], seen + [u])
  {
    CountedTotals(pool, ctxPool, seen, i, j, u);
    hide PoolOk, LinksOk, HeadsOk, TotalsOk;
    CountedPool(pool, seen, i, u);
    CountedLinks(pool, i);
    CountedHeads(pool, ctxPool, i, j);
  }

  lemma NewPairPool(pool: seq<BtEntry>, seen: seq<Update>, u: Update, link: int)
    requires PoolOk(pool, seen) && u !in PairKeys(pool) && 1 <= |u.ctx| <= MAX_DEPTH
    ensures PoolOk(pool + [BtEntry(u.ctx, u.next, 1, link)], seen + [u])
  {
    var pool', seen' := pool + [BtEntry(u.ctx, u.next, 1, link)], seen + [u];
    assert PairKeys(pool') == PairKeys(pool) + [u];
    forall k | 0 <= k < |pool|
      ensures PairKey(pool[k]) != u
      ensures pool'[k].freq == Count(seen', pool'[k].ctx, pool'[k].next)
    {
      assert PairKeys(pool)[k] == PairKey(pool[k]);
      CountAppend(seen, u, pool[k].ctx, pool[k].next);
    }
    CountSeen(seen, u.ctx, u.next);
    CountAppend(seen, u, u.ctx, u.next);
  }

  /** The context entry of a new pair: the one at j, or a fresh one. */
  function Bumped(e: CtxEntry, first: nat): CtxEntry {
    CtxEntry(e.ctx, e.total + 1, e.unique + 1, first)
  }

  lemma EntriesOfAppend(pool: seq<BtEntry>, e: BtEntry, c: Context)
    ensures EntriesOf(pool + [e], c) == EntriesOf(pool, c) + (if e.ctx == c then 1 else 0)
  {
    assert (pool + [e])[..|pool|] == pool;
  }

  lemma NewLinks(pool: seq<BtEntry>, e: BtEntry)
    requires LinksOk(pool) && LinkOk(pool + [e], |pool|)
    ensures LinksOk(pool + [e])
  {
    forall k | 0 <= k < |pool|
      ensures LinkOk(pool + [e], k)
    {
      assert LinkOk(pool, k);
    }
  }

  lemma NewTotals(pool: seq<BtEntry>, ctxPool: seq<CtxEntry>, seen: seq<Update>, u: Update, e: BtEntry, k: nat)
    requires TotalsOk(pool, ctxPool, seen) && e.ctx == u.ctx && k < |ctxPool|
    ensures var d := if ctxPool[k].ctx == u.ctx then 1 else 0;
      && CountContext(seen + [u], ctxPool[k].ctx) == ctxPool[k].total + d
      && EntriesOf(pool + [e], ctxPool[k].ctx) == ctxPool[k].unique + d
  {
    CountAppend(seen, u, ctxPool[k].ctx, u.next);
    EntriesOfAppend(pool, e, ctxPool[k].ctx);
  }

  /** The new pair e becomes the head of the chain of entry j. */
  lemma NewHead(pool: seq<BtEntry>, ctxPool: seq<CtxEntry>, e: BtEntry, j: nat)
    requires HeadsOk(pool, ctxPool) && j < |ctxPool| && ctxPool[j].ctx == e.ctx
    ensures HeadsOk(pool + [e], ctxPool[j := Bumped(ctxPool[j], |pool|)])
  {
    var pool', ctxPool' := pool + [e], ctxPool[j := Bumped(ctxPool[j], |pool|)];
    assert CtxKeys(ctxPool') == CtxKeys(ctxPool);
    assert CtxKeys(ctxPool)[j] == e.ctx;
    forall k | 0 <= k < |ctxPool'|
      ensures HeadOk(pool', ctxPool'[k])
    {
      assert HeadOk(pool, ctxPool[k]);
      assert k != j ==> ctxPool[k].ctx != e.ctx;
    }
  }

  lemma NewHeadTotals(pool: seq<BtEntry>, ctxPool: seq<CtxEntry>, seen: seq<Update>, u: Update, e: BtEntry, j: nat)
    requires TotalsOk(pool, ctxPool, seen) && e.ctx == u.ctx
    requires j < |ctxPool| && ctxPool[j].ctx == u.ctx
    requires forall a, b :: 0 <= a < b < |ctxPool| ==> ctxPool[a].ctx != ctxPool[b].ctx
    ensures TotalsOk(pool + [e], ctxPool[j := Bumped(ctxPool[j], |pool|)], seen + [u])
  {
    forall k | 0 <= k < |ctxPool|
      ensures CountContext(seen + [u], ctxPool[k].ctx) == ctxPool[k].total + (if k == j then 1 else 0)
      ensures EntriesOf(pool + [e], ctxPool[k].ctx) == ctxPool[k].unique + (if k == j then 1 else 0)
    {
      NewTotals(pool, ctxPool, seen, u, e, k);
    }
  }

  /** A new pair for the known context entry j. */
  lemma NewPairKnownContext(pool: seq<BtEntry>, ctxPool: seq<CtxEntry>, seen: seq<Update>, j: nat, u: Update)
    requires TrainedOn(pool, ctxPool, seen)
    requires u !in PairKeys(pool) && 1 <= |u.ctx| <= MAX_DEPTH
    requires j < |ctxPool| && ctxPool[j].ctx == u.ctx
    ensures TrainedOn(pool + [BtEntry(u.ctx, u.next, 1, ctxPool[j].first)],
                      ctxPool[j := Bumped(ctxPool[j], |pool|)], seen + [u])
  {
    var e := BtEntry(u.ctx, u.next, 1, ctxPool[j].first);
    assert HeadOk(pool, ctxPool[j]);
    NewLinks(pool, e);
    NewHeadTotals(pool, ctxPool, seen, u, e, j);
    hide PoolOk, LinksOk, HeadsOk, TotalsOk;
    NewPairPool(pool, seen, u, ctxPool[j].first);
    NewHead(pool, ctxPool, e, j);
  }

  /** A context without an entry was never seen. */
  lemma {:induction false} FreshContext(pool: seq<BtEntry>, ctxPool: seq<CtxEntry>, seen: seq<Update>, c: Context)
    requires TrainedOn(pool, ctxPool, seen) && c !in CtxKeys(ctxPool)
    ensures forall i :: 0 <= i < |pool| ==> pool[i].ctx != c
    ensures EntriesOf(pool, c) == 0 && CountContext(seen, c) == 0
  {
    forall u | u in seen
      ensures u.ctx != c
    {
      var i :| 0 <= i < |pool| && PairKeys(pool)[i] == u;
      assert pool[i].ctx == u.ctx;
    }
    NoneSeen(seen, c);
    NoEntries(pool, c);
  }

  lemma {:induction false} NoneSeen(seen: seq<Update>, c: Context)
    requires forall u :: u in seen ==> u.ctx != c
    ensures CountContext(seen, c) == 0
  {
    if seen != [] {
      NoneSeen(seen[..|seen| - 1], c);
    }
  }

  lemma {:induction false} NoEntries(pool: seq<BtEntry>, c: Context)
    requires forall i :: 0 <= i < |pool| ==> pool[i].ctx != c
    ensures EntriesOf(pool, c) == 0
  {
    if pool != [] {
      NoEntries(pool[..|pool| - 1], c);
    }
  }

  lemma OpenedHeads(pool: seq<BtEntry>, ctxPool: seq<CtxEntry>, e: BtEntry)
    requires HeadsOk(pool, ctxPool) && e.ctx !in CtxKeys(ctxPool)
    ensures HeadsOk(pool + [e], ctxPool + [CtxEntry(e.ctx, 1, 1, |pool|)])
  {
    var pool', ctxPool' := pool + [e], ctxPool + [CtxEntry(e.ctx, 1, 1, |pool|)];
    assert CtxKeys(ctxPool') == CtxKeys(ctxPool) + [e.ctx];
    forall k | 0 <= k < |ctxPool|
      ensures HeadOk(pool', ctxPool'[k]) && ctxPool[k].ctx != e.ctx
    {
      assert HeadOk(pool, ctxPool[k]);
      assert CtxKeys(ctxPool)[k] == ctxPool[k].ctx;
    }
  }

  lemma OpenedTotals(pool: seq<BtEntry>, ctxPool: seq<CtxEntry>, seen: seq<Update>, u: Update, e: BtEntry)
    requires TotalsOk(pool, ctxPool, seen) && e.ctx == u.ctx && u.ctx !in CtxKeys(ctxPool)
    requires EntriesOf(pool, u.ctx) == 0 && CountContext(seen, u.ctx) == 0
    ensures TotalsOk(pool + [e], ctxPool + [CtxEntry(u.ctx, 1, 1, |pool|)], seen + [u])
  {
    CountAppend(seen, u, u.ctx, u.next);
    EntriesOfAppend(pool, e, u.ctx);
    forall k | 0 <= k < |ctxPool|
      ensures CountContext(seen + [u], ctxPool[k].ctx) == ctxPool[k].total
      ensures EntriesOf(pool + [e], ctxPool[k].ctx) == ctxPool[k].unique
    {
      assert CtxKeys(ctxPool)[k] == ctxPool[k].ctx;
      NewTotals(pool, ctxPool, seen, u, e, k);
    }
  }

  /** A new pair that opens a new context: a chain of one. */
  lemma NewContext(pool: seq<BtEntry>, ctxPool: seq<CtxEntry>, seen: seq<Update>, u: Update)
    requires TrainedOn(pool, ctxPool, seen)
    requires u.ctx !in CtxKeys(ctxPool) && 1 <= |u.ctx| <= MAX_DEPTH
    ensures u !in PairKeys(pool)
    ensures TrainedOn(pool + [BtEntry(u.ctx, u.next, 1, -1)],
                      ctxPool + [CtxEntry(u.ctx, 1, 1, |pool|)], seen + [u])
  {
    var e := BtEntry(u.ctx, u.next, 1, -1);
    FreshContext(pool, ctxPool, seen, u.ctx);
    NewLinks(pool, e);
    assert forall i :: 0 <= i < |pool| ==> PairKeys(pool)[i] != u;
    hide PoolOk, LinksOk, HeadsOk, TotalsOk;
    NewPairPool(pool, seen, u, -1);
    OpenedHeads(pool, ctxPool, e);
    OpenedTotals(pool, ctxPool, seen, u, e);
  }

  // ----- chains -----

  /** The pool indices of a chain, in the order of the links. */
  function Chain(pool: seq<BtEntry>, idx: int): (c: seq<nat>)
    requires LinksOk(pool) && -1 <= idx < |pool|
    decreases idx
  {
    if idx < 0 then [] else
    assert LinkOk(pool, idx);
    [idx] + Chain(pool, pool[idx].ctxNext)
  }

  /** A chain visits strictly descending indices: it is acyclic, and holds exactly its context's entries up to idx. */
  lemma {:induction false} ChainExact(pool: seq<BtEntry>, idx: int, c: Context)
    requires LinksOk(pool) && -1 <= idx < |pool|
    requires idx >= 0 ==> pool[idx].ctx == c
    ensures forall s, t :: 0 <= s < t < |Chain(pool, idx)| ==> Chain(pool, idx)[s] > Chain(pool, idx)[t]
    ensures forall i :: i in Chain(pool, idx) <==> 0 <= i <= idx && pool[i].ctx == c
    decreases idx
  {
    if idx >= 0 {
      assert LinkOk(pool, idx);
      ChainExact(pool, pool[idx].ctxNext, c);
      var rest := Chain(pool, pool[idx].ctxNext);
      assert Chain(pool, idx) == [idx] + rest;
      assert forall s :: 0 <= s < |rest| ==> rest[s] in rest;
    }
  }

  /** The frequency that a walk down a chain records for byte b: that of the last entry with b. */
  function WalkFreq(pool: seq<BtEntry>, path: seq<nat>, b: byte): nat
    requires forall s :: 0 <= s < |path| ==> path[s] < |pool|
  {
    if path == [] then 0
    else
      var e := pool[path[|path| - 1]];
      if e.next == b then e.freq else WalkFreq(pool, path[..|path| - 1], b)
  }

  lemma {:induction false} WalkFreqOf(pool: seq<BtEntry>, path: seq<nat>, b: byte, s: nat)
    requires forall t :: 0 <= t < |path| ==> path[t] < |pool|
    requires s < |path| && pool[path[s]].next == b
    requires forall t :: 0 <= t < |path| && pool[path[t]].next == b ==> path[t] == path[s]
    ensures WalkFreq(pool, path, b) == pool[path[s]].freq
  {
    if pool[path[|path| - 1]].next != b {
      WalkFreqOf(pool, path[..|path| - 1], b, s);
    }
  }

  lemma {:induction false} WalkFreqNone(pool: seq<BtEntry>, path: seq<nat>, b: byte)
    requires forall t :: 0 <= t < |path| ==> path[t] < |pool|
    requires forall t :: 0 <= t < |path| ==> pool[path[t]].next != b
    ensures WalkFreq(pool, path, b) == 0
  {
    if path != [] {
      WalkFreqNone(pool, path[..|path| - 1], b);
    }
  }

  /**
   * What a lookup yields: walking the chain of a context's entry records, for every byte, exactly
   * how often it was seen after the context; the entry's total is the sum.
   */
  lemma ChainCounts(pool: seq<BtEntry>, ctxPool: seq<CtxEntry>, seen: seq<Update>, j: nat, b: byte)
    requires TrainedOn(pool, ctxPool, seen) && j < |ctxPool|
    ensures LinksOk(pool) && 0 <= ctxPool[j].first < |pool|
    ensures forall s :: 0 <= s < |Chain(pool, ctxPool[j].first)| ==> Chain(pool, ctxPool[j].first)[s] < |pool|
    ensures WalkFreq(pool, Chain(pool, ctxPool[j].first), b) == Count(seen, ctxPool[j].ctx, b)
    ensures ctxPool[j].total == SumCounts(seen, ctxPool[j].ctx, 256)
  {
    var c, first := ctxPool[j].ctx, ctxPool[j].first;
    assert HeadOk(pool, ctxPool[j]);
    ChainExact(pool, first, c);
    var path := Chain(pool, first);
    assert forall s :: 0 <= s < |path| ==> path[s] in path;
    CountsAddUp(seen, c);
    CountSeen(seen, c, b);
    if i :| 0 <= i < |pool| && PairKey(pool[i]) == Update(c, b) {
      assert i in path;
      var s :| 0 <= s < |path| && path[s] == i;
      WalkFreqOf(pool, path, b, s);
    } else {
      assert Update(c, b) !in PairKeys(pool);
      WalkFreqNone(pool, path, b);
    }
  }

  /** Chains of different contexts share no entry. */
  lemma ChainsDisjoint(pool: seq<BtEntry>, ctxPool: seq<CtxEntry>, seen: seq<Update>, j: nat, k: nat, i: nat)
    requires TrainedOn(pool, ctxPool, seen) && j < k < |ctxPool|
    requires HeadOk(pool, ctxPool[j]) && HeadOk(pool, ctxPool[k])
    ensures !(i in Chain(pool, ctxPool[j].first) && i in Chain(pool, ctxPool[k].first))
  {
    ChainExact(pool, ctxPool[j].first, ctxPool[j].ctx);
    ChainExact(pool, ctxPool[k].first, ctxPool[k].ctx);
  }
}
