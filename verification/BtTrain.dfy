/** Training the integer context model: two hash tables that grow or refuse, chained pool entries and a Bloom filter. */
module BtTrain {
  import opened Words
  import opened Occurrences
  import opened OpenAddressing
  import opened BtTables
  import opened FixedCapacity
  import Bitwise

  /** The hash functions, left arbitrary: of a context, of a (context, byte) pair, and the second Bloom hash. */
  datatype Hashes = Hashes(ctx: Context -> nat, pair: Update -> nat, second: Context -> nat)

  function BloomSet(bloom: seq<bool>, hs: Hashes, c: Context): (r: seq<bool>)
    requires |bloom| > 0
    ensures |r| == |bloom| && BloomHas(r, hs, c)
    ensures forall d :: BloomHas(bloom, hs, d) ==> BloomHas(r, hs, d)
  {
    bloom[hs.ctx(c) % |bloom| := true][hs.second(c) % |bloom| := true]
  }

  /** Both bits of the context are set. */
  predicate BloomHas(bloom: seq<bool>, hs: Hashes, c: Context) {
    |bloom| > 0 && bloom[hs.ctx(c) % |bloom|] && bloom[hs.second(c) % |bloom|]
  }

  /** Context c sets bit i of a filter of n bits. */
  predicate Marks(hs: Hashes, c: Context, n: nat, i: nat)
    requires n > 0
  {
    i == hs.ctx(c) % n || i == hs.second(c) % n
  }

  /** A bit is set exactly when a context that was observed sets it. */
  ghost predicate BloomExact(bloom: seq<bool>, hs: Hashes, seen: seq<Update>) {
    |bloom| > 0
    && forall i: nat :: i < |bloom| ==>
        (bloom[i] <==> exists k: nat :: k < |seen| && Marks(hs, seen[k].ctx, |bloom|, i))
  }

  /** Setting the bits of one more observed context. */
  lemma BloomStep(bloom: seq<bool>, hs: Hashes, seen: seq<Update>, u: Update)
    requires BloomExact(bloom, hs, seen)
    ensures BloomExact(BloomSet(bloom, hs, u.ctx), hs, seen + [u])
  {
    var r, n := BloomSet(bloom, hs, u.ctx), |bloom|;
    forall i: nat | i < n
      ensures r[i] <==> exists k: nat :: k < |seen + [u]| && Marks(hs, (seen + [u])[k].ctx, n, i)
    {
      if Marks(hs, u.ctx, n, i) {
        assert (seen + [u])[|seen|] == u;
      } else if bloom[i] {
        var k: nat :| k < |seen| && Marks(hs, seen[k].ctx, n, i);
        assert (seen + [u])[k] == seen[k];
      }
    }
  }

  lemma NothingTrained()
    ensures TrainedOn([], [], []) && PairKeys([]) == [] && CtxKeys([]) == []
  {
  }

  /** What became of a pair: counted again, stored as a new entry, or refused by a full pool. */
  datatype Stored = Known | Added | Refused

  /** A build that grows misses nothing; one of fixed capacity misses only what its full pools refused. */
  ghost predicate CountsHold(dynamic: bool, pool: seq<BtEntry>, poolCap: nat, ctxPool: seq<CtxEntry>, ctxCap: nat,
                             seen: seq<Update>) {
    if dynamic then TrainedOn(pool, ctxPool, seen) else PartlyTrained(pool, poolCap, ctxPool, ctxCap, seen)
  }

  /** How many indices a nonnegative int can hold: capacities start below it, and grow only when the pool is full. */
  const INT_COUNT := 0x8000_0000

  class BtV3 {
    const dynamic: bool
    const hashes: Hashes
    var pool: seq<BtEntry>
    var poolCap: nat
    var btSlot: seq<int>
    var ctxPool: seq<CtxEntry>
    var ctxCap: nat
    var ctxSlot: seq<int>
    var bloom: seq<bool>
    var window: seq<byte>
    var frozen: bool
    ghost var btPos: seq<nat>
    ghost var ctxPos: seq<nat>
    ghost var seen: seq<Update>   // every observation made so far

    /** The pair table indexes the pool and is at most half full. */
    ghost predicate BtIndexOk()
      reads `pool, `poolCap, `btSlot, `btPos
    {
      Indexed(btSlot, PairKeys(pool), hashes.pair, btPos) && |pool| <= poolCap && |btSlot| == 2 * poolCap
    }

    ghost predicate CtxIndexOk()
      reads `ctxPool, `ctxCap, `ctxSlot, `ctxPos
    {
      && Indexed(ctxSlot, CtxKeys(ctxPool), hashes.ctx, ctxPos) && |ctxPool| <= ctxCap
      && |ctxSlot| == 2 * ctxCap && Bitwise.IsPow2(ctxCap)
      && (ctxCap <= INT_COUNT || ctxCap <= 2 * |ctxPool|)
    }

    /** The Bloom filter has no false negatives. */
    ghost predicate BloomOk()
      reads `ctxPool, `bloom
    {
      |bloom| > 0 && forall j :: 0 <= j < |ctxPool| ==> BloomHas(bloom, hashes, ctxPool[j].ctx)
    }

    ghost predicate Valid()
      reads this
    {
      && BtIndexOk() && CtxIndexOk() && BloomOk()
      && CountsHold(dynamic, pool, poolCap, ctxPool, ctxCap, seen)
      && BloomExact(bloom, hashes, seen)
      && |window| <= MAX_DEPTH
    }

    constructor (dynamic: bool, hashes: Hashes, poolCap0: nat, ctxCap0: nat, bloomBits: nat)
      requires poolCap0 > 0 && Bitwise.IsPow2(ctxCap0) && ctxCap0 <= INT_COUNT && bloomBits > 0
      ensures Valid() && seen == [] && window == [] && !frozen && this.hashes == hashes && this.dynamic == dynamic
    {
      this.dynamic, this.hashes := dynamic, hashes;
      pool, poolCap, btSlot := [], poolCap0, seq(2 * poolCap0, _ => -1);
      ctxPool, ctxCap, ctxSlot := [], ctxCap0, seq(2 * ctxCap0, _ => -1);
      bloom := seq(bloomBits, _ => false);
      window, frozen := [], false;
      btPos, ctxPos, seen := [], [], [];
      new;
      NothingTrained();
      NothingPartlyTrained(poolCap0, ctxCap0);
      hide CountsHold, PartlyTrained, TrainedOn, Indexed, BloomHas, PairKeys, CtxKeys;
      EmptyIndexed(btSlot, hashes.pair);
      EmptyIndexed(ctxSlot, hashes.ctx);
    }

    /** Doubles the pool and the pair table and places every entry again; a build of fixed capacity cannot. */
    method BtGrow() returns (ok: bool)
      requires BtIndexOk()
      modifies this`poolCap, this`btSlot, this`btPos
      ensures BtIndexOk() && ok == dynamic
      ensures poolCap == if dynamic then 2 * old(poolCap) else old(poolCap)
    {
      if !dynamic {
        return false;
      }
      btSlot, btPos := Rehash(PairKeys(pool), hashes.pair, 2 * |btSlot|);
      poolCap := poolCap * 2;
      return true;
    }

    method CtxGrow() returns (ok: bool)
      requires CtxIndexOk() && |ctxPool| == ctxCap
      modifies this`ctxCap, this`ctxSlot, this`ctxPos
      ensures CtxIndexOk() && ok == dynamic
      ensures ctxCap == if dynamic then 2 * old(ctxCap) else old(ctxCap)
    {
      if !dynamic {
        return false;
      }
      TwicePow2(ctxCap);
      hide Indexed, Bitwise.IsPow2;
      ctxSlot, ctxPos := Rehash(CtxKeys(ctxPool), hashes.ctx, 2 * |ctxSlot|);
      ctxCap := ctxCap * 2;
      return true;
    }

    /** Counts a known pair, or adds a new unlinked entry, growing or refusing when the pool is full. */
    method CountPair(u: Update) returns (r: Stored, idx: nat)
      requires BtIndexOk()
      modifies this`pool, this`poolCap, this`btSlot, this`btPos
      ensures BtIndexOk() && (!dynamic ==> poolCap == old(poolCap))
      ensures r.Added? ==> u !in PairKeys(old(pool)) && idx == |old(pool)| && (!dynamic ==> idx < poolCap)
                           && pool == old(pool) + [BtEntry(u.ctx, u.next, 1, -1)]
      ensures r.Known? ==> idx < |old(pool)| && PairKey(old(pool)[idx]) == u && pool == Counted(old(pool), idx)
      ensures r.Refused? ==> !dynamic && u !in PairKeys(old(pool)) && |pool| == poolCap && pool == old(pool)
    {
      while true
        invariant BtIndexOk() && pool == old(pool) && (!dynamic ==> poolCap == old(poolCap))
        decreases if |pool| >= poolCap then 1 else 0
      {
        EmptyExists(btSlot, PairKeys(pool), hashes.pair, btPos);
        var h, s := Seek(btSlot, PairKeys(pool), hashes.pair, u);
        SeekIsFirst(btSlot, PairKeys(pool), hashes.pair, btPos, u, h, s);
        if s < 0 {
          if |pool| >= poolCap {
            var grown := BtGrow();
            if !grown {
              return Refused, 0;
            }
          } else {
            idx := |pool|;
            AddPair(u, h);
            return Added, idx;
          }
        } else {
          assert PairKeys(Counted(pool, s)) == PairKeys(pool);
          pool := Counted(pool, s);
          return Known, s;
        }
      }
    }

    method AddPair(u: Update, h: nat)
      requires BtIndexOk() && |pool| < poolCap && h < |btSlot| && btSlot[h] < 0
      requires InRange(btSlot, PairKeys(pool)) && Passed(btSlot, PairKeys(pool), u, Home(hashes.pair, u, |btSlot|), h)
      modifies this`pool, this`btSlot, this`btPos
      ensures BtIndexOk() && pool == old(pool) + [BtEntry(u.ctx, u.next, 1, -1)]
    {
      InsertIndexed(btSlot, PairKeys(pool), hashes.pair, btPos, u, h);
      btSlot := btSlot[h := |pool|];
      pool := pool + [BtEntry(u.ctx, u.next, 1, -1)];
      btPos := btPos + [h];
      assert PairKeys(pool) == PairKeys(old(pool)) + [u];
    }

    /** The entry of a context, made if there is none, growing when the pool is full; -1 if it cannot be made. */
    method GetContext(c: Context) returns (j: int)
      requires CtxIndexOk()
      modifies this`ctxPool, this`ctxCap, this`ctxSlot, this`ctxPos
      ensures CtxIndexOk() && (!dynamic ==> ctxCap == old(ctxCap))
      ensures j >= 0 ==> j < |ctxPool| && ctxPool[j].ctx == c
      ensures j >= 0 ==> if c in CtxKeys(old(ctxPool)) then ctxPool == old(ctxPool)
                         else ctxPool == old(ctxPool) + [CtxEntry(c, 0, 0, -1)]
      ensures j < 0 ==> !dynamic && c !in CtxKeys(old(ctxPool)) && |ctxPool| == ctxCap && ctxPool == old(ctxPool)
    {
      while true
        invariant CtxIndexOk() && ctxPool == old(ctxPool) && (!dynamic ==> ctxCap == old(ctxCap))
        decreases if |ctxPool| >= ctxCap then 1 else 0
      {
        EmptyExists(ctxSlot, CtxKeys(ctxPool), hashes.ctx, ctxPos);
        var h, s := Seek(ctxSlot, CtxKeys(ctxPool), hashes.ctx, c);
        SeekIsFirst(ctxSlot, CtxKeys(ctxPool), hashes.ctx, ctxPos, c, h, s);
        if s < 0 {
          if |ctxPool| >= ctxCap {
            var grown := CtxGrow();
            if !grown {
              return -1;
            }
          } else {
            j := |ctxPool|;
            AddContext(c, h);
            return;
          }
        } else {
          assert CtxKeys(ctxPool)[s] == c;
          return s;
        }
      }
    }

    method AddContext(c: Context, h: nat)
      requires CtxIndexOk() && |ctxPool| < ctxCap && h < |ctxSlot| && ctxSlot[h] < 0
      requires InRange(ctxSlot, CtxKeys(ctxPool))
      requires Passed(ctxSlot, CtxKeys(ctxPool), c, Home(hashes.ctx, c, |ctxSlot|), h)
      modifies this`ctxPool, this`ctxSlot, this`ctxPos
      ensures CtxIndexOk() && ctxPool == old(ctxPool) + [CtxEntry(c, 0, 0, -1)]
    {
      InsertIndexed(ctxSlot, CtxKeys(ctxPool), hashes.ctx, ctxPos, c, h);
      ctxSlot := ctxSlot[h := |ctxPool|];
      ctxPool := ctxPool + [CtxEntry(c, 0, 0, -1)];
      ctxPos := ctxPos + [h];
      assert CtxKeys(ctxPool) == CtxKeys(old(ctxPool)) + [c];
    }

    /** A pair that was seen but is not stored was refused, and stays so. */
    ghost predicate Missing(u: Update)
      reads `pool, `seen
    {
      u in seen && u !in PairKeys(pool)
    }

    /** One observation; contexts that are empty or longer than 24 bytes are ignored. */
    method Update(u: Update)
      requires Valid()
      modifies this`pool, this`poolCap, this`btSlot, this`btPos, this`ctxPool, this`ctxCap, this`ctxSlot, this`ctxPos
      modifies this`bloom, this`seen
      ensures Valid() && seen == if 1 <= |u.ctx| <= MAX_DEPTH then old(seen) + [u] else old(seen)
      ensures forall v :: old(Missing(v)) ==> Missing(v)
    {
      if |u.ctx| == 0 || |u.ctx| > MAX_DEPTH {
        return;
      }
      CountUpdate(u);
    }

    method CountUpdate(u: Update)
      requires Valid() && 1 <= |u.ctx| <= MAX_DEPTH
      modifies this`pool, this`poolCap, this`btSlot, this`btPos, this`ctxPool, this`ctxCap, this`ctxSlot, this`ctxPos
      modifies this`bloom, this`seen
      ensures Valid() && seen == old(seen) + [u]
      ensures forall v :: old(Missing(v)) ==> Missing(v)
    {
      hide CountsHold, Indexed, BloomHas, BloomExact;
      ghost var pool0, ctxPool0, seen0 := pool, ctxPool, seen;
      ghost var poolCap0, ctxCap0 := poolCap, ctxCap;
      BloomStep(bloom, hashes, seen, u);
      bloom := BloomSet(bloom, hashes, u.ctx);
      var r, idx := CountPair(u);
      seen := seen + [u];
      if r.Refused? {
        RefusalHolds(pool, poolCap, ctxPool, ctxCap, seen0, u);
      } else {
        ghost var j := CountInContext(u, r.Added?, idx);
        UpdateHolds(dynamic, pool0, poolCap0, ctxPool0, ctxCap0, seen0, u, r, idx, j, pool, poolCap, ctxPool, ctxCap);
        StillMissing(dynamic, pool0, poolCap0, ctxPool0, ctxCap0, seen0, u, r, idx, pool);
      }
    }

    /** The context's side of an observation; nothing if the context's entry was refused. */
    method CountInContext(u: Update, isNew: bool, idx: nat) returns (ghost j: int)
      requires BtIndexOk() && CtxIndexOk() && BloomOk() && BloomHas(bloom, hashes, u.ctx) && idx < |pool|
      modifies this`pool, this`ctxPool, this`ctxCap, this`ctxSlot, this`ctxPos
      ensures BtIndexOk() && CtxIndexOk() && BloomOk() && (!dynamic ==> ctxCap == old(ctxCap))
      ensures j < 0 ==> !dynamic && u.ctx !in CtxKeys(old(ctxPool)) && |ctxPool| == ctxCap
                        && ctxPool == old(ctxPool) && pool == old(pool)
      ensures j >= 0 ==>
        var ctxPool1 := if u.ctx in CtxKeys(old(ctxPool)) then old(ctxPool)
                        else old(ctxPool) + [CtxEntry(u.ctx, 0, 0, -1)];
        && j < |ctxPool1| && ctxPool1[j].ctx == u.ctx && |ctxPool1| <= ctxCap
        && pool == (if isNew then old(pool)[idx := old(pool)[idx].(ctxNext := ctxPool1[j].first)] else old(pool))
        && ctxPool == ctxPool1[j := if isNew then Bumped(ctxPool1[j], idx) else Again(ctxPool1[j])]
    {
      hide Indexed, BloomHas;
      var k := GetContext(u.ctx);
      j := k;
      if k >= 0 {
        Observe(isNew, idx, k);
      }
    }

    /** The counters of context entry j, and, for a new pair, its place at the head of the chain. */
    method Observe(isNew: bool, idx: nat, j: nat)
      requires BtIndexOk() && CtxIndexOk() && idx < |pool| && j < |ctxPool|
      modifies this`pool, this`ctxPool
      ensures BtIndexOk() && CtxIndexOk() && |ctxPool| == |old(ctxPool)|
      ensures forall k :: 0 <= k < |ctxPool| ==> ctxPool[k].ctx == old(ctxPool)[k].ctx
      ensures pool == if isNew then old(pool)[idx := old(pool)[idx].(ctxNext := old(ctxPool)[j].first)] else old(pool)
      ensures ctxPool == old(ctxPool)[j := if isNew then Bumped(old(ctxPool)[j], idx) else Again(old(ctxPool)[j])]
    {
      hide Indexed;
      var e := ctxPool[j];
      if isNew {
        pool := pool[idx := pool[idx].(ctxNext := e.first)];
        ctxPool := ctxPool[j := Bumped(e, idx)];
      } else {
        ctxPool := ctxPool[j := Again(e)];
      }
      assert PairKeys(pool) == PairKeys(old(pool));
      assert CtxKeys(ctxPool) == CtxKeys(old(ctxPool));
    }

    /** Training on one byte: an observation for every suffix of the window, unless frozen; the window moves on. */
    method Train(b: byte)
      requires Valid()
      modifies this
      ensures Valid() && window == Push(old(window), b) && frozen == old(frozen)
      ensures seen == if frozen then old(seen) else old(seen) + SuffixUpdates(old(window), b, |old(window)|)
      ensures forall v :: old(Missing(v)) ==> Missing(v)
      ensures frozen ==> pool == old(pool) && ctxPool == old(ctxPool) && ctxSlot == old(ctxSlot) && bloom == old(bloom)
    {
      hide CountsHold, Indexed, BloomHas, BloomExact;
      if !frozen {
        TrainSuffixes(b);
      }
      window := Push(window, b);
    }

    lemma WindowFits()
      requires Valid()
      ensures |window| <= MAX_DEPTH
    {
    }

    method TrainSuffixes(b: byte)
      requires Valid() && !frozen
      modifies this`pool, this`poolCap, this`btSlot, this`btPos, this`ctxPool, this`ctxCap, this`ctxSlot, this`ctxPos
      modifies this`bloom, this`seen
      ensures Valid() && seen == old(seen) + SuffixUpdates(window, b, |window|)
      ensures forall v :: old(Missing(v)) ==> Missing(v)
    {
      hide Valid, Missing;
      WindowFits();
      var n := 0;
      while n < |window| && n < MAX_DEPTH
        invariant 0 <= n <= |window| && Valid()
        invariant seen == old(seen) + SuffixUpdates(window, b, n)
        invariant forall v :: old(Missing(v)) ==> Missing(v)
      {
        n := n + 1;
        Update(Occurrences.Update(window[|window| - n..], b));
      }
    }

    /** The model stands at the end of the text h. */
    ghost predicate TrainedTo(h: seq<byte>)
      reads this
    {
      Valid() && seen == TextUpdates(h) && window == WindowOf(h) && !frozen
    }

    method TrainNext(ghost h: seq<byte>, b: byte)
      requires TrainedTo(h)
      modifies this
      ensures TrainedTo(h + [b])
    {
      hide Valid, TextUpdates, WindowOf, SuffixUpdates, Occurrences.Push;
      TextStep(h, b);
      Train(b);
    }

    /** Training a fresh model on a corpus, byte by byte. */
    method TrainCorpus(corpus: seq<byte>)
      requires Valid() && seen == [] && window == [] && !frozen
      modifies this
      ensures Valid() && seen == TextUpdates(corpus) && window == WindowOf(corpus)
    {
      hide Valid;
      for i := 0 to |corpus|
        invariant TrainedTo(corpus[..i])
      {
        assert corpus[..i + 1] == corpus[..i] + [corpus[i]];
        hide *;
        TrainNext(corpus[..i], corpus[i]);
      }
      assert corpus[..|corpus|] == corpus;
    }
  }

  lemma TwicePow2(n: nat)
    requires Bitwise.IsPow2(n)
    ensures Bitwise.IsPow2(n * 2)
  {
    assert n * 2 / 2 == n;
  }

  lemma TextStep(front: seq<byte>, b: byte)
    ensures WindowOf(front + [b]) == Push(WindowOf(front), b)
    ensures TextUpdates(front + [b]) == TextUpdates(front) + SuffixUpdates(WindowOf(front), b, |WindowOf(front)|)
  {
    assert (front + [b])[..|front|] == front;
    WindowPush(front, b);
  }

  lemma EntryIsKeyed(ctxPool: seq<CtxEntry>, j: nat, c: Context)
    ensures j < |ctxPool| && ctxPool[j].ctx == c ==> c in CtxKeys(ctxPool)
  {
    if j < |ctxPool| {
      assert CtxKeys(ctxPool)[j] == ctxPool[j].ctx;
    }
  }

  /** The three cases of an update keep the training invariant. */
  lemma UpdateKeeps(pool: seq<BtEntry>, ctxPool: seq<CtxEntry>, seen: seq<Update>, u: Update,
                    isNew: bool, idx: nat, j: nat, pool': seq<BtEntry>, ctxPool': seq<CtxEntry>)
    requires TrainedOn(pool, ctxPool, seen) && 1 <= |u.ctx| <= MAX_DEPTH
    requires if isNew then u !in PairKeys(pool) && idx == |pool|
             else idx < |pool| && PairKey(pool[idx]) == u && pool' == Counted(pool, idx)
    requires var ctxPool1 := if u.ctx in CtxKeys(ctxPool) then ctxPool else ctxPool + [CtxEntry(u.ctx, 0, 0, -1)];
      && j < |ctxPool1| && ctxPool1[j].ctx == u.ctx
      && (isNew ==> pool' == pool + [BtEntry(u.ctx, u.next, 1, ctxPool1[j].first)]
                    && ctxPool' == ctxPool1[j := Bumped(ctxPool1[j], idx)])
      && (!isNew ==> ctxPool' == ctxPool1[j := Again(ctxPool1[j])])
    ensures TrainedOn(pool', ctxPool', seen + [u])
  {
    hide TrainedOn;
    if u.ctx in CtxKeys(ctxPool) {
      if isNew {
        NewPairKnownContext(pool, ctxPool, seen, j, u);
      } else {
        KnownPair(pool, ctxPool, seen, idx, j, u);
      }
    } else {
      EntryIsKeyed(ctxPool, j, u.ctx);
      assert ctxPool' == ctxPool + [if isNew then CtxEntry(u.ctx, 1, 1, idx) else CtxEntry(u.ctx, 1, 0, -1)];
      assert !isNew ==> PairKeys(pool)[idx] == u;
      NewContext(pool, ctxPool, seen, u);
    }
  }

  lemma RefusalHolds(pool: seq<BtEntry>, poolCap: nat, ctxPool: seq<CtxEntry>, ctxCap: nat, seen: seq<Update>,
                     u: Update)
    requires CountsHold(false, pool, poolCap, ctxPool, ctxCap, seen) && u !in PairKeys(pool) && |pool| == poolCap
    ensures CountsHold(false, pool, poolCap, ctxPool, ctxCap, seen + [u])
  {
    hide PartlyTrained;
    PairRefused(pool, poolCap, ctxPool, ctxCap, seen, u);
  }

  /** A stored pair in a build of either kind; j < 0 when the context's entry was refused. */
  lemma UpdateHolds(dynamic: bool, pool: seq<BtEntry>, poolCap: nat, ctxPool: seq<CtxEntry>, ctxCap: nat,
                    seen: seq<Update>, u: Update, r: Stored, idx: nat, j: int,
                    pool': seq<BtEntry>, poolCap': nat, ctxPool': seq<CtxEntry>, ctxCap': nat)
    requires CountsHold(dynamic, pool, poolCap, ctxPool, ctxCap, seen) && 1 <= |u.ctx| <= MAX_DEPTH && !r.Refused?
    requires !dynamic ==> poolCap' == poolCap && ctxCap' == ctxCap
    requires r.Added? ==> u !in PairKeys(pool) && idx == |pool| && (!dynamic ==> idx < poolCap)
    requires r.Known? ==> idx < |pool| && PairKey(pool[idx]) == u && pool' == Counted(pool, idx)
    requires j < 0 ==> !dynamic && u.ctx !in CtxKeys(ctxPool) && |ctxPool| == ctxCap && ctxPool' == ctxPool
                       && (r.Added? ==> pool' == pool + [BtEntry(u.ctx, u.next, 1, -1)])
    requires j >= 0 ==>
      var ctxPool1 := if u.ctx in CtxKeys(ctxPool) then ctxPool else ctxPool + [CtxEntry(u.ctx, 0, 0, -1)];
      && j < |ctxPool1| && ctxPool1[j].ctx == u.ctx && (!dynamic ==> |ctxPool1| <= ctxCap)
      && (r.Added? ==> pool' == pool + [BtEntry(u.ctx, u.next, 1, ctxPool1[j].first)]
                       && ctxPool' == ctxPool1[j := Bumped(ctxPool1[j], idx)])
      && (r.Known? ==> ctxPool' == ctxPool1[j := Again(ctxPool1[j])])
    ensures CountsHold(dynamic, pool', poolCap', ctxPool', ctxCap', seen + [u])
  {
    hide TrainedOn;
    if dynamic {
      UpdateKeeps(pool, ctxPool, seen, u, r.Added?, idx, j, pool', ctxPool');
    } else if r.Known? {
      KnownPresent(pool, poolCap, ctxPool, ctxCap, seen, u, idx);
      hide PartlyTrained;
      PairCounted(pool, poolCap, ctxPool, ctxCap, seen, u, idx, j);
    } else if u.ctx in CtxKeys(ctxPool) {
      hide PartlyTrained;
      PairLinked(pool, poolCap, ctxPool, ctxCap, seen, u, j);
    } else {
      if j >= 0 {
        EntryIsKeyed(ctxPool, j, u.ctx);
      }
      hide PartlyTrained;
      PairOpens(pool, poolCap, ctxPool, ctxCap, seen, u, j >= 0);
      assert j >= 0 ==> ctxPool' == ctxPool + [CtxEntry(u.ctx, 1, 1, idx)];
    }
  }

  /** Only a pool that is not full takes a new pair, and then no pair that was seen is missing. */
  lemma StillMissing(dynamic: bool, pool: seq<BtEntry>, poolCap: nat, ctxPool: seq<CtxEntry>, ctxCap: nat,
                     seen: seq<Update>, u: Update, r: Stored, idx: nat, pool': seq<BtEntry>)
    requires CountsHold(dynamic, pool, poolCap, ctxPool, ctxCap, seen) && !r.Refused?
    requires r.Added? ==> idx == |pool| && (!dynamic ==> idx < poolCap)
    requires r.Known? ==> idx < |pool| && pool' == Counted(pool, idx)
    ensures forall v :: v in seen && v !in PairKeys(pool) ==> v !in PairKeys(pool')
  {
    hide LinksOk, HeadsOk, TotalsOk, PairsExact, HeadsExact, SumsExact;
    if r.Known? {
      assert PairKeys(pool') == PairKeys(pool);
    }
  }

  /** A stored pair whose context has no entry met a full context pool. */
  lemma KnownPresent(pool: seq<BtEntry>, poolCap: nat, ctxPool: seq<CtxEntry>, ctxCap: nat, seen: seq<Update>,
                     u: Update, idx: nat)
    requires PartlyTrained(pool, poolCap, ctxPool, ctxCap, seen) && idx < |pool| && PairKey(pool[idx]) == u
    ensures u.ctx in CtxKeys(ctxPool) || |ctxPool| == ctxCap
  {
  }
}
