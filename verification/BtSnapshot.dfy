/** Read-only tables as a prior carries them: validation before use, and lookup of a context. */
module BtSnapshot {
  import opened Words
  import opened Occurrences
  import opened OpenAddressing
  import opened BtTables
  import opened FixedCapacity
  import BtTrain
  import opened Bitwise
  import opened ReaderProbe

  /** Sizes compiled into a build; a snapshot of another build is refused. */
  datatype Signature = Signature(btEntrySize: nat, ctxEntrySize: nat, maxDepth: nat, bloomBits: nat, pres: nat,
                                 bloomBytes: nat)

  datatype Snapshot = Snapshot(pool: seq<BtEntry>, ctxPool: seq<CtxEntry>, ctxSlot: seq<int>, bloom: seq<bool>)

  // ----- paths -----

  /** path lists the pool indices met from start until a negative link. */
  ghost predicate IsPath(pool: seq<BtEntry>, start: int, path: seq<nat>)
    decreases |path|
  {
    if path == [] then start < 0
    else 0 <= start < |pool| && path[0] == start && IsPath(pool, pool[start].ctxNext, path[1..])
  }

  lemma {:induction false} PathUnique(pool: seq<BtEntry>, start: int, p: seq<nat>, q: seq<nat>)
    requires IsPath(pool, start, p) && IsPath(pool, start, q)
    ensures p == q
    decreases |p|
  {
    if p != [] && q != [] {
      PathUnique(pool, pool[start].ctxNext, p[1..], q[1..]);
      assert p == [p[0]] + p[1..] && q == [q[0]] + q[1..];
    }
  }

  lemma {:induction false} PathInRange(pool: seq<BtEntry>, start: int, p: seq<nat>)
    requires IsPath(pool, start, p)
    ensures forall t :: 0 <= t < |p| ==> p[t] < |pool|
    decreases |p|
  {
    if p != [] {
      PathInRange(pool, pool[start].ctxNext, p[1..]);
      assert p == [p[0]] + p[1..];
    }
  }

  /** The rest of a path from its k-th entry is the path of that entry. */
  lemma {:induction false} PathSuffix(pool: seq<BtEntry>, start: int, p: seq<nat>, k: nat)
    requires IsPath(pool, start, p) && k < |p|
    ensures IsPath(pool, p[k], p[k..])
    decreases |p|
  {
    if k > 0 {
      PathSuffix(pool, pool[start].ctxNext, p[1..], k - 1);
      assert p[1..][k - 1..] == p[k..];
    }
  }

  /** A finite walk never meets an entry twice. */
  lemma PathNoRepeat(pool: seq<BtEntry>, start: int, p: seq<nat>, s: nat, t: nat)
    requires IsPath(pool, start, p) && s < t < |p|
    ensures p[s] != p[t]
  {
    if p[s] == p[t] {
      PathSuffix(pool, start, p, s);
      PathSuffix(pool, start, p, t);
      PathUnique(pool, p[s], p[s..], p[t..]);
    }
  }

  /** The entries met so far, then idx: the beginning of any path from start. */
  ghost predicate Walked(pool: seq<BtEntry>, start: int, done: seq<nat>, idx: int)
    decreases |done|
  {
    if done == [] then idx == start
    else 0 <= start < |pool| && done[0] == start && Walked(pool, pool[start].ctxNext, done[1..], idx)
  }

  lemma {:induction false} WalkOn(pool: seq<BtEntry>, start: int, done: seq<nat>, idx: int)
    requires Walked(pool, start, done, idx) && 0 <= idx < |pool|
    ensures Walked(pool, start, done + [idx], pool[idx].ctxNext)
    decreases |done|
  {
    if done == [] {
      assert (done + [idx])[1..] == [];
    } else {
      WalkOn(pool, pool[start].ctxNext, done[1..], idx);
      assert (done + [idx])[1..] == done[1..] + [idx];
    }
  }

  lemma {:induction false} WalkEnds(pool: seq<BtEntry>, start: int, done: seq<nat>, idx: int)
    requires Walked(pool, start, done, idx) && idx < 0
    ensures IsPath(pool, start, done)
    decreases |done|
  {
    if done != [] {
      WalkEnds(pool, pool[start].ctxNext, done[1..], idx);
    }
  }

  lemma {:induction false} WalkedOfPath(pool: seq<BtEntry>, start: int, done: seq<nat>, idx: int, p: seq<nat>)
    requires Walked(pool, start, done, idx) && IsPath(pool, start, p)
    ensures done <= p && (if idx < 0 then p == done else |done| < |p| && p[|done|] == idx)
    decreases |done|
  {
    if done != [] {
      WalkedOfPath(pool, pool[start].ctxNext, done[1..], idx, p[1..]);
      assert p == [p[0]] + p[1..] && done == [done[0]] + done[1..];
    }
  }

  // ----- validation -----

  ghost predicate SlotsOk(s: Snapshot) {
    IsPow2(|s.ctxSlot|) && (forall x :: 0 <= x < |s.ctxSlot| ==> s.ctxSlot[x] < |s.ctxPool|) && HasEmpty(s.ctxSlot)
  }

  ghost predicate ContextsOk(s: Snapshot) {
    forall j :: 0 <= j < |s.ctxPool| ==> |s.ctxPool[j].ctx| <= MAX_DEPTH && s.ctxPool[j].first < |s.pool|
  }

  ghost predicate FieldsOk(s: Snapshot) {
    && ContextsOk(s)
    && (forall i :: 0 <= i < |s.pool| ==> |s.pool[i].ctx| <= MAX_DEPTH && s.pool[i].ctxNext < |s.pool|)
  }

  /** Every context's chain ends, and no entry lies on two chains. */
  ghost predicate ChainsApart(s: Snapshot, paths: seq<seq<nat>>) {
    && |paths| <= |s.ctxPool|
    && (forall j :: 0 <= j < |paths| ==> IsPath(s.pool, s.ctxPool[j].first, paths[j]))
    && (forall j, k, i :: 0 <= j < k < |paths| && i in paths[k] ==> i !in paths[j])
  }

  /** What a snapshot must satisfy to be used, said without reference to how it is checked. */
  ghost predicate Acceptable(s: Snapshot, sig: Signature, build: Signature) {
    && sig == build
    && SlotsOk(s) && FieldsOk(s)
    && exists paths :: |paths| == |s.ctxPool| && ChainsApart(s, paths)
  }

  /** Which of the three tables stand at addresses that their structures and ints may be read from. */
  datatype Alignment = Alignment(pool: bool, ctxPool: bool, ctxSlot: bool)

  datatype Verdict = Accepted | Refused | Misread

  /**
   * Validation gets as far as reading a table that is not aligned: first the slots, then the contexts, then the
   * pool.
   */
  ghost predicate Misreads(s: Snapshot, sig: Signature, build: Signature, al: Alignment) {
    && sig == build && IsPow2(|s.ctxSlot|)
    && (!al.ctxSlot
        || (SlotsOk(s)
            && ((!al.ctxPool && s.ctxPool != []) || (ContextsOk(s) && !al.pool && s.pool != []))))
  }

  /** Acceptable tables are all read, as far as they have entries. */
  lemma AcceptableMisreads(s: Snapshot, build: Signature, al: Alignment)
    requires Acceptable(s, build, build)
    ensures Misreads(s, build, build, al)
       <==> !al.ctxSlot || (!al.ctxPool && s.ctxPool != []) || (!al.pool && s.pool != [])
  {
  }

  function Unmarked(marks: seq<bool>): nat {
    if marks == [] then 0 else Unmarked(marks[..|marks| - 1]) + (if marks[|marks| - 1] then 0 else 1)
  }

  lemma {:induction false} MarkOne(marks: seq<bool>, i: nat)
    requires i < |marks| && !marks[i]
    ensures Unmarked(marks[i := true]) == Unmarked(marks) - 1
  {
    var n := |marks| - 1;
    if i < n {
      MarkOne(marks[..n], i);
      assert marks[i := true][..n] == marks[..n][i := true];
    } else {
      assert marks[i := true][..n] == marks[..n];
    }
  }

  /** Walks one chain, marking its entries; refuses on meeting a mark.  Terminates whatever the links are. */
  method WalkChain(pool: seq<BtEntry>, start: int, marks: array<bool>) returns (ok: bool, ghost path: seq<nat>)
    requires marks.Length == |pool| && start < |pool|
    requires forall i :: 0 <= i < |pool| ==> pool[i].ctxNext < |pool|
    modifies marks
    ensures ok ==> IsPath(pool, start, path) && (forall i :: i in path ==> i < |pool| && !old(marks[..])[i])
                   && (forall i :: 0 <= i < |pool| ==> (marks[i] <==> old(marks[..])[i] || i in path))
    ensures !ok ==> forall p :: IsPath(pool, start, p) ==> exists i :: i in p && i < |pool| && old(marks[..])[i]
  {
    ghost var marks0 := marks[..];
    var idx := start;
    path := [];
    while idx >= 0
      invariant idx < |pool| && Walked(pool, start, path, idx)
      invariant forall i :: i in path ==> i < |pool| && !marks0[i]
      invariant forall i :: 0 <= i < |pool| ==> (marks[i] <==> marks0[i] || i in path)
      decreases Unmarked(marks[..]), idx
    {
      if marks[idx] {
        forall p | IsPath(pool, start, p)
          ensures exists i :: i in p && i < |pool| && marks0[i]
        {
          MetMark(pool, start, path, idx, p);
        }
        return false, path;
      }
      MarkOne(marks[..], idx);
      ghost var before := marks[..];
      marks[idx] := true;
      assert marks[..] == before[idx := true];
      WalkOn(pool, start, path, idx);
      path := path + [idx];
      idx := pool[idx].ctxNext;
    }
    WalkEnds(pool, start, path, idx);
    return true, path;
  }

  /** Coming back to an entry already met on this walk means that no finite path exists. */
  lemma MetMark(pool: seq<BtEntry>, start: int, done: seq<nat>, idx: nat, p: seq<nat>)
    requires Walked(pool, start, done, idx) && IsPath(pool, start, p)
    ensures idx in p && idx !in done
  {
    WalkedOfPath(pool, start, done, idx, p);
    if idx in done {
      var t :| 0 <= t < |done| && done[t] == idx;
      PathNoRepeat(pool, start, p, t, |done|);
    }
  }

  /** Marks all chains of the snapshot. */
  method CheckChains(s: Snapshot) returns (ok: bool)
    requires FieldsOk(s)
    ensures ok <==> exists paths :: |paths| == |s.ctxPool| && ChainsApart(s, paths)
  {
    var marks := new bool[|s.pool|](_ => false);
    ghost var paths: seq<seq<nat>> := [];
    for j := 0 to |s.ctxPool|
      invariant |paths| == j && ChainsApart(s, paths)
      invariant forall i :: 0 <= i < |s.pool| ==> (marks[i] <==> exists k :: 0 <= k < j && i in paths[k])
    {
      ghost var marks0 := marks[..];
      ghost var path;
      ok, path := WalkChain(s.pool, s.ctxPool[j].first, marks);
      if !ok {
        forall other | |other| == |s.ctxPool| && ChainsApart(s, other)
          ensures false
        {
          var i :| i in other[j] && i < |s.pool| && marks0[i];
          var k :| 0 <= k < j && i in paths[k];
          PathUnique(s.pool, s.ctxPool[k].first, paths[k], other[k]);
        }
        return false;
      }
      paths := paths + [path];
    }
    return true;
  }

  /** Decides exactly whether untrusted tables can be read, unless it has to read a table that is not aligned. */
  method Validate(s: Snapshot, sig: Signature, build: Signature, al: Alignment) returns (v: Verdict)
    ensures v.Misread? <==> Misreads(s, sig, build, al)
    ensures v.Accepted? <==> Acceptable(s, sig, build) && !Misreads(s, sig, build, al)
  {
    if sig != build {
      return Refused;
    }
    if |s.ctxSlot| == 0 || And(|s.ctxSlot|, |s.ctxSlot| - 1) != 0 {
      if |s.ctxSlot| > 0 {
        SingleBit(|s.ctxSlot|);
      }
      return Refused;
    }
    SingleBit(|s.ctxSlot|);
    if !al.ctxSlot {
      return Misread;
    }
    var slotsOk := CheckSlots(s);
    if !slotsOk {
      return Refused;
    }
    if !al.ctxPool && |s.ctxPool| > 0 {
      return Misread;
    }
    for j := 0 to |s.ctxPool|
      invariant forall k :: 0 <= k < j ==> |s.ctxPool[k].ctx| <= MAX_DEPTH && s.ctxPool[k].first < |s.pool|
    {
      if |s.ctxPool[j].ctx| > MAX_DEPTH || s.ctxPool[j].first >= |s.pool| {
        return Refused;
      }
    }
    if !al.pool && |s.pool| > 0 {
      return Misread;
    }
    for i := 0 to |s.pool|
      invariant forall k :: 0 <= k < i ==> |s.pool[k].ctx| <= MAX_DEPTH && s.pool[k].ctxNext < |s.pool|
    {
      if |s.pool[i].ctx| > MAX_DEPTH || s.pool[i].ctxNext >= |s.pool| {
        return Refused;
      }
    }
    var chainsOk := CheckChains(s);
    v := if chainsOk then Accepted else Refused;
  }

  /** Every slot in range, and one of them empty. */
  method CheckSlots(s: Snapshot) returns (ok: bool)
    requires IsPow2(|s.ctxSlot|)
    ensures ok <==> SlotsOk(s)
  {
    var hasEmpty := false;
    for i := 0 to |s.ctxSlot|
      invariant forall x :: 0 <= x < i ==> s.ctxSlot[x] < |s.ctxPool|
      invariant hasEmpty <==> exists e :: 0 <= e < i && s.ctxSlot[e] < 0
    {
      if s.ctxSlot[i] < 0 {
        hasEmpty := true;
      } else if s.ctxSlot[i] >= |s.ctxPool| {
        return false;
      }
    }
    ok := hasEmpty;
  }

  // ----- lookup -----

  /** What lookup relies on: it holds of every snapshot that passes validation. */
  ghost predicate Readable(s: Snapshot) {
    && IsPow2(|s.ctxSlot|) && InRange(s.ctxSlot, CtxKeys(s.ctxPool))
    && |s.bloom| > 0
    && forall j :: 0 <= j < |s.ctxPool| ==> Walkable(s.pool, s.ctxPool[j].first)
  }

  ghost predicate Walkable(pool: seq<BtEntry>, start: int) {
    exists path :: IsPath(pool, start, path)
  }

  ghost function PathOf(pool: seq<BtEntry>, start: int): (path: seq<nat>)
    requires Walkable(pool, start)
    ensures IsPath(pool, start, path)
    ensures forall t :: 0 <= t < |path| ==> path[t] < |pool|
  {
    var path :| IsPath(pool, start, path);
    PathInRange(pool, start, path);
    path
  }

  /** In an accepted snapshot every slot index is in range and every chain ends. */
  lemma AcceptableIsReadable(s: Snapshot, sig: Signature, build: Signature)
    requires Acceptable(s, sig, build) && |s.bloom| > 0
    ensures Readable(s)
  {
    var paths :| |paths| == |s.ctxPool| && ChainsApart(s, paths);
    forall j | 0 <= j < |s.ctxPool|
      ensures Walkable(s.pool, s.ctxPool[j].first)
    {
      assert IsPath(s.pool, s.ctxPool[j].first, paths[j]);
    }
  }

  /** The entry a reader finds for a context, or -1, if its probe ends. */
  ghost function EntryOf(s: Snapshot, hs: BtTrain.Hashes, c: Context): (j: int)
    requires Readable(s)
    ensures -1 <= j < |s.ctxPool|
  {
    if !BtTrain.BloomHas(s.bloom, hs, c) then -1
    else
      var slots := Reached(s.ctxSlot);
      ProbeRange(slots, CtxKeys(s.ctxPool), c, Home(hs.ctx, c, |slots|), |slots|);
      Find(slots, CtxKeys(s.ctxPool), hs.ctx, c)
  }

  /** The reader's lookup of a context comes to an end: the Bloom filter refuses it, or the probe does. */
  ghost predicate LookupEnds(s: Snapshot, hs: BtTrain.Hashes, c: Context)
    requires Readable(s)
  {
    BtTrain.BloomHas(s.bloom, hs, c) ==> Ends(s.ctxSlot, CtxKeys(s.ctxPool), hs.ctx(c), c)
  }

  lemma {:induction false} ProbeRange(slots: seq<int>, keys: seq<Context>, k: Context, h: nat, n: nat)
    requires h < |slots| && InRange(slots, keys)
    ensures -1 <= Probe(slots, keys, k, h, n) < |keys|
    decreases n
  {
    if n > 0 && slots[h] >= 0 && keys[slots[h]] != k {
      ProbeRange(slots, keys, k, Next(h, |slots|), n - 1);
    }
  }

  /** Filter first, then probe. */
  method FindContext(s: Snapshot, hs: BtTrain.Hashes, c: Context) returns (j: int)
    requires Readable(s) && LookupEnds(s, hs, c)
    ensures j == EntryOf(s, hs, c)
  {
    if !BtTrain.BloomHas(s.bloom, hs, c) {
      return -1;
    }
    j := SeekWord(s.ctxSlot, CtxKeys(s.ctxPool), hs.ctx, c);
  }

  /** The counters a reader sees for a context: its total, and the frequency of each next byte. */
  ghost function TotalOf(s: Snapshot, hs: BtTrain.Hashes, c: Context): nat
    requires Readable(s)
  {
    var j := EntryOf(s, hs, c);
    if j < 0 then 0 else s.ctxPool[j].total
  }

  ghost function FreqOf(s: Snapshot, hs: BtTrain.Hashes, c: Context, b: byte): nat
    requires Readable(s)
  {
    var j := EntryOf(s, hs, c);
    if j < 0 then 0 else WalkFreq(s.pool, PathOf(s.pool, s.ctxPool[j].first), b)
  }

  // ----- trained snapshots -----

  /** Every context entry can be found: by the index, and past the Bloom filter. */
  ghost predicate Findable(s: Snapshot, hs: BtTrain.Hashes) {
    && IsPow2(|s.ctxSlot|) && 2 * |s.ctxPool| <= |s.ctxSlot| <= TWO32
    && (exists pos :: Indexed(s.ctxSlot, CtxKeys(s.ctxPool), hs.ctx, pos))
    && |s.bloom| > 0 && forall j :: 0 <= j < |s.ctxPool| ==> BtTrain.BloomHas(s.bloom, hs, s.ctxPool[j].ctx)
  }

  /** The tables of a model that has seen exactly these observations. */
  ghost predicate Trained(s: Snapshot, hs: BtTrain.Hashes, seen: seq<Update>) {
    TrainedOn(s.pool, s.ctxPool, seen) && Findable(s, hs)
  }

  /** The tables of a model of fixed capacity, which may have refused entries. */
  ghost predicate TrainedFixed(s: Snapshot, hs: BtTrain.Hashes, seen: seq<Update>, poolCap: nat, ctxCap: nat) {
    PartlyTrained(s.pool, poolCap, s.ctxPool, ctxCap, seen) && Findable(s, hs)
  }

  /** The tables as they are; entry indices are ints, so there are at most 2^31 contexts. */
  method Export(m: BtTrain.BtV3) returns (s: Snapshot)
    requires m.Valid()
    ensures |m.ctxPool| < BtTrain.INT_COUNT ==>
      if m.dynamic then Trained(s, m.hashes, m.seen) else TrainedFixed(s, m.hashes, m.seen, m.poolCap, m.ctxCap)
    ensures BtTrain.BloomExact(s.bloom, m.hashes, m.seen)
  {
    s := Snapshot(m.pool, m.ctxPool, m.ctxSlot, m.bloom);
    assert |s.ctxSlot| / 2 == m.ctxCap;
    if |m.ctxPool| < BtTrain.INT_COUNT {
      Pow2Values();
      SmallPow2(m.ctxCap, 31);
    }
  }

  /** A power of two below twice another is at most that one. */
  lemma {:induction false} SmallPow2(n: nat, k: nat)
    requires IsPow2(n) && n < 2 * Pow2(k)
    ensures n <= Pow2(k)
  {
    if n > 1 && k > 0 {
      SmallPow2(n / 2, k - 1);
    }
  }

  lemma {:induction false} ChainIsPath(pool: seq<BtEntry>, idx: int)
    requires LinksOk(pool) && -1 <= idx < |pool|
    ensures IsPath(pool, idx, Chain(pool, idx))
    decreases idx
  {
    if idx >= 0 {
      assert LinkOk(pool, idx);
      ChainIsPath(pool, pool[idx].ctxNext);
      assert Chain(pool, idx)[1..] == Chain(pool, pool[idx].ctxNext);
    }
  }

  lemma TrainedIsReadable(s: Snapshot, hs: BtTrain.Hashes, seen: seq<Update>)
    requires Trained(s, hs, seen)
    ensures Readable(s)
  {
    var pos :| Indexed(s.ctxSlot, CtxKeys(s.ctxPool), hs.ctx, pos);
    EmptyExists(s.ctxSlot, CtxKeys(s.ctxPool), hs.ctx, pos);
    forall j | 0 <= j < |s.ctxPool|
      ensures Walkable(s.pool, s.ctxPool[j].first)
    {
      assert HeadOk(s.pool, s.ctxPool[j]);
      ChainIsPath(s.pool, s.ctxPool[j].first);
    }
  }

  /** Trained tables are at most half full, so every lookup ends. */
  lemma TrainedLookupsEnd(s: Snapshot, hs: BtTrain.Hashes, c: Context)
    requires Findable(s, hs) && Readable(s)
    ensures HasEmpty(s.ctxSlot) && LookupEnds(s, hs, c)
  {
    var keys := CtxKeys(s.ctxPool);
    var pos :| Indexed(s.ctxSlot, keys, hs.ctx, pos);
    EmptyExists(s.ctxSlot, keys, hs.ctx, pos);
    var e: nat :| e < |s.ctxSlot| && s.ctxSlot[e] < 0;
    assert StopsAt(s.ctxSlot, keys, c, e);
    EndsExactly(s.ctxSlot, keys, hs.ctx(c), c);
  }

  /** A probe for a key ends at its first index. */
  lemma FindIsFirst(slots: seq<int>, keys: seq<Context>, hash: Context -> nat, pos: seq<nat>, k: Context)
    requires Indexed(slots, keys, hash, pos) && HasEmpty(slots) && InRange(slots, keys)
    ensures IsFirst(keys, k, Find(slots, keys, hash, k))
  {
    var h := ProbeStops(slots, keys, k, Home(hash, k, |slots|), Home(hash, k, |slots|));
    SeekIsFirst(slots, keys, hash, pos, k, h, Find(slots, keys, hash, k));
  }

  /** Where a probe that has come to slot h ends. */
  lemma {:induction false} ProbeStops(slots: seq<int>, keys: seq<Context>, k: Context, home: nat, h: nat)
    returns (stop: nat)
    requires home < |slots| && h < |slots| && InRange(slots, keys) && HasEmpty(slots)
    requires Passed(slots, keys, k, home, h)
    ensures stop < |slots| && Passed(slots, keys, k, home, stop)
    ensures var s := Probe(slots, keys, k, h, |slots| - Dist(home, h, |slots|));
      if slots[stop] < 0 then s == -1 else s == slots[stop] && keys[s] == k
    decreases |slots| - Dist(home, h, |slots|)
  {
    var n := |slots|;
    if slots[h] < 0 || keys[slots[h]] == k {
      stop := h;
    } else {
      var e :| 0 <= e < n && slots[e] < 0;
      assert Dist(home, h, n) <= Dist(home, e, n);
      stop := ProbeStops(slots, keys, k, home, Next(h, n));
    }
  }

  /**
   * Training is counting: in the tables of a model that saw these observations, looking up any
   * context, seen or not, gives exactly its counts, however often the tables grew.
   */
  lemma LookupCounts(s: Snapshot, hs: BtTrain.Hashes, seen: seq<Update>, c: Context, b: byte)
    requires Trained(s, hs, seen)
    ensures Readable(s)
    ensures TotalOf(s, hs, c) == CountContext(seen, c) == SumCounts(seen, c, 256)
    ensures FreqOf(s, hs, c, b) == Count(seen, c, b)
  {
    TrainedIsReadable(s, hs, seen);
    TrainedLookupsEnd(s, hs, c);
    assert Reached(s.ctxSlot) == s.ctxSlot;
    var keys := CtxKeys(s.ctxPool);
    var pos :| Indexed(s.ctxSlot, keys, hs.ctx, pos);
    FindIsFirst(s.ctxSlot, keys, hs.ctx, pos, c);
    CountsAddUp(seen, c);
    CountSeen(seen, c, b);
    if c in keys {
      var j := Find(s.ctxSlot, keys, hs.ctx, c);
      assert keys[j] == s.ctxPool[j].ctx == c;
      assert EntryOf(s, hs, c) == j;
      ChainCounts(s.pool, s.ctxPool, seen, j, b);
      ChainIsPath(s.pool, s.ctxPool[j].first);
      PathUnique(s.pool, s.ctxPool[j].first, Chain(s.pool, s.ctxPool[j].first), PathOf(s.pool, s.ctxPool[j].first));
    } else {
      FreshContext(s.pool, s.ctxPool, seen, c);
      assert EntryOf(s, hs, c) == -1;
    }
  }

  /** After training a fresh model on a text, a lookup gives the substring counts of the text. */
  lemma LookupCountsSubstrings(s: Snapshot, hs: BtTrain.Hashes, text: seq<byte>, c: Context, b: byte)
    requires Trained(s, hs, TextUpdates(text)) && 1 <= |c| <= MAX_DEPTH
    ensures Readable(s) && FreqOf(s, hs, c, b) == Occurs(text, c, b)
  {
    LookupCounts(s, hs, TextUpdates(text), c, b);
    UpdatesCountSubstrings(text, c, b);
  }

  lemma TrainedFieldsOk(s: Snapshot, seen: seq<Update>)
    requires TrainedOn(s.pool, s.ctxPool, seen)
    ensures FieldsOk(s)
  {
    forall j | 0 <= j < |s.ctxPool|
      ensures |s.ctxPool[j].ctx| <= MAX_DEPTH && s.ctxPool[j].first < |s.pool|
    {
      assert HeadOk(s.pool, s.ctxPool[j]);
    }
    forall i | 0 <= i < |s.pool|
      ensures |s.pool[i].ctx| <= MAX_DEPTH && s.pool[i].ctxNext < |s.pool|
    {
      assert LinkOk(s.pool, i);
    }
  }

  /** In trained tables the path from a context's entry is its descending chain. */
  lemma TrainedPath(s: Snapshot, seen: seq<Update>, j: nat)
    requires TrainedOn(s.pool, s.ctxPool, seen) && j < |s.ctxPool|
    ensures HeadOk(s.pool, s.ctxPool[j])
    ensures Walkable(s.pool, s.ctxPool[j].first)
    ensures PathOf(s.pool, s.ctxPool[j].first) == Chain(s.pool, s.ctxPool[j].first)
  {
    var first := s.ctxPool[j].first;
    assert HeadOk(s.pool, s.ctxPool[j]);
    ChainIsPath(s.pool, first);
    PathUnique(s.pool, first, Chain(s.pool, first), PathOf(s.pool, first));
  }

  lemma TrainedChainsApart(s: Snapshot, seen: seq<Update>)
    requires TrainedOn(s.pool, s.ctxPool, seen)
    ensures exists paths :: |paths| == |s.ctxPool| && ChainsApart(s, paths)
  {
    forall j | 0 <= j < |s.ctxPool|
      ensures Walkable(s.pool, s.ctxPool[j].first)
    {
      TrainedPath(s, seen, j);
    }
    var paths := seq(|s.ctxPool|, j requires 0 <= j < |s.ctxPool| => PathOf(s.pool, s.ctxPool[j].first));
    hide TrainedOn;
    forall j, k, i | 0 <= j < k < |paths| && i in paths[k]
      ensures i !in paths[j]
    {
      TrainedPath(s, seen, j);
      TrainedPath(s, seen, k);
      ChainsDisjoint(s.pool, s.ctxPool, seen, j, k, i);
    }
    assert ChainsApart(s, paths);
  }

  /** The validator accepts every trained snapshot of the same build. */
  lemma TrainedIsAcceptable(s: Snapshot, hs: BtTrain.Hashes, seen: seq<Update>, build: Signature)
    requires Trained(s, hs, seen)
    ensures Acceptable(s, build, build)
  {
    hide TrainedOn;
    TrainedIsReadable(s, hs, seen);
    TrainedLookupsEnd(s, hs, []);
    assert forall x :: 0 <= x < |s.ctxSlot| ==> s.ctxSlot[x] < |CtxKeys(s.ctxPool)|;
    TrainedFieldsOk(s, seen);
    TrainedChainsApart(s, seen);
  }

  /** How often any byte followed c in the text: the sum over the bytes below k. */
  function OccursBelow(text: seq<byte>, c: Context, k: nat): nat
    requires k <= 256
  {
    if k == 0 then 0 else OccursBelow(text, c, k - 1) + Occurs(text, c, k - 1)
  }

  lemma {:induction false} CountsAreOccurs(text: seq<byte>, c: Context, k: nat)
    requires k <= 256 && 1 <= |c| <= MAX_DEPTH
    ensures SumCounts(TextUpdates(text), c, k) == OccursBelow(text, c, k)
  {
    if k > 0 {
      CountsAreOccurs(text, c, k - 1);
      UpdatesCountSubstrings(text, c, k - 1);
    }
  }

  /** What a reader finds for every context of a text: its total and its byte counts, in lookups that end. */
  ghost predicate CountsText(s: Snapshot, hs: BtTrain.Hashes, text: seq<byte>) {
    && Readable(s)
    && (forall c: Context :: 1 <= |c| <= MAX_DEPTH ==>
          LookupEnds(s, hs, c) && TotalOf(s, hs, c) == OccursBelow(text, c, 256))
    && (forall c: Context, b: byte :: 1 <= |c| <= MAX_DEPTH ==> FreqOf(s, hs, c, b) == Occurs(text, c, b))
  }

  /** From a training text to what a reader of the exported tables finds: exactly the substring counts. */
  method TrainAndExport(m: BtTrain.BtV3, corpus: seq<byte>) returns (s: Snapshot)
    requires m.Valid() && m.dynamic && m.seen == [] && m.window == [] && !m.frozen
    modifies m
    ensures |m.ctxPool| < BtTrain.INT_COUNT ==> CountsText(s, m.hashes, corpus)
    ensures BtTrain.BloomExact(s.bloom, m.hashes, TextUpdates(corpus))
  {
    m.TrainCorpus(corpus);
    s := Export(m);
    if |m.ctxPool| < BtTrain.INT_COUNT {
      TrainedCountsText(s, m.hashes, corpus);
    }
  }

  lemma TrainedCountsText(s: Snapshot, hs: BtTrain.Hashes, text: seq<byte>)
    requires Trained(s, hs, TextUpdates(text))
    ensures CountsText(s, hs, text)
  {
    TrainedIsReadable(s, hs, TextUpdates(text));
    assert Findable(s, hs);
    hide Trained, Findable, Readable, LookupEnds, TotalOf, FreqOf, TextUpdates;
    forall c: Context, b: byte | 1 <= |c| <= MAX_DEPTH
      ensures LookupEnds(s, hs, c) && TotalOf(s, hs, c) == OccursBelow(text, c, 256)
      ensures FreqOf(s, hs, c, b) == Occurs(text, c, b)
    {
      TrainedLookupsEnd(s, hs, c);
      LookupCounts(s, hs, TextUpdates(text), c, b);
      LookupCountsSubstrings(s, hs, text, c, b);
      CountsAreOccurs(text, c, 256);
    }
    assert forall c: Context :: 1 <= |c| <= MAX_DEPTH ==>
      LookupEnds(s, hs, c) && TotalOf(s, hs, c) == OccursBelow(text, c, 256) by {
      forall c: Context | 1 <= |c| <= MAX_DEPTH
        ensures LookupEnds(s, hs, c) && TotalOf(s, hs, c) == OccursBelow(text, c, 256)
      {
        var zero: byte := 0;
        assert FreqOf(s, hs, c, zero) == Occurs(text, c, zero);
      }
    }
  }
}
