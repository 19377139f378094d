/** The per-instance codec, one mutable object per handle: position machine, delta transform, distribution cache. */
module Codec {
  import opened Words
  import opened Arith
  import opened Bitwise
  import opened Occurrences
  import opened BtSnapshot
  import opened Distribution
  import opened CodecModel
  import Reader
  import Landmarks

  const DISTCACHE_SLOTS := 512

  /** The compile-time switches of the codec. */
  datatype Build = Build(distCache: bool, perMsgClear: bool, precompute: bool)

  /** A cache slot: the table, the generation that wrote it (0 if none), and the full key. */
  datatype Entry = Entry(cum: seq<nat>, gen: uint32, scale: nat, win: seq<byte>)

  const EMPTY: Entry := Entry([], 0, 0, [])

  /** A slot that was ever written holds the uncached table of its own key. */
  ghost predicate EntryExact(p: Prior, e: Entry) {
    e.gen > 0 ==> GoodView(ViewOf(p, e.win)) && e.cum == SimpleTable(ViewOf(p, e.win), e.scale)
  }

  ghost predicate CacheExact(p: Prior, entries: seq<Entry>, gen: nat) {
    forall i :: 0 <= i < |entries| ==> EntryExact(p, entries[i]) && entries[i].gen <= gen
  }

  lemma CacheWrite(p: Prior, entries: seq<Entry>, gen: nat, i: nat, e: Entry)
    requires CacheExact(p, entries, gen) && i < |entries|
    requires EntryExact(p, e) && e.gen <= gen
    ensures CacheExact(p, entries[i := e], gen)
  {
  }

  lemma CacheAges(p: Prior, entries: seq<Entry>, gen: nat)
    requires CacheExact(p, entries, gen)
    ensures CacheExact(p, entries, gen + 1) && forall i :: 0 <= i < |entries| ==> entries[i].gen < gen + 1
  {
  }

  lemma CacheEmpty(p: Prior, entries: seq<Entry>, gen: nat)
    requires forall i :: 0 <= i < |entries| ==> entries[i] == EMPTY
    ensures CacheExact(p, entries, gen)
  {
  }

  lemma PriorReadable(p: Prior)
    requires GoodPrior(p)
    ensures Loaded(p) && Readable(p.snap) && GoodLuts(p.luts)
  {
  }

  ghost predicate Precomputed(rows: seq<seq<nat>>, tables: seq<seq<nat>>) {
    |tables| <= |rows| && forall i :: 0 <= i < |tables| ==> |rows[i]| == 256 && tables[i] == TableFor(rows[i])
  }

  ghost predicate PrecomputeExact(p: Prior, tables: seq<seq<nat>>) {
    |tables| == p.schemaRec && Precomputed(p.schemaCum, tables)
  }

  // ----- tables from stored widths -----

  method RunningTotals(w: seq<nat>) returns (cum: seq<nat>)
    requires |w| == 256
    ensures cum == Cumulative(w)
  {
    var acc := 0;
    cum := [];
    for b := 0 to 256
      invariant |cum| == b && acc == Total(w[..b])
      invariant forall c :: 0 <= c < b ==> cum[c] == Total(w[..c])
    {
      assert w[..b + 1][..b] == w[..b];
      cum := cum + [acc];
      acc := acc + w[b];
    }
    cum := cum + [acc];
    assert w[..256] == w;
  }

  method RotatedTotals(w: seq<nat>, sh: byte) returns (cum: seq<nat>)
    requires |w| == 256
    ensures cum == Cumulative(Rotated(w, sh))
  {
    ghost var r := Rotated(w, sh);
    var acc := 0;
    cum := [];
    for b := 0 to 256
      invariant |cum| == b && acc == Total(r[..b])
      invariant forall c :: 0 <= c < b ==> cum[c] == Total(r[..c])
    {
      assert r[..b + 1][..b] == r[..b];
      cum := cum + [acc];
      acc := acc + w[(b - sh) % 256];
    }
    cum := cum + [acc];
    assert r[..256] == r;
  }

  /** Falls back to equal widths when the widths do not total the scale. */
  method Checked(cum0: seq<nat>, ghost w: seq<nat>) returns (cum: seq<nat>)
    requires |w| == 256 && cum0 == Cumulative(w)
    ensures cum == TableFor(w)
  {
    assert w[..256] == w;
    cum := cum0;
    if cum0[256] != SCALE {
      cum := RunningTotals(Uniform());
    }
  }

  class BcbCodec {
    const p: Prior
    const build: Build
    const slotHash: (seq<byte>, nat) -> nat
    const rd: Reader.BtV3Reader
    const scPrev: array<byte>
    const scCur: array<byte>
    const distcache: array<Entry>
    const scRecMask: nat
    var scPos: nat
    var sdelta: bool
    var scLast: byte
    var scCumPre: seq<seq<nat>>
    var dcGen: uint32
    var dcHits: nat
    var dcMisses: nat

    ghost function Repr(): set<object> {
      {this, rd, rd.ws, rd.wt, rd.probs, scPrev, scCur, distcache}
    }

    /** What is fixed for the life of the codec. */
    ghost predicate Wired() {
      && Loaded(p) && GoodPrior(p)
      && rd.s == p.snap && rd.hs == p.hs && rd.luts == p.luts
      && scPrev.Length == scCur.Length == SCHEMA_MAX && scPrev != scCur
      && distcache.Length == DISTCACHE_SLOTS
      && scRecMask == if Structural(p) && And(p.schemaRec, p.schemaRec - 1) == 0 then p.schemaRec - 1 else 0
    }

    ghost predicate Valid()
      reads Repr()
    {
      && Wired() && rd.Valid()
      && GoodState(p, State())
      && (sdelta ==> Structural(p))
      && (scCumPre != [] ==> PrecomputeExact(p, scCumPre))
      && dcGen >= 1 && CacheExact(p, distcache[..], dcGen)
    }

    ghost function State(): State
      reads Repr()
    {
      if Structural(p) then Record(scPos, scPrev[..], scCur[..], sdelta) else Window(rd.window)
    }

    lemma Placed()
      requires Valid()
      ensures GoodPrior(p) && GoodState(p, State()) && (!Structural(p) ==> rd.Valid() && rd.V() == ViewOf(p, rd.window))
      ensures State().Record? ==> State().pos < |State().prev| && State().pos < |p.schemaModes|
    {
    }

    constructor (p: Prior, build: Build, slotHash: (seq<byte>, nat) -> nat)
      requires Readable(p.snap) && GoodLuts(p.luts)
      ensures this.p == p && fresh(Repr()) && Fresh()
    {
      this.p, this.build, this.slotHash := p, build, slotHash;
      rd := new Reader.BtV3Reader(p.snap, p.hs, p.luts);
      scPrev, scCur := new byte[SCHEMA_MAX](_ => 0), new byte[SCHEMA_MAX](_ => 0);
      distcache := new Entry[DISTCACHE_SLOTS](_ => EMPTY);
      scRecMask := if Structural(p) && And(p.schemaRec, p.schemaRec - 1) == 0 then p.schemaRec - 1 else 0;
      scPos, sdelta, scLast, scCumPre := 0, false, 0, [];
      dcGen, dcHits, dcMisses := 1, 0, 0;
    }

    /** A codec whose fields are set and that has not begun a message. */
    ghost predicate Fresh()
      reads this, distcache, rd
    {
      && rd.Valid() && rd.window == []
      && rd.s == p.snap && rd.hs == p.hs && rd.luts == p.luts
      && scPrev.Length == scCur.Length == SCHEMA_MAX && scPrev != scCur
      && distcache.Length == DISTCACHE_SLOTS
      && scRecMask == (if Structural(p) && And(p.schemaRec, p.schemaRec - 1) == 0 then p.schemaRec - 1 else 0)
      && scPos == 0 && !sdelta && scCumPre == [] && dcGen == 1
      && forall i :: 0 <= i < distcache.Length ==> distcache[i] == EMPTY
    }

    /** A new codec, at the start of a message. */
    static method Make(p: Prior, build: Build, slotHash: (seq<byte>, nat) -> nat) returns (c: BcbCodec)
      requires GoodPrior(p)
      ensures c.Valid() && fresh(c.Repr()) && c.p == p && c.State() == Start(p, false)
    {
      PriorReadable(p);
      hide *;
      c := new BcbCodec(p, build, slotHash);
      c.NewlyValid();
      c.Begin();
    }

    lemma NewlyValid()
      requires GoodPrior(p) && Fresh()
      ensures Valid() && !sdelta
    {
      PriorReadable(p);
      CacheEmpty(p, distcache[..], dcGen);
      hide GoodPrior, Loaded, EntryExact, CacheExact, PrecomputeExact;
    }

    /** Back to the start of a message; the strict build also makes every cache slot stale. */
    method Begin()
      requires Valid()
      modifies Repr()
      ensures Valid() && State() == Start(p, sdelta)
      ensures sdelta == old(sdelta)
      ensures build.perMsgClear && !Structural(p) ==> forall i :: 0 <= i < DISTCACHE_SLOTS ==> distcache[i].gen != dcGen
      ensures !build.perMsgClear ==> distcache[..] == old(distcache[..]) && dcGen == old(dcGen)
    {
      if Structural(p) {
        scPos := 0;
        forall i | 0 <= i < SCHEMA_MAX {
          scPrev[i] := 0;
        }
        forall i | 0 <= i < SCHEMA_MAX {
          scCur[i] := 0;
        }
        assert scPrev[..] == ZeroRecord() && scCur[..] == ZeroRecord();
      } else {
        rd.ResetWindow();
        if build.perMsgClear {
          NextGeneration();
        }
      }
    }

    method NextGeneration()
      requires Valid()
      modifies `dcGen, distcache
      ensures Valid()
      ensures forall i :: 0 <= i < DISTCACHE_SLOTS ==> distcache[i].gen != dcGen
    {
      CacheAges(p, distcache[..], dcGen);
      assert forall i :: 0 <= i < DISTCACHE_SLOTS ==> distcache[i] == distcache[..][i];
      hide EntryExact, CacheExact, GoodPrior, Loaded, GoodState, PrecomputeExact;
      dcGen := U32(dcGen + 1);
      if dcGen == 0 {
        forall i | 0 <= i < DISTCACHE_SLOTS {
          distcache[i] := EMPTY;
        }
        dcGen := 1;
        CacheEmpty(p, distcache[..], dcGen);
      }
    }

    /** Chooses the symbol format; the table of a position is then precomputed once, on first use. */
    method SetSdelta(on: bool)
      requires Valid()
      modifies `sdelta, `scCumPre
      ensures Valid() && sdelta == (Structural(p) && on)
      ensures old(State()) == Start(p, old(sdelta)) ==> State() == Start(p, sdelta)
    {
      sdelta := Structural(p) && on;
      if build.precompute && sdelta && scCumPre == [] {
        scCumPre := PrecomputeTables(p);
      }
    }

    /** The table for the next symbol; the codec's place in the message does not change. */
    method Dist() returns (cum: seq<nat>)
      requires Valid()
      modifies rd.ws, rd.wt, rd.probs, distcache, `dcHits, `dcMisses
      ensures Valid() && State() == old(State())
      ensures cum == CodecModel.Dist(p, State())
    {
      if Structural(p) {
        cum := StructuralTable();
      } else {
        cum := WindowTable();
      }
    }

    method StructuralTable() returns (cum: seq<nat>)
      requires Valid() && Structural(p)
      ensures cum == CodecModel.Dist(p, State())
    {
      var w := p.schemaCum[scPos];
      if sdelta && scCumPre != [] {
        cum := scCumPre[scPos];
      } else if !sdelta && p.schemaModes[scPos] {
        var sh := scPrev[scPos];
        assert sh == scPrev[..][scPos];
        cum := RotatedTotals(w, sh);
        cum := Checked(cum, Rotated(w, sh));
      } else {
        cum := RunningTotals(w);
        cum := Checked(cum, w);
      }
    }

    method WindowTable() returns (cum: seq<nat>)
      requires Valid() && !Structural(p)
      modifies rd.ws, rd.wt, rd.probs, distcache, `dcHits, `dcMisses
      ensures Valid() && State() == old(State())
      ensures cum == CodecModel.Dist(p, State())
    {
      if p.lmCtx != [] && |rd.window| >= p.lmN {
        var i := Landmarks.Lookup(p.lmSlot, p.lmCtx, p.lmHash, Suffix(rd.window, p.lmN));
        if i >= 0 {
          var w := p.lmCum[i];
          assert w[..256] == w;
          cum := RunningTotals(w);
          if cum[256] == SCALE {
            return;
          }
        }
      }
      AlwaysDefined(p, State());
      cum := CachedTable();
    }

    /** A hit returns the stored table; a miss computes the table and overwrites the slot, whatever key it held. */
    method CachedTable() returns (cum: seq<nat>)
      requires Valid() && !Structural(p) && GoodView(rd.V())
      modifies rd.ws, rd.wt, rd.probs, distcache, `dcHits, `dcMisses
      ensures Valid() && State() == old(State())
      ensures cum == SimpleTable(rd.V(), SCALE)
      ensures build.distCache ==> dcHits + dcMisses == old(dcHits + dcMisses) + 1
    {
      if build.distCache {
        var slot := slotHash(rd.window, SCALE) % DISTCACHE_SLOTS;
        var e := distcache[slot];
        assert e == distcache[..][slot];
        if e.gen == dcGen && e.scale == SCALE && e.win == rd.window {
          cum := e.cum;
          dcHits := dcHits + 1;
        } else {
          cum := rd.Distribution(SCALE);
          e := Entry(cum, dcGen, SCALE, rd.window);
          CacheWrite(p, distcache[..], dcGen, slot, e);
          ghost var entries := distcache[..];
          distcache[slot] := e;
          assert distcache[..] == entries[slot := e];
          dcMisses := dcMisses + 1;
        }
      } else {
        cum := rd.Distribution(SCALE);
      }
    }

    /** Takes in the coded symbol: the reader's window slides, or the record position moves on. */
    method Train(b: byte)
      requires Valid()
      modifies `scPos, `scLast, scPrev, scCur, rd`window
      ensures Valid() && State() == Step(p, old(State()), b)
      ensures Structural(p) ==> scLast == Actual(p, old(State()), b)
      ensures sdelta == old(sdelta)
    {
      if Structural(p) {
        TrainRecord(b);
      } else {
        Placed();
        hide GoodPrior, Loaded, EntryExact, CacheExact, PrecomputeExact;
        rd.Push(b);
      }
    }

    method TrainRecord(b: byte)
      requires Valid() && Structural(p)
      modifies `scPos, `scLast, scPrev, scCur
      ensures Valid() && State() == Step(p, old(State()), b)
      ensures scLast == Actual(p, old(State()), b)
      ensures sdelta == old(sdelta)
    {
      Placed();
      hide GoodPrior, Loaded, EntryExact, CacheExact, PrecomputeExact;
      var pos := scPos;
      var actual: byte := if sdelta && p.schemaModes[pos] then (b + scPrev[pos]) % 256 else b;
      assert scPrev[pos] == scPrev[..][pos];
      assert actual == Actual(p, State(), b) && Step(p, State(), b) == Stored(State(), p.schemaRec, actual);
      hide Step, Actual;
      scLast := actual;
      ghost var cur := scCur[..];
      scCur[pos] := actual;
      assert scCur[..] == cur[pos := actual];
      Advance(pos);
    }

    /** The mask advance of a power-of-two record is the compare-and-reset of any other. */
    method Advance(pos: nat)
      requires Wired() && Structural(p) && pos < p.schemaRec
      modifies `scPos, scPrev
      ensures scPos == if pos + 1 == p.schemaRec then 0 else pos + 1
      ensures scPrev[..] == if pos + 1 == p.schemaRec then scCur[..p.schemaRec] + old(scPrev[p.schemaRec..])
                            else old(scPrev[..])
    {
      if scRecMask != 0 {
        MaskAdvance(p.schemaRec, pos);
        scPos := And(pos + 1, scRecMask);
        if scPos == 0 {
          SaveRecord();
        }
      } else {
        scPos := pos + 1;
        if scPos >= p.schemaRec {
          SaveRecord();
          scPos := 0;
        }
      }
    }

    method SaveRecord()
      requires Wired()
      modifies scPrev
      ensures scPrev[..] == scCur[..p.schemaRec] + old(scPrev[p.schemaRec..])
    {
      forall i | 0 <= i < p.schemaRec {
        scPrev[i] := scCur[i];
      }
    }

    /** The symbol that codes the byte at the current place. */
    function EncXform(b: byte): (s: byte)
      requires Valid()
      reads Repr()
      ensures s == Symbol(p, State(), b)
    {
      if !Structural(p) || !sdelta then b
      else
        assert scPrev[scPos] == scPrev[..][scPos];
        if p.schemaModes[scPos] then (b - scPrev[scPos]) % 256 else b
    }

    /** The last byte taken in, undone from its symbol. */
    function DecLast(): byte
      reads `scLast
    {
      scLast
    }
  }

  lemma MaskAdvance(rec: nat, pos: nat)
    requires pos < rec && And(rec, rec - 1) == 0
    ensures And(pos + 1, rec - 1) == if pos + 1 == rec then 0 else pos + 1
  {
    SingleBit(rec);
    MaskIsRemainder(pos + 1, rec);
    hide *;
    if pos + 1 == rec {
      DivUnique(pos + 1, rec, 1, 0);
    } else {
      DivUnique(pos + 1, rec, 0, pos + 1);
    }
  }

  method PrecomputeTables(p: Prior) returns (tables: seq<seq<nat>>)
    requires Loaded(p) && Structural(p)
    ensures PrecomputeExact(p, tables)
  {
    RowsLoaded(p);
    hide *;
    tables := [];
    for pos := 0 to p.schemaRec
      invariant |tables| == pos && Precomputed(p.schemaCum, tables)
    {
      var cum := RunningTotals(p.schemaCum[pos]);
      cum := Checked(cum, p.schemaCum[pos]);
      PrecomputedMore(p.schemaCum, tables, cum);
      tables := tables + [cum];
    }
    PrecomputedAll(p, tables);
  }

  lemma RowsLoaded(p: Prior)
    requires Loaded(p)
    ensures |p.schemaCum| == p.schemaRec && forall i :: 0 <= i < p.schemaRec ==> |p.schemaCum[i]| == 256
    ensures Precomputed(p.schemaCum, [])
  {
  }

  lemma PrecomputedMore(rows: seq<seq<nat>>, tables: seq<seq<nat>>, cum: seq<nat>)
    requires Precomputed(rows, tables) && |tables| < |rows|
    requires |rows[|tables|]| == 256 && cum == TableFor(rows[|tables|])
    ensures Precomputed(rows, tables + [cum])
  {
    hide TableFor;
  }

  lemma PrecomputedAll(p: Prior, tables: seq<seq<nat>>)
    requires Loaded(p) && Precomputed(p.schemaCum, tables) && |tables| == p.schemaRec
    ensures PrecomputeExact(p, tables)
  {
    hide TableFor;
  }
}
