/**
 * Images that parsing accepts with either build signature and the codec cannot use: counts that divide by zero,
 * index before a table or overflow a sum, slots that the reader's index cannot reach, a row with an empty interval,
 * a table at an odd offset.  And one with zero widths that it can use.
 */
module UnusablePriors {
  import opened Words
  import opened Arith
  import opened Occurrences
  import opened OpenAddressing
  import opened ReaderProbe
  import opened BtTables
  import opened BtSnapshot
  import opened Distribution
  import opened DistributionBounds
  import opened CountSafety
  import opened LittleEndian
  import opened ImageLayout
  import opened ImageStructs
  import opened CodecModel
  import opened PriorImage
  import opened LoadedPriors
  import Bitwise
  import Landmarks
  import BtTrain

  /** What loads an image: the build, the hash functions, the lookup tables of the build and the digest. */
  datatype Loader = Loader(build: Signature, hs: BtTrain.Hashes, luts: Luts, lmHash: Context -> nat,
                           digest: seq<byte> -> seq<byte>)

  /** The builds that the code can be compiled as: for microcontrollers, and otherwise. */
  predicate Compiled(b: Signature) {
    b == Signature(BT_ENTRY_SIZE, CTX_ENTRY_SIZE, MAX_DEPTH, 0x4_0000, 0x1000, 0x8000)
    || b == Signature(BT_ENTRY_SIZE, CTX_ENTRY_SIZE, MAX_DEPTH, 0x100_0000, 0x1_0000, 0x20_0000)
  }

  ghost predicate Working(m: Loader) {
    && Compiled(m.build) && GoodLuts(m.luts) && |m.luts.confLog2| == m.build.pres
    && forall image :: |m.digest(image)| == 32
  }

  /** A Bloom filter that lets every context pass. */
  function AllSet(build: Signature): seq<bool> {
    seq(8 * build.bloomBytes, _ => true)
  }

  // ----- one context entry -----

  const CONTEXT: Context := [65]

  /** Tables that know one context with one next byte, with any two counts. */
  function OneEntry(m: Loader, total: nat, f: nat): Snapshot {
    Snapshot([BtEntry(CONTEXT, 66, f, -1)], [CtxEntry(CONTEXT, total, 1, 0)],
             if m.hs.ctx(CONTEXT) % 2 == 0 then [0, -1] else [-1, 0], AllSet(m.build))
  }

  lemma OneChain(s: Snapshot)
    requires |s.pool| == |s.ctxPool| == 1 && s.ctxPool[0].first == 0 && s.pool[0].ctxNext == -1
    requires |s.pool[0].ctx| <= MAX_DEPTH && |s.ctxPool[0].ctx| <= MAX_DEPTH
    ensures FieldsOk(s) && exists paths :: |paths| == |s.ctxPool| && ChainsApart(s, paths)
  {
    assert IsPath(s.pool, -1, []);
    var paths: seq<seq<nat>> := [[0]];
    assert paths[0][1..] == [];
    assert IsPath(s.pool, 0, paths[0]);
    assert ChainsApart(s, paths);
  }

  lemma OneEntryReadable(m: Loader, total: nat, f: nat)
    requires Working(m)
    ensures Acceptable(OneEntry(m, total, f), m.build, m.build) && Readable(OneEntry(m, total, f))
  {
    var s := OneEntry(m, total, f);
    assert Bitwise.IsPow2(2);
    assert s.ctxSlot[0] < 0 || s.ctxSlot[1] < 0;
    OneChain(s);
    AcceptableIsReadable(s, m.build, m.build);
  }

  lemma OneEntryFound(m: Loader, total: nat, f: nat)
    requires Working(m) && Readable(OneEntry(m, total, f)) && total > 0
    ensures Live(OneEntry(m, total, f), m.hs, 0)
    ensures FreqOf(OneEntry(m, total, f), m.hs, CONTEXT, 66) == f
    ensures WalkFreq(OneEntry(m, total, f).pool, PathOf(OneEntry(m, total, f).pool, 0), 66) == f
  {
    var s := OneEntry(m, total, f);
    assert BtTrain.BloomHas(s.bloom, m.hs, CONTEXT);
    assert Reached(s.ctxSlot) == s.ctxSlot;
    var h := Home(m.hs.ctx, CONTEXT, 2);
    assert CtxKeys(s.ctxPool) == [CONTEXT];
    assert Probe(s.ctxSlot, CtxKeys(s.ctxPool), CONTEXT, h, 2) == 0;
    assert EntryOf(s, m.hs, CONTEXT) == 0;
    OnePath(s.pool);
  }

  lemma OnePath(pool: seq<BtEntry>)
    requires |pool| == 1 && pool[0].ctxNext < 0 && Walkable(pool, 0)
    ensures PathOf(pool, 0) == [0] && WalkFreq(pool, PathOf(pool, 0), pool[0].next) == pool[0].freq
  {
    var path: seq<nat> := [0];
    assert path[1..] == [];
    PathUnique(pool, 0, PathOf(pool, 0), path);
  }

  /** A total of 2^32 - 256 makes the divisor for unobserved bytes zero. */
  lemma WrappedTotal(m: Loader)
    requires Working(m) && Readable(OneEntry(m, 0xFFFF_FF00, 1))
    ensures !EntrySafe(OneEntry(m, 0xFFFF_FF00, 1), m.hs, m.luts, 0)
  {
    OneEntryFound(m, 0xFFFF_FF00, 1);
    var s := OneEntry(m, 0xFFFF_FF00, 1);
    assert Spread(s.ctxPool[0].total) == 0;
    hide Live, GoodLuts, Readable, AllSet;
    assert !CountsFit(m.luts, s.ctxPool[0].total, WalkFreq(s.pool, PathOf(s.pool, s.ctxPool[0].first), 66));
  }

  /** A byte counted 2^31 / PRES times in a context of total 1 makes the index -2^31. */
  lemma NegativeIndex(m: Loader, f: nat)
    requires Working(m) && f * m.build.pres == 0x8000_0000 && Readable(OneEntry(m, 1, f))
    ensures !EntrySafe(OneEntry(m, 1, f), m.hs, m.luts, 0)
  {
    OneEntryFound(m, 1, f);
    var s := OneEntry(m, 1, f);
    assert ConfIndex(Quotient(f * m.build.pres, 1), m.build.pres) == -0x8000_0000;
    hide Live, GoodLuts, Readable, AllSet;
    assert !CountsFit(m.luts, s.ctxPool[0].total, WalkFreq(s.pool, PathOf(s.pool, s.ctxPool[0].first), 66));
  }

  /** A byte counted 2^14 times in a context of total 1 has a good index but a weighted probability of 2^70. */
  lemma OverflowingSum(m: Loader)
    requires Working(m) && Readable(OneEntry(m, 1, 0x4000))
    ensures !EntrySafe(OneEntry(m, 1, 0x4000), m.hs, m.luts, 0)
  {
    OneEntryFound(m, 1, 0x4000);
    var s, b: byte := OneEntry(m, 1, 0x4000), 66;
    var v := View(s, m.hs, m.luts, CONTEXT);
    assert TotalOf(s, m.hs, v.w) == 1 && FreqOf(s, m.hs, v.w, b) == 0x4000;
    assert Suffix(v.w, |v.w|) == v.w && LevelOf(|v.w|) == 0;
    CountsStillFit(m.luts);
    LargeProbability(m.luts, 1, 1, 0x4000);
    OnlyDepth(v, LEVELS[0]);
    hide OneEntry, Live, Readable, LevelDepths, TotalOf, FreqOf, CountsFit, EvidenceFor, GoodLuts, EntryFits,
         SumFits, LevelOf, AllSet;
    AloneOverflows(v, 1, b);
    assert !EntrySumFits(s, m.hs, m.luts, 0);
  }

  /** A mean probability of 2^35 or more is too large even for a context that is alone in its level. */
  lemma AloneOverflows(v: View, n: nat, b: byte)
    requires TableView(v) && n <= |v.w| && DepthFits(v, n, b) && EvidenceOf(v, n, b).p >= MEAN_MAX
    ensures DepthsFit(v, [n], b) && !SumFits(v, [n], b)
  {
    hide Readable, GoodLuts, DepthFits, EvidenceOf, Weighted, MaxL;
    assert EvidenceAt(v, [n], b) == [EvidenceOf(v, n, b)];
    OneTerm(v.luts, EvidenceOf(v, n, b));
    MulMono(MEAN_MAX, EvidenceOf(v, n, b).p, WSCALE);
  }

  lemma CountsStillFit(luts: Luts)
    requires GoodLuts(luts)
    ensures CountsFit(luts, 1, 0x4000)
  {
    MulMono(|luts.confLog2|, 0x1_0000, 0x4000);
    SmallIndex(Quotient(0x4000 * |luts.confLog2|, 1), |luts.confLog2|);
    assert Spread(1) == 257;
  }

  lemma OnlyDepth(v: View, lv: Level)
    requires TableView(v) && 0 < lv.dmin == |v.w| <= lv.dmax && TotalOf(v.s, v.hs, v.w) > 0
    ensures LevelDepths(v, lv) == [|v.w|]
  {
    LevelOfWhole(v, lv);
    assert Suffix(v.w, |v.w|) == v.w;
    hide TotalOf, TableView, LevelDepths;
  }

  lemma OneTerm(t: Luts, e: Evidence)
    requires GoodLuts(t)
    ensures Weighted(t, [e], MaxL([e])) == WSCALE * e.p
  {
    assert [e][..0] == [];
    assert MaxL([e]) == e.l;
    Exp2WRange(t, 0);
    hide GoodLuts, Exp2W;
    assert Weighted(t, [], e.l) == 0;
  }

  // ----- small images -----

  function Small(build: Signature, snap: Snapshot, modes: seq<bool>, rows: seq<seq<nat>>): Content {
    Content(build, Zeros(24), 0, snap, 0, [], [], modes, rows)
  }

  lemma {:induction false} OffsetSmall(head: nat, sizes: seq<nat>, i: nat, top: nat)
    requires i <= |sizes| && forall k :: 0 <= k < |sizes| ==> sizes[k] <= top
    ensures OffsetOf(head, sizes, i) <= head + 8 + i * (top + 8)
  {
    hide Align8;
    if i > 0 {
      OffsetSmall(head, sizes, i - 1, top);
      assert i * (top + 8) == (i - 1) * (top + 8) + (top + 8);
    }
  }

  lemma SmallSaveable(build: Signature, snap: Snapshot, modes: seq<bool>, rows: seq<seq<nat>>)
    requires Compiled(build)
    requires |snap.pool| <= 1 && |snap.ctxPool| <= 1 && |snap.ctxSlot| <= 2 * TWO32
    requires |snap.bloom| == 8 * build.bloomBytes
    requires (forall e :: e in snap.pool ==> BtFits(e)) && (forall e :: e in snap.ctxPool ==> CtxFits(e))
    requires (forall x :: x in snap.ctxSlot ==> FitsInt32(x))
    requires |modes| == |rows| <= 1 && forall w :: w in rows ==> WidthsFit(w)
    ensures Saveable(Small(build, snap, modes, rows))
  {
    var c := Small(build, snap, modes, rows);
    OffsetSmall(HEADER_SIZE, SizesOf(c), 9, 8 * TWO32);
  }

  /** The prior that an accepted image without landmarks holds. */
  ghost function PriorOf(m: Loader, c: Content): Prior
    requires Working(m) && Accepts(ImageOf(c), m.build)
  {
    AcceptedSnap(ImageOf(c), m.build);
    PriorAt(ImageOf(c), m.hs, m.luts, m.lmHash, [], m.digest)
  }

  /** A small image is accepted and holds what was saved. */
  lemma SmallLoaded(m: Loader, snap: Snapshot, modes: seq<bool>, rows: seq<seq<nat>>)
    requires Working(m) && Saveable(Small(m.build, snap, modes, rows)) && Acceptable(snap, m.build, m.build)
    ensures var c := Small(m.build, snap, modes, rows);
      && Accepts(ImageOf(c), m.build)
      && var p := PriorOf(m, c);
         && Loaded(p) && p.snap == snap && p.hs == m.hs && p.luts == m.luts && p.lmCtx == [] && p.lmCum == []
         && p.schemaCum == rows && p.schemaRec == |rows|
  {
    var c := Small(m.build, snap, modes, rows);
    assert Landmarks.IndexOf([], c.lmCtx, m.lmHash) && c.build.bloomBytes > 0 && |m.digest(ImageOf(c))| == 32;
    hide ImageOf, Accepts, PriorAt, Saveable, Acceptable, Loaded, GoodLuts;
    var p := SavedPrior(c, m.hs, m.luts, m.lmHash, [], m.digest);
  }

  /** An image of one entry is accepted; if the entry is not safe, the prior it holds cannot be used. */
  lemma OneEntryImage(m: Loader, total: nat, f: nat)
    requires Working(m) && 0 < total < TWO32 && f < TWO32
    ensures var c := Small(m.build, OneEntry(m, total, f), [], []);
      && Accepts(ImageOf(c), m.build) && Readable(OneEntry(m, total, f)) && Loaded(PriorOf(m, c))
      && (!EntrySafe(OneEntry(m, total, f), m.hs, m.luts, 0) ==> !AlwaysGoesOn(PriorOf(m, c)))
  {
    var s := OneEntry(m, total, f);
    OneEntryReadable(m, total, f);
    SmallSaveable(m.build, s, [], []);
    assert s.ctxPool != [] && GoodLuts(m.luts);
    hide *;
    SmallLoaded(m, s, [], []);
    if !EntrySafe(s, m.hs, m.luts, 0) {
      NotStructural(PriorOf(m, Small(m.build, s, [], [])));
      CannotServe(PriorOf(m, Small(m.build, s, [], [])));
    }
  }

  lemma NotStructural(p: Prior)
    requires p.schemaRec == |p.schemaCum| == 0
    ensures !Structural(p)
  {
  }

  lemma CannotServe(p: Prior)
    requires Loaded(p) && !Structural(p) && p.lmCtx == [] && p.snap.ctxPool != []
    requires Readable(p.snap) && GoodLuts(p.luts) && !EntrySafe(p.snap, p.hs, p.luts, 0)
    ensures !AlwaysGoesOn(p)
  {
    UsableWhen(p);
    hide Loaded, Readable, GoodLuts, EntrySafe, AlwaysGoesOn, RowsServe;
    assert !Exempt(p)(p.snap.ctxPool[0].ctx);
  }

  /** Accepted images whose counts divide by zero, index before a table, or overflow a sum. */
  lemma AcceptedButUndefined(m: Loader, total: nat, f: nat)
    requires Working(m)
    requires (total, f) == (0xFFFF_FF00, 1) || (total, f) == (1, 0x8000_0000 / m.build.pres)
             || (total, f) == (1, 0x4000)
    ensures var c := Small(m.build, OneEntry(m, total, f), [], []);
      Accepts(ImageOf(c), m.build) && Loaded(PriorOf(m, c)) && !AlwaysGoesOn(PriorOf(m, c))
  {
    assert 0 < total < TWO32 && f < TWO32;
    assert 0x8000_0000 / m.build.pres * m.build.pres == 0x8000_0000;
    hide *;
    OneEntryImage(m, total, f);
    if total == 0xFFFF_FF00 {
      WrappedTotal(m);
    } else if f == 0x4000 {
      OverflowingSum(m);
    } else {
      NegativeIndex(m, f);
    }
  }

  // ----- slots out of reach -----

  /** One context in 2^33 slots: the reader's index reaches only slots that are taken. */
  function Unreached(m: Loader): Snapshot {
    Snapshot([BtEntry(CONTEXT, 66, 1, -1)], [CtxEntry(CONTEXT, 1, 1, 0)],
             seq(2 * TWO32, x => if x < TWO32 then 0 else -1), AllSet(m.build))
  }

  lemma UnreachedAcceptable(m: Loader)
    requires Working(m)
    ensures Acceptable(Unreached(m), m.build, m.build) && Readable(Unreached(m))
  {
    var s := Unreached(m);
    UnreachedSlots(m);
    OneChain(s);
    assert |s.bloom| > 0;
    hide Unreached, Working, SlotsOk, FieldsOk, ChainsApart;
    AcceptableIsReadable(s, m.build, m.build);
  }

  lemma UnreachedSlots(m: Loader)
    ensures SlotsOk(Unreached(m))
  {
    TwiceWord();
    hide Bitwise.IsPow2;
    assert Unreached(m).ctxSlot[TWO32] < 0;
  }

  lemma TwiceWord()
    ensures Bitwise.IsPow2(2 * TWO32)
  {
    Pow2Values();
    assert Pow2(33) == 2 * Pow2(32);
    Bitwise.PowerOfTwo(33);
  }

  lemma UnreachedSaveable(m: Loader)
    requires Working(m)
    ensures Saveable(Small(m.build, Unreached(m), [], []))
  {
    var s := Unreached(m);
    assert forall x :: x in s.ctxSlot ==> FitsInt32(x);
    SmallSaveable(m.build, s, [], []);
  }

  /** Any other context passes the filter, and its lookup never ends. */
  lemma UnreachedLoops(m: Loader, c: Context)
    requires Working(m) && Readable(Unreached(m)) && c != CONTEXT
    ensures !LookupEnds(Unreached(m), m.hs, c)
  {
    var s := Unreached(m);
    assert BtTrain.BloomHas(s.bloom, m.hs, c);
    assert CtxKeys(s.ctxPool) == [CONTEXT];
    hide AllSet, Readable;
    assert forall x :: 0 <= x < |Reached(s.ctxSlot)| ==> Reached(s.ctxSlot)[x] == 0;
    MissingEnds(s, m.hs, c);
  }

  /** An accepted image on which the lookup of a context it does not know never ends. */
  lemma AcceptedButEndless(m: Loader)
    requires Working(m)
    ensures var c := Small(m.build, Unreached(m), [], []);
      && Accepts(ImageOf(c), m.build) && Loaded(PriorOf(m, c))
      && !LookupsServe(PriorOf(m, c)) && !AlwaysGoesOn(PriorOf(m, c))
  {
    var c := Small(m.build, Unreached(m), [], []);
    UnreachedAcceptable(m);
    UnreachedSaveable(m);
    UnreachedLoops(m, [66]);
    hide *;
    SmallLoaded(m, Unreached(m), [], []);
    NotStructural(PriorOf(m, c));
    LoopsUnusable(PriorOf(m, c), [66]);
  }

  lemma LoopsUnusable(p: Prior, c: Context)
    requires Loaded(p) && !Structural(p) && p.lmCtx == [] && 1 <= |c| <= MAX_DEPTH
    requires Readable(p.snap) && !LookupEnds(p.snap, p.hs, c)
    ensures !LookupsServe(p) && !AlwaysGoesOn(p)
  {
    UsableWhen(p);
    ProbesEndExactly(p.snap, p.hs, Exempt(p));
    hide Loaded, Readable, LookupEnds, AlwaysGoesOn, RowsServe, CountsServe, ProbesEnd;
    assert !Exempt(p)(c);
  }

  // ----- one row of widths -----

  /** No contexts and no pairs. */
  function NoTables(build: Signature): Snapshot {
    Snapshot([], [], [-1], AllSet(build))
  }

  lemma NoTablesAcceptable(s: Snapshot, build: Signature)
    requires s.pool == [] && s.ctxPool == [] && s.ctxSlot == [-1]
    ensures Acceptable(s, build, build)
  {
    var paths: seq<seq<nat>> := [];
    assert ChainsApart(s, paths);
    assert s.ctxSlot[0] < 0;
  }

  /** The image of a one-byte schema is accepted, and usable exactly when its row can be handed out. */
  lemma OneRowImage(m: Loader, row: seq<nat>)
    requires Working(m) && WidthsFit(row)
    ensures var c := Small(m.build, NoTables(m.build), [false], [row]);
      Accepts(ImageOf(c), m.build) && Loaded(PriorOf(m, c)) && (AlwaysGoesOn(PriorOf(m, c)) <==> Serves(row))
  {
    NoTablesAcceptable(NoTables(m.build), m.build);
    SmallSaveable(m.build, NoTables(m.build), [false], [row]);
    hide *;
    SmallLoaded(m, NoTables(m.build), [false], [row]);
    OneRowServes(PriorOf(m, Small(m.build, NoTables(m.build), [false], [row])), row);
  }

  lemma OneRowServes(p: Prior, row: seq<nat>)
    requires Loaded(p) && p.schemaCum == [row] && p.schemaRec == 1
    ensures AlwaysGoesOn(p) <==> Serves(row)
  {
    UsableWhen(p);
    hide Serves, Loaded, AlwaysGoesOn;
    assert Serves(p.schemaCum[0]) <==> Serves(row);
  }

  /** All the width on one byte. */
  function Spike(top: nat): (w: seq<nat>)
    ensures |w| == 256
  {
    [top] + seq(255, _ => 0)
  }

  lemma {:induction false} SpikeTotal(top: nat, n: nat)
    requires 1 <= n <= 256
    ensures Total(Spike(top)[..n]) == top
  {
    assert Spike(top)[..n][..n - 1] == Spike(top)[..n - 1];
    if n > 1 {
      SpikeTotal(top, n - 1);
    } else {
      assert Spike(top)[..0] == [];
    }
  }

  /** A zero width makes an accepted image unusable when its row totals 16384, and is harmless when it does not. */
  lemma ZeroWidths(m: Loader, top: nat)
    requires Working(m) && top < 65536
    ensures var c := Small(m.build, NoTables(m.build), [false], [Spike(top)]);
      && Accepts(ImageOf(c), m.build) && Loaded(PriorOf(m, c))
      && (AlwaysGoesOn(PriorOf(m, c)) <==> top != SCALE)
  {
    SpikeTotal(top, 256);
    var w := Spike(top);
    assert w[..256] == w && w[1] == 0;
    assert WidthsFit(w) && (Serves(w) <==> top != SCALE);
    hide *;
    OneRowImage(m, w);
  }

  // ----- a table at an odd offset -----

  /** All sections of an image without entries, over one run of bytes of all ones, one byte behind the header. */
  function OddHeader(build: Signature): Header {
    Header(VERSION, BT_ENTRY_SIZE, CTX_ENTRY_SIZE, MAX_DEPTH, build.pres, build.bloomBits, 0, 0, 1, build.bloomBytes,
           0, 0, 0, 0, 0, seq(9, _ => HEADER_SIZE + 1), HEADER_SIZE + build.bloomBytes + 32)
  }

  function OddImage(build: Signature): seq<byte> {
    EncHeader(OddHeader(build)) + seq(build.bloomBytes + 32, _ => 0xFF)
  }

  lemma OddHeaderRead(build: Signature)
    requires Compiled(build)
    ensures HeaderOk(OddImage(build)) && DecHeader(OddImage(build)) == OddHeader(build)
    ensures |OddImage(build)| == HEADER_SIZE + build.bloomBytes + 32
  {
    var h, image := OddHeader(build), OddImage(build);
    assert HeaderWordsFit(h);
    forall i | 0 <= i < 25
      ensures Fits(HeaderFields(h)[i], FieldWidths()[i])
    {
      FieldFits(h, i);
    }
    HeaderBack(h, seq(build.bloomBytes + 32, _ => 0xFF));
    HeaderOkIf(image, h);
  }

  lemma OddSlots(build: Signature)
    requires Compiled(build)
    ensures HeaderOk(OddImage(build)) && DecHeader(OddImage(build)) == OddHeader(build)
    ensures TablesInside(OddHeader(build), |OddImage(build)|)
    ensures var s := SnapAt(OddHeader(build), OddImage(build)); s.pool == [] && s.ctxPool == [] && s.ctxSlot == [-1]
  {
    OddHeaderRead(build);
    hide DecHeader, HeaderOk, EncHeader;
    var rest := From(OddImage(build), HEADER_SIZE + 1);
    assert |rest| >= 4 && forall i :: 0 <= i < 4 ==> rest[i] == 0xFF;
    hide OddImage, Compiled;
    OneSlot(rest);
  }

  lemma OneSlot(rest: seq<byte>)
    requires |rest| >= 4 && forall i :: 0 <= i < 4 ==> rest[i] == 0xFF
    ensures Array(DecInt, 4, rest, 1) == [-1]
  {
    assert Slot(rest, 4, 0) == [0xFF, 0xFF, 0xFF, 0xFF];
    AllOnes();
  }

  lemma AllOnes()
    ensures DecInt([0xFF, 0xFF, 0xFF, 0xFF]) == -1
  {
    var s: seq<byte> := [0xFF, 0xFF, 0xFF, 0xFF];
    assert s[1..] == [0xFF, 0xFF, 0xFF] && s[1..][1..] == [0xFF, 0xFF] && s[1..][1..][1..] == [0xFF];
  }

  lemma OddSections(build: Signature)
    requires Compiled(build)
    ensures var h, len := OddHeader(build), HEADER_SIZE + build.bloomBytes + 32;
      && LandmarksInside(h, len) && SchemaInside(h, len) && SignatureOf(h) == build && RealBuild(build)
      && h.btEntrySize == BT_ENTRY_SIZE && h.ctxEntrySize == CTX_ENTRY_SIZE && !AlignmentOf(h).ctxSlot
      && U32(h.lmK) == 0 && h.schemaRec == 0
  {
  }

  lemma OddAccepted(build: Signature)
    requires Compiled(build)
    ensures RealBuild(build) && Accepts(OddImage(build), build) && ParseMisreads(OddImage(build), build)
  {
    OddSlots(build);
    OddSections(build);
    OddHeaderRead(build);
    var h, image := OddHeader(build), OddImage(build);
    var s := SnapAt(h, image);
    hide OddHeader, OddImage, Compiled, HeaderOk, DecHeader, SnapAt, Acceptable, Misreads, TablesInside,
         LandmarksInside,
         SchemaInside, SignatureOf, RealBuild, AlignmentOf;
    NoTablesAcceptable(s, build);
    AcceptableMisreads(s, build, AlignmentOf(h));
  }

  lemma NothingToServe(p: Prior)
    requires Loaded(p) && p.snap.ctxPool == [] && p.snap.ctxSlot == [-1] && p.lmCtx == [] && p.schemaRec == 0
    ensures RowsServe(p) && CountsServe(p) && LookupsServe(p)
  {
    assert Reached(p.snap.ctxSlot)[0] < 0;
  }

  /**
   * An image whose bytes are all in order, and whose rows, counts and lookups serve: only its slot table, at an odd
   * offset, makes it one that parsing itself misreads.
   */
  lemma AcceptedButMisread(m: Loader)
    requires Working(m)
    ensures RealBuild(m.build) && Accepts(OddImage(m.build), m.build) && ParseMisreads(OddImage(m.build), m.build)
    ensures |OddImage(m.build)| >= HEADER_SIZE
    ensures var p := OddPrior(m);
      Loaded(p) && RowsServe(p) && CountsServe(p) && LookupsServe(p) && !SafeToUse(OddImage(m.build), m.build, p)
  {
    hide *;
    OddBuild(m);
    OddAccepted(m.build);
    OddHeaderRead(m.build);
    assert |OddImage(m.build)| >= HEADER_SIZE;
    OddLoaded(m);
    OddShape(m);
    NothingToServe(OddPrior(m));
    MisreadUnsafe(OddImage(m.build), m.build, OddPrior(m));
  }

  lemma OddBuild(m: Loader)
    requires Working(m)
    ensures Compiled(m.build)
  {
  }

  lemma OddLoaded(m: Loader)
    requires Working(m)
    ensures Loaded(OddPrior(m))
  {
    var image := OddImage(m.build);
    OddAccepted(m.build);
    AcceptedSnap(image, m.build);
    OddLandmarks(m);
    hide OddImage, DecHeader, HeaderOk, Accepts, PriorAt, Loaded, Landmarks.IndexOf, GoodLuts, TablesInside,
         LandmarksInside,
         SchemaInside, Acceptable, LmCtxAt;
    AcceptedIsLoaded(image, m.build, m.hs, m.luts, m.lmHash, [], m.digest);
  }

  lemma OddLandmarks(m: Loader)
    requires Compiled(m.build)
    ensures HeaderOk(OddImage(m.build)) && LandmarksInside(DecHeader(OddImage(m.build)), |OddImage(m.build)|)
    ensures Landmarks.IndexOf([], LmCtxAt(DecHeader(OddImage(m.build)), OddImage(m.build)), m.lmHash)
  {
    OddHeaderRead(m.build);
    OddSections(m.build);
    hide OddHeader, OddImage, HeaderOk, DecHeader;
  }

  ghost function OddPrior(m: Loader): Prior
    requires Working(m)
  {
    OddAccepted(m.build);
    AcceptedSnap(OddImage(m.build), m.build);
    PriorAt(OddImage(m.build), m.hs, m.luts, m.lmHash, [], m.digest)
  }

  lemma OddShape(m: Loader)
    requires Working(m)
    ensures var p := OddPrior(m);
      p.snap.ctxPool == [] && p.snap.ctxSlot == [-1] && p.lmCtx == [] && p.schemaRec == 0
  {
    OddSlots(m.build);
    OddSections(m.build);
    OddAccepted(m.build);
    AcceptedSnap(OddImage(m.build), m.build);
    hide OddHeader, OddImage, SnapAt, HeaderOk, DecHeader, Accepts, TablesInside, LandmarksInside, SchemaInside,
         Acceptable;
  }

  lemma MisreadUnsafe(base: seq<byte>, build: Signature, p: Prior)
    requires RealBuild(build) && |base| >= HEADER_SIZE && Loaded(p) && ParseMisreads(base, build)
    ensures !SafeToUse(base, build, p)
  {
    hide ParseMisreads, Loaded, AllReadsAligned, AlwaysGoesOn;
  }
}
