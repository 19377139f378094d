/**
 * What accepted images are good for.  Parsing makes sure of shapes, ranges and walks that end, and not of
 * alignment, widths, counts or probes that end; AcceptedUsable says exactly which accepted images the codec can
 * use, and SavedIsGood that trained tables saved with the widths their builders make are among them.
 */
module LoadedPriors {
  import opened Words
  import opened Arith
  import opened Occurrences
  import opened BtTables
  import opened BtSnapshot
  import opened LittleEndian
  import opened ImageLayout
  import opened ImageStructs
  import opened CodecModel
  import opened CountSafety
  import opened PriorImage
  import Distribution
  import DistributionBounds
  import FixedLookup
  import Landmarks
  import BtTrain

  // ----- an accepted image is loaded -----

  /** Any accepted image holds a prior of the right shape, with every index in range and every walk ending. */
  lemma AcceptedIsLoaded(base: seq<byte>, build: Signature, hs: BtTrain.Hashes, luts: Distribution.Luts,
                         lmHash: Context -> nat, slots: seq<int>, digest: seq<byte> -> seq<byte>)
    requires RealBuild(build) && build.bloomBytes > 0 && Accepts(base, build) && Distribution.GoodLuts(luts)
    requires |digest(base[..DecHeader(base).fileSize])| == 32
    requires Landmarks.IndexOf(slots, LmCtxAt(DecHeader(base), base), lmHash)
    ensures Loaded(PriorAt(base, hs, luts, lmHash, slots, digest))
  {
    var h := DecHeader(base);
    AcceptedSnap(base, build);
    PriorShape(base, hs, luts, lmHash, slots, digest);
    hide *;
    BloomLength(h, base);
    AcceptableIsReadable(SnapAt(h, base), build, build);
    LoadedIf(PriorAt(base, hs, luts, lmHash, slots, digest));
  }

  lemma AcceptedSnap(base: seq<byte>, build: Signature)
    requires RealBuild(build) && Accepts(base, build)
    ensures var h := DecHeader(base);
      && HeaderOk(base) && TablesInside(h, |base|) && LandmarksInside(h, |base|) && SchemaInside(h, |base|)
      && h.btEntrySize == BT_ENTRY_SIZE && h.ctxEntrySize == CTX_ENTRY_SIZE && h.bloomBytes == build.bloomBytes
      && Acceptable(SnapAt(h, base), build, build)
  {
    hide DecHeader, HeaderOk, TablesInside, LandmarksInside, SchemaInside, SnapAt, Acceptable;
  }

  lemma PriorShape(base: seq<byte>, hs: BtTrain.Hashes, luts: Distribution.Luts,
                   lmHash: Context -> nat, slots: seq<int>, digest: seq<byte> -> seq<byte>)
    requires HeaderOk(base)
    requires var h := DecHeader(base);
      && TablesInside(h, |base|) && LandmarksInside(h, |base|) && SchemaInside(h, |base|)
      && h.btEntrySize == BT_ENTRY_SIZE && h.ctxEntrySize == CTX_ENTRY_SIZE
    requires |digest(base[..DecHeader(base).fileSize])| == 32
    ensures var h, p := DecHeader(base), PriorAt(base, hs, luts, lmHash, slots, digest);
      && p.snap == SnapAt(h, base) && p.hs == hs && p.luts == luts && p.lmSlot == slots && p.lmHash == lmHash
      && p.lmCtx == LmCtxAt(h, base) && p.lmCum == LmCumAt(h, base)
      && p.schemaModes == ModesAt(h, base) && p.schemaCum == SchemaCumAt(h, base)
      && (p.lmCtx != [] ==> 1 <= p.lmN <= MAX_DEPTH)
      && (forall i :: 0 <= i < |p.lmCtx| ==> |p.lmCtx[i]| == p.lmN)
      && |p.lmCum| == |p.lmCtx| && (forall i :: 0 <= i < |p.lmCum| ==> |p.lmCum[i]| == 256)
      && p.schemaRec <= SCHEMA_MAX && |p.schemaModes| == |p.schemaCum| == p.schemaRec
      && (forall i :: 0 <= i < |p.schemaCum| ==> |p.schemaCum[i]| == 256)
      && |p.id| == 16
  {
    var h := DecHeader(base);
    hide DecHeader, SnapAt, TablesInside;
    LandmarkCount(h, base);
    RowLengths(h, base);
  }

  lemma LandmarkCount(h: Header, base: seq<byte>)
    requires |h.offs| == 9 && LandmarksInside(h, |base|)
    ensures LmCtxAt(h, base) != [] ==> h.lmK > 0
  {
    assert h.lmK == 0 ==> U32(h.lmK) == 0;
  }

  lemma ElementLengths<T>(dec: seq<byte> -> seq<T>, size: nat, s: seq<byte>, n: nat, k: nat)
    requires n * size <= |s| && forall e: seq<byte> :: |e| == size ==> |dec(e)| == k
    ensures forall i :: 0 <= i < n ==> |Array(dec, size, s, n)[i]| == k
  {
    forall i | 0 <= i < n
      ensures |Array(dec, size, s, n)[i]| == k
    {
      InArray(size, n, i);
      assert Array(dec, size, s, n)[i] == dec(Slot(s, size, i));
    }
  }

  lemma RowLengths(h: Header, base: seq<byte>)
    requires |h.offs| == 9 && LandmarksInside(h, |base|) && SchemaInside(h, |base|)
    ensures forall i :: 0 <= i < |LmCtxAt(h, base)| ==> |LmCtxAt(h, base)[i]| == h.lmN
    ensures forall i :: 0 <= i < |LmCumAt(h, base)| ==> |LmCumAt(h, base)[i]| == 256
    ensures forall i :: 0 <= i < |SchemaCumAt(h, base)| ==> |SchemaCumAt(h, base)[i]| == 256
  {
    if U32(h.lmK) > 0 {
      LandmarkCount(h, base);
      Truncated(h.lmK, h.lmN);
      Truncated(h.lmK, 512);
      hide DecWidths, Array;
      ElementLengths(Same, h.lmN, From(base, h.offs[5]), U32(h.lmK), h.lmN);
      ElementLengths(DecWidths, 512, From(base, h.offs[6]), U32(h.lmK), 256);
    }
    if h.schemaRec > 0 {
      hide DecWidths, Array;
      ElementLengths(DecWidths, 512, From(base, h.offs[8]), h.schemaRec, 256);
    }
  }

  lemma BloomLength(h: Header, base: seq<byte>)
    requires |h.offs| == 9 && TablesInside(h, |base|)
    requires h.btEntrySize == BT_ENTRY_SIZE && h.ctxEntrySize == CTX_ENTRY_SIZE
    ensures |SnapAt(h, base).bloom| == 8 * h.bloomBytes
  {
    var s := From(base, h.offs[4]);
    var gs := Array(DecBits, 1, s, h.bloomBytes);
    forall i | 0 <= i < |gs|
      ensures |gs[i]| == 8
    {
      InArray(1, h.bloomBytes, i);
      assert gs[i] == DecBits(Slot(s, 1, i));
    }
    FlatLength(gs);
  }

  lemma {:induction false} FlatLength(gs: seq<seq<bool>>)
    requires forall i :: 0 <= i < |gs| ==> |gs[i]| == 8
    ensures |Flat(gs)| == 8 * |gs|
  {
    if gs != [] {
      FlatLength(gs[..|gs| - 1]);
    }
  }

  lemma LoadedIf(p: Prior)
    requires Readable(p.snap) && Distribution.GoodLuts(p.luts) && Landmarks.IndexOf(p.lmSlot, p.lmCtx, p.lmHash)
    requires p.lmCtx != [] ==> 1 <= p.lmN <= MAX_DEPTH
    requires forall i :: 0 <= i < |p.lmCtx| ==> |p.lmCtx[i]| == p.lmN
    requires |p.lmCum| == |p.lmCtx| && forall i :: 0 <= i < |p.lmCum| ==> |p.lmCum[i]| == 256
    requires p.schemaRec <= SCHEMA_MAX && |p.schemaModes| == |p.schemaCum| == p.schemaRec
    requires forall i :: 0 <= i < |p.schemaCum| ==> |p.schemaCum[i]| == 256
    requires |p.id| == 16
    ensures Loaded(p)
  {
    hide Readable, Landmarks.IndexOf;
  }

  // ----- exactly the usable ones -----

  /** Every one of n elements of a section stands at a multiple of its alignment. */
  ghost predicate ReadsAligned(off: nat, n: nat, size: nat, align: nat)
    requires align > 0
  {
    forall i :: 0 <= i < n ==> (off + i * size) % align == 0
  }

  lemma ReadsAlignedExactly(off: nat, n: nat, size: nat, align: nat)
    requires align > 0 && size % align == 0
    ensures ReadsAligned(off, n, size, align) <==> n == 0 || off % align == 0
  {
    if n > 0 && ReadsAligned(off, n, size, align) {
      var zero := 0;
      assert (off + zero * size) % align == 0;
    }
    if off % align == 0 {
      forall i | 0 <= i < n
        ensures (off + i * size) % align == 0
      {
        Multiples(off, i, size, align);
      }
    }
  }

  lemma Multiples(off: nat, i: nat, size: nat, align: nat)
    requires align > 0 && off % align == 0 && size % align == 0
    ensures (off + i * size) % align == 0
  {
    var p, q := off / align, size / align;
    assert off + i * size == (p + i * q) * align by {
      assert off == p * align && size == q * align;
      assert i * (q * align) == i * q * align;
    }
    DivUnique(off + i * size, align, p + i * q, 0);
  }

  /** The reads that parsing and the codec make of structures, ints and 16-bit widths are aligned. */
  ghost predicate AllReadsAligned(h: Header, p: Prior)
    requires |h.offs| == 9
  {
    && ReadsAligned(h.offs[1], |p.snap.pool|, BT_ENTRY_SIZE, 4)
    && ReadsAligned(h.offs[2], |p.snap.ctxPool|, CTX_ENTRY_SIZE, 4)
    && ReadsAligned(h.offs[3], |p.snap.ctxSlot|, 4, 4)
    && (if Structural(p) then ReadsAligned(h.offs[8], 256 * |p.schemaCum|, 2, 2)
        else ReadsAligned(h.offs[6], 256 * |p.lmCum|, 2, 2))
  }

  /** What a caller can check: the offsets of the sections that are read. */
  predicate SectionsAligned(h: Header, p: Prior)
    requires |h.offs| == 9
  {
    && (p.snap.pool != [] ==> h.offs[1] % 4 == 0)
    && (p.snap.ctxPool != [] ==> h.offs[2] % 4 == 0)
    && h.offs[3] % 4 == 0
    && (Structural(p) ==> h.offs[8] % 2 == 0)
    && (!Structural(p) && p.lmCum != [] ==> h.offs[6] % 2 == 0)
  }

  lemma AlignedExactly(h: Header, p: Prior)
    requires |h.offs| == 9 && |p.snap.ctxSlot| > 0 && |p.schemaCum| == p.schemaRec
    ensures AllReadsAligned(h, p) <==> SectionsAligned(h, p)
  {
    hide ReadsAligned;
    ReadsAlignedExactly(h.offs[1], |p.snap.pool|, BT_ENTRY_SIZE, 4);
    ReadsAlignedExactly(h.offs[2], |p.snap.ctxPool|, CTX_ENTRY_SIZE, 4);
    ReadsAlignedExactly(h.offs[3], |p.snap.ctxSlot|, 4, 4);
    ReadsAlignedExactly(h.offs[8], 256 * |p.schemaCum|, 2, 2);
    ReadsAlignedExactly(h.offs[6], 256 * |p.lmCum|, 2, 2);
  }

  /** Parsing an image that is in order reads all its tables, so it misreads exactly when one of them is not aligned. */
  lemma MisreadExactly(base: seq<byte>, build: Signature)
    requires RealBuild(build) && Accepts(base, build)
    ensures var h := DecHeader(base);
      && |h.offs| == 9 && HeaderOk(base) && TablesInside(h, |base|)
      && h.btEntrySize == BT_ENTRY_SIZE && h.ctxEntrySize == CTX_ENTRY_SIZE
      && var s := SnapAt(h, base);
         ParseMisreads(base, build)
         <==> h.offs[3] % 4 != 0 || (s.ctxPool != [] && h.offs[2] % 4 != 0) || (s.pool != [] && h.offs[1] % 4 != 0)
  {
    var h := DecHeader(base);
    hide DecHeader, SnapAt, Acceptable, Misreads, HeaderOk, TablesInside, LandmarksInside, SchemaInside;
    AcceptableMisreads(SnapAt(h, base), build, AlignmentOf(h));
  }

  /**
   * The image can be used: parsing misreads nothing, the codec reads its rows aligned, and it can go on from every
   * state of every message, with tables that are defined and legal.
   */
  ghost predicate SafeToUse(base: seq<byte>, build: Signature, p: Prior)
    requires RealBuild(build) && |base| >= HEADER_SIZE && Loaded(p)
  {
    !ParseMisreads(base, build) && AllReadsAligned(DecHeader(base), p) && AlwaysGoesOn(p)
  }

  /**
   * Acceptance does not make an image usable.  It is exactly when the sections that are read are aligned, no row that
   * can be handed out holds a zero width, every lookup that can be asked ends and every context entry that
   * can be asked has safe counts.
   */
  lemma AcceptedUsable(base: seq<byte>, build: Signature, hs: BtTrain.Hashes, luts: Distribution.Luts,
                       lmHash: Context -> nat, slots: seq<int>, digest: seq<byte> -> seq<byte>)
    requires RealBuild(build) && build.bloomBytes > 0 && Accepts(base, build) && Distribution.GoodLuts(luts)
    requires |digest(base[..DecHeader(base).fileSize])| == 32
    requires Landmarks.IndexOf(slots, LmCtxAt(DecHeader(base), base), lmHash)
    ensures |base| >= HEADER_SIZE
    ensures var p := PriorAt(base, hs, luts, lmHash, slots, digest);
      && Loaded(p)
      && (SafeToUse(base, build, p)
          <==> SectionsAligned(DecHeader(base), p) && RowsServe(p) && LookupsServe(p) && CountsServe(p))
  {
    AcceptedSnap(base, build);
    PriorShape(base, hs, luts, lmHash, slots, digest);
    AcceptedIsLoaded(base, build, hs, luts, lmHash, slots, digest);
    var p := PriorAt(base, hs, luts, lmHash, slots, digest);
    hide *;
    UsableWhen(p);
    MisreadExactly(base, build);
    SafeWhen(base, build, p);
  }

  lemma SafeWhen(base: seq<byte>, build: Signature, p: Prior)
    requires RealBuild(build) && |base| >= HEADER_SIZE && Loaded(p)
    requires var h := DecHeader(base);
      ParseMisreads(base, build)
      <==> h.offs[3] % 4 != 0 || (p.snap.ctxPool != [] && h.offs[2] % 4 != 0)
           || (p.snap.pool != [] && h.offs[1] % 4 != 0)
    ensures SafeToUse(base, build, p) <==> SectionsAligned(DecHeader(base), p) && AlwaysGoesOn(p)
  {
    LoadedSizes(p);
    hide ParseMisreads, Loaded, AlwaysGoesOn, AllReadsAligned;
    AlignedExactly(DecHeader(base), p);
  }

  lemma LoadedSizes(p: Prior)
    requires Loaded(p)
    ensures |p.snap.ctxSlot| > 0 && |p.schemaCum| == p.schemaRec
  {
  }

  lemma UsableWhen(p: Prior)
    requires Loaded(p)
    ensures AlwaysGoesOn(p) <==> RowsServe(p) && LookupsServe(p) && CountsServe(p)
  {
    UsableExactly(p);
    hide Loaded, RowsServe, LookupsServe, CountsServe, AlwaysGoesOn;
  }

  // ----- what is saved can be used -----

  lemma PositiveServes(p: Prior)
    requires forall i :: 0 <= i < |p.lmCum| ==> StoredWidths(p.lmCum[i])
    requires forall i :: 0 <= i < |p.schemaCum| ==> StoredWidths(p.schemaCum[i])
    ensures RowsServe(p)
  {
  }

  /** Where every distribution is defined, counts and lookups serve. */
  lemma DefinedServes(p: Prior)
    requires Loaded(p) && forall w: seq<byte> :: |w| <= MAX_DEPTH ==> Distribution.GoodView(ViewOf(p, w))
    ensures CountsServe(p) && LookupsServe(p)
  {
    ExemptSuffixes(p);
    ReadableOf(p);
    forall w: seq<byte> | |w| <= MAX_DEPTH
      ensures Distribution.TableView(ViewOf(p, w)) && Distribution.Defined(ViewOf(p, w))
    {
      assert Distribution.GoodView(ViewOf(p, w));
    }
    hide Loaded, Readable, Distribution.GoodLuts, Distribution.TableView, Distribution.Defined, Distribution.GoodView,
         Exempting, EntriesSafe, ProbesEnd, Served;
    SafeExactly(p.snap, p.hs, p.luts, Exempt(p));
  }

  lemma TrainedServes(p: Prior, seen: seq<Update>)
    requires Loaded(p) && Trained(p.snap, p.hs, seen) && DistributionBounds.CountersFit(seen)
    ensures CountsServe(p) && LookupsServe(p)
  {
    assert forall w: seq<byte> :: |w| <= MAX_DEPTH ==> Distribution.TableView(ViewOf(p, w));
    hide *;
    forall w: seq<byte> | |w| <= MAX_DEPTH
      ensures Distribution.GoodView(ViewOf(p, w))
    {
      DistributionBounds.TrainedDefined(ViewOf(p, w), seen);
    }
    DefinedServes(p);
  }

  lemma FixedServes(p: Prior, seen: seq<Update>, poolCap: nat, ctxCap: nat)
    requires Loaded(p) && TrainedFixed(p.snap, p.hs, seen, poolCap, ctxCap) && TotalsFit(p)
    ensures CountsServe(p) && LookupsServe(p)
  {
    assert forall w: seq<byte> :: |w| <= MAX_DEPTH ==> Distribution.TableView(ViewOf(p, w));
    hide *;
    forall w: seq<byte> | |w| <= MAX_DEPTH
      ensures Distribution.GoodView(ViewOf(p, w))
    {
      FixedFits(p, seen, poolCap, ctxCap, w);
    }
    DefinedServes(p);
  }

  /** No counter of a context came near its end. */
  ghost predicate TotalsFit(p: Prior)
    requires Loaded(p)
  {
    forall c :: TotalOf(p.snap, p.hs, c) < TWO32 - 256
  }

  lemma FixedFits(p: Prior, seen: seq<Update>, poolCap: nat, ctxCap: nat, w: seq<byte>)
    requires Loaded(p) && TrainedFixed(p.snap, p.hs, seen, poolCap, ctxCap) && TotalsFit(p) && |w| <= MAX_DEPTH
    requires Distribution.TableView(ViewOf(p, w))
    ensures Distribution.GoodView(ViewOf(p, w))
  {
    ReadableOf(p);
    hide Loaded, TrainedFixed, Distribution.TableView, TotalOf, Readable;
    FixedLookup.FixedDefined(ViewOf(p, w), seen, poolCap, ctxCap);
  }

  lemma ReadableOf(p: Prior)
    requires Loaded(p)
    ensures Readable(p.snap) && Distribution.GoodLuts(p.luts)
  {
  }

  /** Sections are saved at multiples of 8. */
  lemma SavedAligned(c: Content, p: Prior)
    requires Saveable(c)
    ensures |ImageOf(c)| >= HEADER_SIZE && SectionsAligned(DecHeader(ImageOf(c)), p)
  {
    HeaderRead(c);
    assert |ImageOf(c)| >= HEADER_SIZE;
    hide *;
    OffsetsAligned(c);
    AlignedWhen(HeaderOf(c), p);
  }

  lemma AlignedWhen(h: Header, p: Prior)
    requires |h.offs| == 9 && forall i :: 0 <= i < 9 ==> h.offs[i] % 8 == 0
    ensures SectionsAligned(h, p)
  {
    hide Structural;
    forall i | 0 <= i < 9
      ensures h.offs[i] % 4 == 0 && h.offs[i] % 2 == 0
    {
      Multiple8(h.offs[i]);
    }
  }

  lemma OffsetsAligned(c: Content)
    ensures forall i :: 0 <= i < 9 ==> HeaderOf(c).offs[i] % 8 == 0
  {
    forall i | 0 <= i < 9
      ensures HeaderOf(c).offs[i] % 8 == 0
    {
      assert HeaderOf(c).offs[i] == OffsetOf(HEADER_SIZE, SizesOf(c), i);
    }
  }

  lemma Multiple8(x: nat)
    requires x % 8 == 0
    ensures x % 4 == 0 && x % 2 == 0
  {
    var q := x / 8;
    DivUnique(x, 4, 2 * q, 0);
    DivUnique(x, 2, 4 * q, 0);
  }

  /**
   * From training to use: the saved image of trained tables, with builder-made widths, loads as a prior the codec
   * can use.
   */
  lemma SavedIsGood(c: Content, hs: BtTrain.Hashes, seen: seq<Update>, luts: Distribution.Luts,
                    lmHash: Context -> nat, slots: seq<int>, digest: seq<byte> -> seq<byte>)
    requires Saveable(c) && c.build.bloomBytes > 0 && Trained(c.snap, hs, seen)
    requires DistributionBounds.CountersFit(seen) && Distribution.GoodLuts(luts)
    requires (forall i :: 0 <= i < |c.lmCum| ==> StoredWidths(c.lmCum[i]))
    requires (forall i :: 0 <= i < |c.schemaCum| ==> StoredWidths(c.schemaCum[i]))
    requires Landmarks.IndexOf(slots, c.lmCtx, lmHash) && |digest(ImageOf(c))| == 32
    ensures Accepts(ImageOf(c), c.build) && |ImageOf(c)| >= HEADER_SIZE
    ensures var p := PriorAt(ImageOf(c), hs, luts, lmHash, slots, digest);
      GoodPrior(p) && p.snap == c.snap && SafeToUse(ImageOf(c), c.build, p)
  {
    TrainedIsAcceptable(c.snap, hs, seen, c.build);
    assert RealBuild(c.build);
    hide *;
    var p := SavedPrior(c, hs, luts, lmHash, slots, digest);
    PositiveServes(p);
    TrainedServes(p, seen);
    SavedUsable(c, hs, luts, lmHash, slots, digest, p);
  }

  /** The same for the tables of a build of fixed capacity, whatever it has refused. */
  lemma SavedFixedIsGood(c: Content, hs: BtTrain.Hashes, seen: seq<Update>, poolCap: nat, ctxCap: nat,
                         luts: Distribution.Luts, lmHash: Context -> nat, slots: seq<int>,
                         digest: seq<byte> -> seq<byte>)
    requires Saveable(c) && c.build.bloomBytes > 0 && TrainedFixed(c.snap, hs, seen, poolCap, ctxCap)
    requires Readable(c.snap) && forall x :: TotalOf(c.snap, hs, x) < TWO32 - 256
    requires Distribution.GoodLuts(luts)
    requires (forall i :: 0 <= i < |c.lmCum| ==> StoredWidths(c.lmCum[i]))
    requires (forall i :: 0 <= i < |c.schemaCum| ==> StoredWidths(c.schemaCum[i]))
    requires Landmarks.IndexOf(slots, c.lmCtx, lmHash) && |digest(ImageOf(c))| == 32
    ensures Accepts(ImageOf(c), c.build) && |ImageOf(c)| >= HEADER_SIZE
    ensures var p := PriorAt(ImageOf(c), hs, luts, lmHash, slots, digest);
      GoodPrior(p) && p.snap == c.snap && SafeToUse(ImageOf(c), c.build, p)
  {
    FixedLookup.FixedIsAcceptable(c.snap, hs, seen, poolCap, ctxCap, c.build);
    assert RealBuild(c.build);
    hide *;
    var p := SavedPrior(c, hs, luts, lmHash, slots, digest);
    assert TotalsFit(p) by {
      FixedTotals(p, c.snap, hs);
    }
    PositiveServes(p);
    FixedServes(p, seen, poolCap, ctxCap);
    SavedUsable(c, hs, luts, lmHash, slots, digest, p);
  }

  lemma FixedTotals(p: Prior, s: Snapshot, hs: BtTrain.Hashes)
    requires Loaded(p) && p.snap == s && p.hs == hs && Readable(s)
    requires forall x :: TotalOf(s, hs, x) < TWO32 - 256
    ensures TotalsFit(p)
  {
  }

  lemma SavedUsable(c: Content, hs: BtTrain.Hashes, luts: Distribution.Luts, lmHash: Context -> nat, slots: seq<int>,
                    digest: seq<byte> -> seq<byte>, p: Prior)
    requires Saveable(c) && c.build.bloomBytes > 0 && RealBuild(c.build) && Accepts(ImageOf(c), c.build)
    requires Distribution.GoodLuts(luts) && Landmarks.IndexOf(slots, c.lmCtx, lmHash) && |digest(ImageOf(c))| == 32
    requires p == PriorAt(ImageOf(c), hs, luts, lmHash, slots, digest) && Loaded(p) && p.lmCtx == c.lmCtx
    requires RowsServe(p) && CountsServe(p) && LookupsServe(p)
    ensures GoodPrior(p) && |ImageOf(c)| >= HEADER_SIZE && SafeToUse(ImageOf(c), c.build, p)
  {
    hide *;
    WholeFile(c);
    AcceptedSnap(ImageOf(c), c.build);
    PriorShape(ImageOf(c), hs, luts, lmHash, slots, digest);
    GoodWhen(p);
    SavedAligned(c, p);
    AcceptedUsable(ImageOf(c), c.build, hs, luts, lmHash, slots, digest);
  }

  /** The prior that a saved image holds is what was saved. */
  lemma SavedPrior(c: Content, hs: BtTrain.Hashes, luts: Distribution.Luts,
                   lmHash: Context -> nat, slots: seq<int>, digest: seq<byte> -> seq<byte>) returns (p: Prior)
    requires Saveable(c) && c.build.bloomBytes > 0 && Acceptable(c.snap, c.build, c.build)
    requires Distribution.GoodLuts(luts)
    requires Landmarks.IndexOf(slots, c.lmCtx, lmHash) && |digest(ImageOf(c))| == 32
    ensures Accepts(ImageOf(c), c.build) && p == PriorAt(ImageOf(c), hs, luts, lmHash, slots, digest) && Loaded(p)
    ensures p.snap == c.snap && p.hs == hs && p.luts == luts && p.lmCtx == c.lmCtx && p.lmCum == c.lmCum
    ensures p.schemaModes == c.schemaModes && p.schemaCum == c.schemaCum && p.schemaRec == |c.schemaCum|
  {
    assert RealBuild(c.build);
    hide *;
    var image := ImageOf(c);
    SavedParses(c);
    WholeFile(c);
    AcceptedSnap(image, c.build);
    PriorShape(image, hs, luts, lmHash, slots, digest);
    AcceptedIsLoaded(image, c.build, hs, luts, lmHash, slots, digest);
    p := PriorAt(image, hs, luts, lmHash, slots, digest);
  }
}
