/** Saving a prior to a file image and parsing an image back. */
module PriorImage {
  import opened Words
  import opened Arith
  import opened Occurrences
  import opened BtSnapshot
  import opened LittleEndian
  import opened ImageLayout
  import opened ImageStructs
  import opened CodecModel
  import Distribution
  import BtTrain
  import Landmarks

  const HEADER_SIZE: nat := 168
  const VERSION: nat := 3
  const MAGIC: seq<byte> := [66, 67, 66, 80]

  // ----- header -----

  datatype Header = Header(version: nat, btEntrySize: nat, ctxEntrySize: nat, maxDepth: nat, pres: nat,
                           bloomBits: nat, poolUsed: nat, ctxUsed: nat, ctxNslots: nat, bloomBytes: nat,
                           winLen: nat, lmN: nat, lmK: nat, schemaRec: nat, schemaPos: nat,
                           offs: seq<nat>, fileSize: nat)

  /** Bytes of each field after the magic: 32-bit and 64-bit words. */
  function FieldWidths(): (ws: seq<nat>)
    ensures |ws| == 25
    ensures forall i :: 0 <= i < |ws| ==> ws[i] == 4 || ws[i] == 8
  {
    Run(5, 4) + (Run(5, 8) + (Run(2, 4) + (Run(1, 8) + (Run(2, 4) + Run(10, 8)))))
  }

  lemma WidthsSum()
    ensures Sum(FieldWidths()) == HEADER_SIZE - 4
  {
    var a, b, c, d, e, f := Run(5, 4), Run(5, 8), Run(2, 4), Run(1, 8), Run(2, 4), Run(10, 8);
    SumRun(5, 4);
    SumRun(5, 8);
    SumRun(2, 4);
    SumRun(1, 8);
    SumRun(10, 8);
    hide Sum, Run;
    SumConcat(a, b + (c + (d + (e + f))));
    SumConcat(b, c + (d + (e + f)));
    SumConcat(c, d + (e + f));
    SumConcat(d, e + f);
    SumConcat(e, f);
  }

  function HeaderFields(h: Header): (vs: seq<nat>)
    requires |h.offs| == 9
    ensures |vs| == 25
  {
    [h.version, h.btEntrySize, h.ctxEntrySize, h.maxDepth, h.pres,
     h.bloomBits, h.poolUsed, h.ctxUsed, h.ctxNslots, h.bloomBytes,
     h.winLen, h.lmN, h.lmK, h.schemaRec, h.schemaPos] + h.offs + [h.fileSize]
  }

  function HeaderOfFields(vs: seq<nat>): (h: Header)
    requires |vs| == 25
    ensures |h.offs| == 9
  {
    Header(vs[0], vs[1], vs[2], vs[3], vs[4], vs[5], vs[6], vs[7], vs[8], vs[9],
           vs[10], vs[11], vs[12], vs[13], vs[14], vs[15..24], vs[24])
  }

  function EncHeader(h: Header): (s: seq<byte>)
    requires |h.offs| == 9
    ensures |s| == HEADER_SIZE
  {
    WidthsSum();
    MAGIC + Struct(FieldWidths(), HeaderFields(h))
  }

  function DecHeader(s: seq<byte>): (h: Header)
    requires |s| >= HEADER_SIZE
    ensures |h.offs| == 9
  {
    WidthsSum();
    HeaderOfFields(FieldsOf(FieldWidths(), s[4..]))
  }

  lemma FieldsBack(h: Header)
    requires |h.offs| == 9
    ensures HeaderOfFields(HeaderFields(h)) == h
  {
  }

  lemma HeaderBack(h: Header, rest: seq<byte>)
    requires |h.offs| == 9 && FieldsFit(FieldWidths(), HeaderFields(h))
    ensures (EncHeader(h) + rest)[..4] == MAGIC && DecHeader(EncHeader(h) + rest) == h
  {
    hide FieldWidths, HeaderFields, HeaderOfFields, Struct, FieldsOf, FieldsFit, Sum;
    var r := Struct(FieldWidths(), HeaderFields(h));
    StructBack(FieldWidths(), HeaderFields(h), rest);
    FieldsBack(h);
    assert (EncHeader(h) + rest)[4..] == r + rest;
  }

  predicate IsWord64(h: Header) {
    && |h.offs| == 9
    && (forall i :: 0 <= i < 9 ==> h.offs[i] < TWO64)
    && h.version < TWO64 && h.btEntrySize < TWO64 && h.ctxEntrySize < TWO64 && h.maxDepth < TWO64 && h.pres < TWO64
    && h.bloomBits < TWO64 && h.poolUsed < TWO64 && h.ctxUsed < TWO64 && h.ctxNslots < TWO64 && h.bloomBytes < TWO64
    && h.winLen < TWO64 && h.lmN < TWO64 && h.lmK < TWO64 && h.schemaRec < TWO64 && h.schemaPos < TWO64
    && h.fileSize < TWO64
  }

  lemma FieldFits64(v: nat, k: nat)
    requires Fits(v, k) && (k == 4 || k == 8)
    ensures v < TWO64
  {
    Pow2Values();
    Pow2Add(32, 32);
    Pow2Mono(8 * k, 64);
  }

  lemma DecHeaderWords(s: seq<byte>)
    requires |s| >= HEADER_SIZE
    ensures IsWord64(DecHeader(s))
  {
    WidthsSum();
    var ws := FieldWidths();
    var vs := FieldsOf(ws, s[4..]);
    hide FieldWidths, FieldsOf, Fits, Sum;
    FieldsOfFit(ws, s[4..]);
    forall i | 0 <= i < 25
      ensures vs[i] < TWO64
    {
      FieldFits64(vs[i], ws[i]);
    }
  }

  // ----- what is saved -----

  /** The tables, the landmarks and the record schema that go into a file. */
  datatype Content = Content(build: Signature, window: seq<byte>, winLen: nat, snap: Snapshot,
                             lmN: nat, lmCtx: seq<Context>, lmCum: seq<seq<nat>>,
                             schemaModes: seq<bool>, schemaCum: seq<seq<nat>>)

  /** The sizes the structures have in a build of 32-bit ints. */
  predicate RealBuild(b: Signature) {
    && b.btEntrySize == BT_ENTRY_SIZE && b.ctxEntrySize == CTX_ENTRY_SIZE && b.maxDepth == MAX_DEPTH
    && b.pres < TWO32 && b.bloomBits < TWO32 && b.bloomBytes == b.bloomBits / 8
  }

  predicate TablesFit(c: Content) {
    && |c.window| == MAX_DEPTH && c.winLen <= MAX_DEPTH
    && (forall e :: e in c.snap.pool ==> BtFits(e))
    && (forall e :: e in c.snap.ctxPool ==> CtxFits(e))
    && (forall x :: x in c.snap.ctxSlot ==> FitsInt32(x))
    && |c.snap.bloom| == 8 * c.build.bloomBytes
  }

  predicate LandmarksFit(c: Content) {
    && |c.lmCtx| == |c.lmCum| < TWO32
    && (c.lmCtx != [] ==> 1 <= c.lmN <= MAX_DEPTH)
    && (forall x :: x in c.lmCtx ==> |x| == c.lmN)
    && (forall w :: w in c.lmCum ==> WidthsFit(w))
  }

  predicate SchemaFits(c: Content) {
    && |c.schemaModes| == |c.schemaCum| <= SCHEMA_MAX
    && (forall w :: w in c.schemaCum ==> WidthsFit(w))
  }

  /** Every number fits its field, and the file fits a 64-bit size. */
  predicate Saveable(c: Content) {
    && RealBuild(c.build) && TablesFit(c) && LandmarksFit(c) && SchemaFits(c)
    && OffsetOf(HEADER_SIZE, SizesOf(c), 9) < TWO64
  }

  /** The section lengths as computed before writing. */
  function SizesOf(c: Content): (sizes: seq<nat>)
    ensures |sizes| == 9
  {
    [c.build.maxDepth, |c.snap.pool| * BT_ENTRY_SIZE, |c.snap.ctxPool| * CTX_ENTRY_SIZE, |c.snap.ctxSlot| * 4,
     c.build.bloomBytes, |c.lmCtx| * (if c.lmCtx != [] then c.lmN else 0), |c.lmCum| * 512,
     |c.schemaModes|, |c.schemaCum| * 512]
  }

  function SectionsOf(c: Content): (sections: seq<seq<byte>>)
    ensures |sections| == 9
  {
    [c.window, Elements(EncBt, c.snap.pool), Elements(EncCtx, c.snap.ctxPool), Elements(EncInt, c.snap.ctxSlot),
     Elements(EncBits, Groups(c.snap.bloom)), Elements(Same, c.lmCtx), Elements(EncWidths, c.lmCum),
     Elements(EncMode, c.schemaModes), Elements(EncWidths, c.schemaCum)]
  }

  function HeaderOf(c: Content): (h: Header)
    ensures |h.offs| == 9
  {
    var sizes := SizesOf(c);
    Header(VERSION, c.build.btEntrySize, c.build.ctxEntrySize, c.build.maxDepth, c.build.pres,
           c.build.bloomBits, |c.snap.pool|, |c.snap.ctxPool|, |c.snap.ctxSlot|, c.build.bloomBytes,
           c.winLen, if c.lmCtx != [] then c.lmN else 0, |c.lmCtx|, |c.schemaModes|, |c.schemaModes|,
           seq(9, i requires 0 <= i < 9 => OffsetOf(HEADER_SIZE, sizes, i)), OffsetOf(HEADER_SIZE, sizes, 9))
  }

  function ImageOf(c: Content): seq<byte> {
    Laid(EncHeader(HeaderOf(c)), SectionsOf(c), 9)
  }

  // ----- each section reads back -----

  lemma TablesBack(c: Content)
    requires Saveable(c)
    ensures |Elements(EncBt, c.snap.pool)| == |c.snap.pool| * BT_ENTRY_SIZE
    ensures Array(DecBt, BT_ENTRY_SIZE, Elements(EncBt, c.snap.pool), |c.snap.pool|) == c.snap.pool
    ensures |Elements(EncCtx, c.snap.ctxPool)| == |c.snap.ctxPool| * CTX_ENTRY_SIZE
    ensures Array(DecCtx, CTX_ENTRY_SIZE, Elements(EncCtx, c.snap.ctxPool), |c.snap.ctxPool|) == c.snap.ctxPool
  {
    forall e | e in c.snap.pool
      ensures |EncBt(e)| == BT_ENTRY_SIZE && DecBt(EncBt(e)) == e
    {
      BtBack(e);
    }
    forall e | e in c.snap.ctxPool
      ensures |EncCtx(e)| == CTX_ENTRY_SIZE && DecCtx(EncCtx(e)) == e
    {
      CtxBack(e);
    }
    hide *;
    ArrayBack(EncBt, DecBt, BT_ENTRY_SIZE, c.snap.pool);
    ArrayBack(EncCtx, DecCtx, CTX_ENTRY_SIZE, c.snap.ctxPool);
  }

  lemma SlotsBack(c: Content)
    requires Saveable(c)
    ensures |Elements(EncInt, c.snap.ctxSlot)| == |c.snap.ctxSlot| * 4
    ensures Array(DecInt, 4, Elements(EncInt, c.snap.ctxSlot), |c.snap.ctxSlot|) == c.snap.ctxSlot
  {
    forall x | x in c.snap.ctxSlot
      ensures |EncInt(x)| == 4 && DecInt(EncInt(x)) == x
    {
      IntBack(x);
    }
    hide *;
    ArrayBack(EncInt, DecInt, 4, c.snap.ctxSlot);
  }

  lemma Eighth(n: nat, m: nat)
    requires n == 8 * m
    ensures n % 8 == 0 && n / 8 == m
  {
    DivUnique(n, 8, m, 0);
  }

  lemma BloomBack(c: Content)
    requires Saveable(c)
    ensures |Elements(EncBits, Groups(c.snap.bloom))| == c.build.bloomBytes
    ensures Flat(Array(DecBits, 1, Elements(EncBits, Groups(c.snap.bloom)), c.build.bloomBytes)) == c.snap.bloom
  {
    assert |c.snap.bloom| == 8 * c.build.bloomBytes;
    hide *;
    Eighth(|c.snap.bloom|, c.build.bloomBytes);
    FlatGroups(c.snap.bloom);
    var gs := Groups(c.snap.bloom);
    forall g | g in gs
      ensures |EncBits(g)| == 1 && DecBits(EncBits(g)) == g
    {
      BitsBack(g);
    }
    ArrayBack(EncBits, DecBits, 1, gs);
  }

  lemma LandmarksBack(c: Content)
    requires Saveable(c) && c.lmCtx != []
    ensures |Elements(Same, c.lmCtx)| == |c.lmCtx| * c.lmN
    ensures Array(Same, c.lmN, Elements(Same, c.lmCtx), |c.lmCtx|) == c.lmCtx
    ensures |Elements(EncWidths, c.lmCum)| == |c.lmCum| * 512
    ensures Array(DecWidths, 512, Elements(EncWidths, c.lmCum), |c.lmCum|) == c.lmCum
  {
    assert forall x :: x in c.lmCtx ==> |Same(x)| == c.lmN && Same(Same(x)) == x;
    forall w | w in c.lmCum
      ensures |EncWidths(w)| == 512 && DecWidths(EncWidths(w)) == w
    {
      WidthsBack(w);
    }
    hide *;
    ArrayBack(Same, Same, c.lmN, c.lmCtx);
    ArrayBack(EncWidths, DecWidths, 512, c.lmCum);
  }

  lemma SchemaBack(c: Content)
    requires Saveable(c)
    ensures |Elements(EncMode, c.schemaModes)| == |c.schemaModes|
    ensures Array(DecMode, 1, Elements(EncMode, c.schemaModes), |c.schemaModes|) == c.schemaModes
    ensures |Elements(EncWidths, c.schemaCum)| == |c.schemaCum| * 512
    ensures Array(DecWidths, 512, Elements(EncWidths, c.schemaCum), |c.schemaCum|) == c.schemaCum
  {
    assert forall m :: m in c.schemaModes ==> |EncMode(m)| == 1 && DecMode(EncMode(m)) == m;
    forall w | w in c.schemaCum
      ensures |EncWidths(w)| == 512 && DecWidths(EncWidths(w)) == w
    {
      WidthsBack(w);
    }
    hide *;
    ArrayBack(EncMode, DecMode, 1, c.schemaModes);
    ArrayBack(EncWidths, DecWidths, 512, c.schemaCum);
  }

  lemma NineSizes(s: seq<seq<byte>>)
    requires |s| == 9
    ensures Sizes(s) == [|s[0]|, |s[1]|, |s[2]|, |s[3]|, |s[4]|, |s[5]|, |s[6]|, |s[7]|, |s[8]|]
  {
  }

  lemma LandmarkSizes(c: Content)
    requires Saveable(c)
    ensures |Elements(Same, c.lmCtx)| == |c.lmCtx| * (if c.lmCtx != [] then c.lmN else 0)
    ensures |Elements(EncWidths, c.lmCum)| == |c.lmCum| * 512
  {
    if c.lmCtx != [] {
      LandmarksBack(c);
    } else {
      assert c.lmCum == [];
    }
  }

  /** The sections have the lengths computed for them. */
  lemma SectionSizes(c: Content)
    requires Saveable(c)
    ensures Sizes(SectionsOf(c)) == SizesOf(c)
  {
    assert |c.window| == c.build.maxDepth;
    TablesBack(c);
    SlotsBack(c);
    BloomBack(c);
    LandmarkSizes(c);
    SchemaBack(c);
    NineSizes(SectionsOf(c));
    hide Elements, Groups, Saveable, Sizes, Array, Flat;
  }

  // ----- saving -----

  lemma HeaderFits(c: Content)
    requires Saveable(c)
    ensures FieldsFit(FieldWidths(), HeaderFields(HeaderOf(c)))
  {
    var ws, vs, h := FieldWidths(), HeaderFields(HeaderOf(c)), HeaderOf(c);
    CountWordsFit(c);
    forall i | 0 <= i < 9
      ensures h.offs[i] < TWO64
    {
      OffsetBelow(SizesOf(c), i);
    }
    forall i | 0 <= i < 25
      ensures Fits(vs[i], ws[i])
    {
      FieldFits(h, i);
    }
  }

  lemma CountWordsFit(c: Content)
    requires Saveable(c)
    ensures |c.snap.pool| < TWO64 && |c.snap.ctxPool| < TWO64 && |c.snap.ctxSlot| < TWO64
  {
    var sizes := SizesOf(c);
    SectionsApart(HEADER_SIZE, sizes, 1, 9);
    SectionsApart(HEADER_SIZE, sizes, 2, 9);
    SectionsApart(HEADER_SIZE, sizes, 3, 9);
  }

  lemma OffsetBelow(sizes: seq<nat>, i: nat)
    requires |sizes| == 9 && i < 9 && OffsetOf(HEADER_SIZE, sizes, 9) < TWO64
    ensures OffsetOf(HEADER_SIZE, sizes, i) < TWO64
  {
    SectionsApart(HEADER_SIZE, sizes, i, 9);
  }

  predicate HeaderWordsFit(h: Header) {
    && |h.offs| == 9 && (forall i :: 0 <= i < 9 ==> h.offs[i] < TWO64)
    && h.version < TWO32 && h.btEntrySize < TWO32 && h.ctxEntrySize < TWO32 && h.maxDepth < TWO32 && h.pres < TWO32
    && h.bloomBits < TWO64 && h.poolUsed < TWO64 && h.ctxUsed < TWO64 && h.ctxNslots < TWO64 && h.bloomBytes < TWO64
    && h.winLen < TWO32 && h.lmN < TWO32 && h.lmK < TWO64 && h.schemaRec < TWO32 && h.schemaPos < TWO32
    && h.fileSize < TWO64
  }

  lemma FieldFits(h: Header, i: nat)
    requires HeaderWordsFit(h) && i < 25
    ensures Fits(HeaderFields(h)[i], FieldWidths()[i])
  {
    var v := HeaderFields(h)[i];
    assert FieldWidths()[i] == 4 ==> v < TWO32;
    assert v < TWO64;
    hide FieldWidths, HeaderFields;
    if FieldWidths()[i] == 4 {
      WordFits(v);
    } else {
      LongFits(v);
    }
  }

  lemma LongFits(v: uint64)
    ensures Fits(v, 8)
  {
    Pow2Word();
  }

  /** The offsets one after the other, and the end. */
  method Layout(c: Content) returns (offs: seq<nat>, end: nat)
    ensures offs == HeaderOf(c).offs && end == HeaderOf(c).fileSize
  {
    var sizes := SizesOf(c);
    var off := Align8(HEADER_SIZE);
    offs := [];
    for i := 0 to 9
      invariant |offs| == i && off == OffsetOf(HEADER_SIZE, sizes, i)
      invariant forall k :: 0 <= k < i ==> offs[k] == OffsetOf(HEADER_SIZE, sizes, k)
    {
      offs := offs + [off];
      off := Align8(off + sizes[i]);
    }
    end := off;
  }

  method WriteAll(head: seq<byte>, sections: seq<seq<byte>>, offs: seq<nat>) returns (image: seq<byte>)
    requires |offs| == |sections|
    requires forall i :: 0 <= i < |sections| ==> offs[i] == OffsetOf(|head|, Sizes(sections), i)
    ensures image == Laid(head, sections, |sections|)
  {
    image := head;
    for i := 0 to |sections|
      invariant image == Laid(head, sections, i)
    {
      image := WriteSection(image, offs[i], head, sections, i);
    }
  }

  lemma ImageParts(c: Content)
    ensures ImageOf(c) == Laid(EncHeader(HeaderOf(c)), SectionsOf(c), |SectionsOf(c)|) && |SectionsOf(c)| == 9
    ensures HeaderOf(c).fileSize == OffsetOf(HEADER_SIZE, SizesOf(c), 9)
    ensures forall i :: 0 <= i < 9 ==> HeaderOf(c).offs[i] == OffsetOf(HEADER_SIZE, SizesOf(c), i)
  {
    hide Laid, OffsetOf, SizesOf, SectionsOf, EncHeader;
  }

  lemma LastSection(c: Content)
    requires Saveable(c)
    ensures |SectionsOf(c)[8]| % 8 == 0
  {
    assert SectionsOf(c)[8] == Elements(EncWidths, c.schemaCum);
    hide *;
    SchemaBack(c);
    Times512(|c.schemaCum|);
  }

  lemma Times512(n: nat)
    ensures n * 512 % 8 == 0
  {
    DivUnique(n * 512, 8, 64 * n, 0);
  }

  /** The file ends exactly at the size its header declares. */
  lemma ImageLength(c: Content)
    requires Saveable(c)
    ensures |ImageOf(c)| == HeaderOf(c).fileSize
  {
    hide *;
    ImageParts(c);
    SectionSizes(c);
    LastSection(c);
    LengthIsFileSize(EncHeader(HeaderOf(c)), SectionsOf(c));
  }

  /** Writes header, padding and sections. */
  method Save(c: Content) returns (image: seq<byte>)
    requires Saveable(c)
    ensures image == ImageOf(c) && |image| == HeaderOf(c).fileSize
  {
    hide *;
    ImageParts(c);
    SectionSizes(c);
    ImageLength(c);
    var offs, end := Layout(c);
    image := WriteAll(EncHeader(HeaderOf(c)), SectionsOf(c), offs);
  }

  // ----- what an image must satisfy to be accepted -----

  function SignatureOf(h: Header): Signature {
    Signature(h.btEntrySize, h.ctxEntrySize, h.maxDepth, U32(h.bloomBits), h.pres, h.bloomBytes)
  }

  predicate HeaderOk(base: seq<byte>) {
    && |base| >= HEADER_SIZE && base[..4] == MAGIC
    && DecHeader(base).version == VERSION && DecHeader(base).fileSize <= |base|
  }

  /** Every section the header declares lies inside the buffer: offset plus count times size, in exact arithmetic. */
  predicate TablesInside(h: Header, len: nat)
    requires |h.offs| == 9
  {
    && h.offs[0] + h.maxDepth <= len
    && h.offs[1] + h.poolUsed * h.btEntrySize <= len
    && h.offs[2] + h.ctxUsed * h.ctxEntrySize <= len
    && h.offs[3] + h.ctxNslots * 4 <= len
    && h.offs[4] + h.bloomBytes <= len
    && 0 <= Signed(h.winLen) <= h.maxDepth
  }

  predicate LandmarksInside(h: Header, len: nat)
    requires |h.offs| == 9
  {
    h.lmK > 0 ==>
      && 1 <= h.lmN <= MAX_DEPTH
      && h.offs[5] + h.lmK * h.lmN <= len && h.offs[6] + h.lmK * 512 <= len
  }

  predicate SchemaInside(h: Header, len: nat)
    requires |h.offs| == 9
  {
    h.schemaRec > 0 ==>
      && h.schemaPos == h.schemaRec <= SCHEMA_MAX
      && h.offs[7] + h.schemaPos <= len && h.offs[8] + h.schemaPos * 512 <= len
  }

  /** A section from an offset on. */
  function From(base: seq<byte>, off: nat): seq<byte> {
    if off <= |base| then base[off..] else []
  }

  function SnapAt(h: Header, base: seq<byte>): Snapshot
    requires |h.offs| == 9 && TablesInside(h, |base|)
    requires h.btEntrySize == BT_ENTRY_SIZE && h.ctxEntrySize == CTX_ENTRY_SIZE
  {
    Snapshot(Array(DecBt, BT_ENTRY_SIZE, From(base, h.offs[1]), h.poolUsed),
             Array(DecCtx, CTX_ENTRY_SIZE, From(base, h.offs[2]), h.ctxUsed),
             Array(DecInt, 4, From(base, h.offs[3]), h.ctxNslots),
             Flat(Array(DecBits, 1, From(base, h.offs[4]), h.bloomBytes)))
  }

  /** The landmark count is kept in 32 bits. */
  function LmCtxAt(h: Header, base: seq<byte>): (ctxs: seq<Context>)
    requires |h.offs| == 9 && LandmarksInside(h, |base|)
    ensures |ctxs| == U32(h.lmK)
  {
    if U32(h.lmK) == 0 then []
    else
      Truncated(h.lmK, h.lmN);
      Array(Same, h.lmN, From(base, h.offs[5]), U32(h.lmK))
  }

  function LmCumAt(h: Header, base: seq<byte>): (w: seq<seq<nat>>)
    requires |h.offs| == 9 && LandmarksInside(h, |base|)
    ensures |w| == U32(h.lmK)
  {
    if U32(h.lmK) == 0 then []
    else
      Truncated(h.lmK, 512);
      Array(DecWidths, 512, From(base, h.offs[6]), U32(h.lmK))
  }

  lemma Truncated(k: nat, size: nat)
    ensures U32(k) * size <= k * size
  {
    MulMono(U32(k), k, size);
  }

  function ModesAt(h: Header, base: seq<byte>): (m: seq<bool>)
    requires |h.offs| == 9 && SchemaInside(h, |base|)
    ensures |m| == h.schemaRec
  {
    if h.schemaRec == 0 then [] else Array(DecMode, 1, From(base, h.offs[7]), h.schemaRec)
  }

  function SchemaCumAt(h: Header, base: seq<byte>): (w: seq<seq<nat>>)
    requires |h.offs| == 9 && SchemaInside(h, |base|)
    ensures |w| == h.schemaRec
  {
    if h.schemaRec == 0 then [] else Array(DecWidths, 512, From(base, h.offs[8]), h.schemaRec)
  }

  /** The images that are accepted, on any bytes at all. */
  ghost predicate Accepts(base: seq<byte>, build: Signature)
    requires RealBuild(build)
  {
    && HeaderOk(base)
    && var h := DecHeader(base);
      && TablesInside(h, |base|) && LandmarksInside(h, |base|) && SchemaInside(h, |base|)
      && SignatureOf(h) == build
      && Acceptable(SnapAt(h, base), build, build)
  }

  /** The prior an accepted image holds. */
  function PriorAt(base: seq<byte>, hs: BtTrain.Hashes, luts: Distribution.Luts, lmHash: Context -> nat,
                   slots: seq<int>, digest: seq<byte> -> seq<byte>): Prior
    requires HeaderOk(base)
    requires var h := DecHeader(base);
      && TablesInside(h, |base|) && LandmarksInside(h, |base|) && SchemaInside(h, |base|)
      && h.btEntrySize == BT_ENTRY_SIZE && h.ctxEntrySize == CTX_ENTRY_SIZE
  {
    var h := DecHeader(base);
    var d := digest(base[..h.fileSize]);
    Prior(SnapAt(h, base), hs, luts, h.lmN, LmCtxAt(h, base), LmCumAt(h, base), slots, lmHash,
          h.schemaRec, ModesAt(h, base), SchemaCumAt(h, base), if |d| >= 16 then d[..16] else d)
  }

  // ----- alignment -----

  /** The buffer starts at a multiple of 8, as pages and allocations do; structures and ints need multiples of 4. */
  function AlignmentOf(h: Header): Alignment
    requires |h.offs| == 9
  {
    Alignment(h.offs[1] % 4 == 0, h.offs[2] % 4 == 0, h.offs[3] % 4 == 0)
  }

  /** Parsing reads a table that is not aligned. */
  ghost predicate ParseMisreads(base: seq<byte>, build: Signature)
    requires RealBuild(build)
  {
    && HeaderOk(base)
    && var h := DecHeader(base);
      && TablesInside(h, |base|) && LandmarksInside(h, |base|) && SchemaInside(h, |base|)
      && SignatureOf(h) == build
      && Misreads(SnapAt(h, base), build, build, AlignmentOf(h))
  }

  // ----- parsing -----

  datatype ParseResult = Parsed(prior: Prior) | Rejected | Undefined

  /** The region checks as they are computed, in 64-bit words without overflow. */
  method RegionsOk(h: Header, len: uint64) returns (ok: bool)
    requires IsWord64(h)
    ensures ok <==> TablesInside(h, len) && LandmarksInside(h, len) && SchemaInside(h, len)
  {
    var t := TableRegionsOk(h, len);
    if !t {
      return false;
    }
    var l := LandmarkRegionsOk(h, len);
    if !l {
      return false;
    }
    ok := SchemaRegionsOk(h, len);
  }

  method RegionOk(off: uint64, count: uint64, size: uint64, len: uint64) returns (ok: bool)
    ensures ok <==> off + count * size <= len
  {
    RegionExact(off, count, size, len);
    var (fits, bytes) := Product(count, size);
    ok := fits && RegionInBounds(off, bytes, len);
  }

  method TableRegionsOk(h: Header, len: uint64) returns (ok: bool)
    requires IsWord64(h)
    ensures ok <==> TablesInside(h, len)
  {
    if !RegionInBounds(h.offs[0], h.maxDepth, len) {
      return false;
    }
    var pool := RegionOk(h.offs[1], h.poolUsed, h.btEntrySize, len);
    if !pool {
      return false;
    }
    var ctxs := RegionOk(h.offs[2], h.ctxUsed, h.ctxEntrySize, len);
    if !ctxs {
      return false;
    }
    var slots := RegionOk(h.offs[3], h.ctxNslots, 4, len);
    if !slots || !RegionInBounds(h.offs[4], h.bloomBytes, len) {
      return false;
    }
    ok := Signed(h.winLen) >= 0 && Signed(h.winLen) <= h.maxDepth;
  }

  method LandmarkRegionsOk(h: Header, len: uint64) returns (ok: bool)
    requires IsWord64(h)
    ensures ok <==> LandmarksInside(h, len)
  {
    if h.lmK == 0 {
      return true;
    }
    if h.lmN < 1 || h.lmN > MAX_DEPTH {
      return false;
    }
    var ctxs := RegionOk(h.offs[5], h.lmK, h.lmN, len);
    if !ctxs {
      return false;
    }
    ok := RegionOk(h.offs[6], h.lmK, 512, len);
  }

  method SchemaRegionsOk(h: Header, len: uint64) returns (ok: bool)
    requires IsWord64(h)
    ensures ok <==> SchemaInside(h, len)
  {
    if h.schemaRec == 0 {
      return true;
    }
    if h.schemaPos != h.schemaRec || h.schemaRec > SCHEMA_MAX || !RegionInBounds(h.offs[7], h.schemaPos, len) {
      return false;
    }
    ok := RegionOk(h.offs[8], h.schemaPos, 512, len);
  }

  /**
   * Parses any bytes, without a misread exactly when ParseMisreads says so: it accepts exactly the images that
   * are in order, and then every section, slot and chain stays in range and every walk ends.  Counts and
   * widths are not looked at.
   */
  method PriorParse(base: seq<byte>, build: Signature, hs: BtTrain.Hashes, luts: Distribution.Luts,
                    lmHash: Context -> nat, digest: seq<byte> -> seq<byte>)
    returns (r: ParseResult)
    requires RealBuild(build) && |base| < TWO64
    ensures r.Undefined? <==> ParseMisreads(base, build)
    ensures r.Parsed? <==> Accepts(base, build) && !ParseMisreads(base, build)
    ensures r.Parsed? ==>
      && r.prior == PriorAt(base, hs, luts, lmHash, r.prior.lmSlot, digest)
      && Landmarks.IndexOf(r.prior.lmSlot, r.prior.lmCtx, lmHash)
  {
    if !HeaderOk(base) {
      return Rejected;
    }
    var h := DecHeader(base);
    DecHeaderWords(base);
    hide HeaderOk, DecHeader, TablesInside, LandmarksInside, SchemaInside, SnapAt, LmCtxAt, LmCumAt, ModesAt,
         SchemaCumAt, Acceptable, Misreads, AlignmentOf, Landmarks.IndexOf, IsWord64;
    var inside := RegionsOk(h, |base|);
    if !inside || SignatureOf(h) != build {
      return Rejected;
    }
    var snap := SnapAt(h, base);
    var verdict := Validate(snap, SignatureOf(h), build, AlignmentOf(h));
    if verdict != Accepted {
      return if verdict == Misread then Undefined else Rejected;
    }
    var slots := Landmarks.BuildIndex(LmCtxAt(h, base), lmHash);
    r := Parsed(PriorAt(base, hs, luts, lmHash, slots, digest));
  }

  // ----- a saved image is parsed back -----

  lemma HeaderOkIf(base: seq<byte>, h: Header)
    requires |base| >= HEADER_SIZE && base[..4] == MAGIC && DecHeader(base) == h
    requires h.version == VERSION && h.fileSize <= |base|
    ensures HeaderOk(base)
  {
  }

  lemma HeaderRead(c: Content)
    requires Saveable(c)
    ensures HeaderOk(ImageOf(c)) && DecHeader(ImageOf(c)) == HeaderOf(c)
  {
    HeaderCounts(c);
    hide *;
    var h, image := HeaderOf(c), ImageOf(c);
    HeaderFits(c);
    ImageLength(c);
    ImageParts(c);
    HeadFound(EncHeader(h), SectionsOf(c));
    Rejoined(EncHeader(h), image);
    HeaderBack(h, image[|EncHeader(h)|..]);
    HeaderOkIf(image, h);
  }

  lemma Rejoined(a: seq<byte>, s: seq<byte>)
    requires a <= s
    ensures |a| <= |s| && a + s[|a|..] == s
  {
  }

  lemma SizesAt(sections: seq<seq<byte>>, i: nat)
    requires i < |sections|
    ensures Sizes(sections)[i] == |sections[i]|
  {
  }

  /** Behind its offset the image continues with the section. */
  lemma SectionRead(c: Content, i: nat)
    requires Saveable(c) && i < 9
    ensures var off := HeaderOf(c).offs[i];
      off + SizesOf(c)[i] <= |ImageOf(c)| && |SectionsOf(c)[i]| == SizesOf(c)[i]
      && SectionsOf(c)[i] <= From(ImageOf(c), off)
  {
    hide *;
    ImageParts(c);
    SectionSizes(c);
    var head, sections := EncHeader(HeaderOf(c)), SectionsOf(c);
    SizesAt(sections, i);
    SectionFound(head, sections, i);
    Continues(ImageOf(c), HeaderOf(c).offs[i], sections[i]);
  }

  lemma Continues(s: seq<byte>, off: nat, t: seq<byte>)
    requires off + |t| <= |s| && s[off..off + |t|] == t
    ensures t <= From(s, off)
  {
    assert s[off..][..|t|] == t;
  }

  lemma SectionNames(c: Content)
    ensures SectionsOf(c)[0] == c.window && SizesOf(c)[0] == c.build.maxDepth
    ensures SectionsOf(c)[1] == Elements(EncBt, c.snap.pool) && SizesOf(c)[1] == |c.snap.pool| * BT_ENTRY_SIZE
    ensures SectionsOf(c)[2] == Elements(EncCtx, c.snap.ctxPool) && SizesOf(c)[2] == |c.snap.ctxPool| * CTX_ENTRY_SIZE
    ensures SectionsOf(c)[3] == Elements(EncInt, c.snap.ctxSlot) && SizesOf(c)[3] == |c.snap.ctxSlot| * 4
    ensures SectionsOf(c)[4] == Elements(EncBits, Groups(c.snap.bloom)) && SizesOf(c)[4] == c.build.bloomBytes
    ensures SectionsOf(c)[5] == Elements(Same, c.lmCtx) && (c.lmCtx != [] ==> SizesOf(c)[5] == |c.lmCtx| * c.lmN)
    ensures SectionsOf(c)[6] == Elements(EncWidths, c.lmCum) && SizesOf(c)[6] == |c.lmCum| * 512
    ensures SectionsOf(c)[7] == Elements(EncMode, c.schemaModes) && SizesOf(c)[7] == |c.schemaModes|
    ensures SectionsOf(c)[8] == Elements(EncWidths, c.schemaCum) && SizesOf(c)[8] == |c.schemaCum| * 512
  {
    hide Elements, Groups;
  }

  lemma PoolRead(c: Content)
    requires Saveable(c)
    ensures var h, image := HeaderOf(c), ImageOf(c); var s, n := From(image, h.offs[1]), |c.snap.pool|;
      && h.offs[1] + n * BT_ENTRY_SIZE <= |image|
      && n * BT_ENTRY_SIZE <= |s| && Array(DecBt, BT_ENTRY_SIZE, s, n) == c.snap.pool
  {
    hide *;
    SectionNames(c);
    SectionRead(c, 1);
    TablesBack(c);
    ArrayFront(DecBt, BT_ENTRY_SIZE, Elements(EncBt, c.snap.pool), From(ImageOf(c), HeaderOf(c).offs[1]),
               |c.snap.pool|);
  }

  lemma CtxPoolRead(c: Content)
    requires Saveable(c)
    ensures var h, image := HeaderOf(c), ImageOf(c); var s, n := From(image, h.offs[2]), |c.snap.ctxPool|;
      h.offs[2] + n * CTX_ENTRY_SIZE <= |image| && n * CTX_ENTRY_SIZE <= |s|
      && Array(DecCtx, CTX_ENTRY_SIZE, s, n) == c.snap.ctxPool
  {
    hide *;
    SectionNames(c);
    SectionRead(c, 2);
    TablesBack(c);
    ArrayFront(DecCtx, CTX_ENTRY_SIZE, Elements(EncCtx, c.snap.ctxPool), From(ImageOf(c), HeaderOf(c).offs[2]),
               |c.snap.ctxPool|);
  }

  lemma SlotsRead(c: Content)
    requires Saveable(c)
    ensures var h, image := HeaderOf(c), ImageOf(c); var s, n := From(image, h.offs[3]), |c.snap.ctxSlot|;
      h.offs[3] + n * 4 <= |image| && n * 4 <= |s| && Array(DecInt, 4, s, n) == c.snap.ctxSlot
  {
    hide *;
    SectionNames(c);
    SectionRead(c, 3);
    SlotsBack(c);
    ArrayFront(DecInt, 4, Elements(EncInt, c.snap.ctxSlot), From(ImageOf(c), HeaderOf(c).offs[3]), |c.snap.ctxSlot|);
  }

  lemma BloomRead(c: Content)
    requires Saveable(c)
    ensures var h, image := HeaderOf(c), ImageOf(c); var s, n := From(image, h.offs[4]), c.build.bloomBytes;
      h.offs[4] + n <= |image| && n * 1 <= |s| && Flat(Array(DecBits, 1, s, n)) == c.snap.bloom
  {
    hide *;
    SectionNames(c);
    SectionRead(c, 4);
    BloomBack(c);
    ArrayFront(DecBits, 1, Elements(EncBits, Groups(c.snap.bloom)), From(ImageOf(c), HeaderOf(c).offs[4]),
               c.build.bloomBytes);
  }

  lemma TablesRead(c: Content)
    requires Saveable(c)
    ensures var h, image := HeaderOf(c), ImageOf(c);
      TablesInside(h, |image|) && SignatureOf(h) == c.build && SnapAt(h, image) == c.snap
  {
    hide HeaderOf, ImageOf, SectionsOf, SizesOf, Elements, Groups, Array, Flat, From, Saveable;
    SectionNames(c);
    SectionRead(c, 0);
    PoolRead(c);
    CtxPoolRead(c);
    SlotsRead(c);
    BloomRead(c);
    HeaderCounts(c);
  }

  lemma HeaderCounts(c: Content)
    requires Saveable(c)
    ensures var h := HeaderOf(c);
      && h.poolUsed == |c.snap.pool| && h.ctxUsed == |c.snap.ctxPool| && h.ctxNslots == |c.snap.ctxSlot|
      && h.bloomBytes == c.build.bloomBytes && SignatureOf(h) == c.build
      && h.btEntrySize == BT_ENTRY_SIZE && h.ctxEntrySize == CTX_ENTRY_SIZE && h.maxDepth == MAX_DEPTH
      && h.version == VERSION && h.winLen == c.winLen <= MAX_DEPTH && h.lmK == |c.lmCtx| == U32(h.lmK)
      && h.lmN == (if c.lmCtx != [] then c.lmN else 0)
      && h.schemaRec == h.schemaPos == |c.schemaModes| == |c.schemaCum| <= SCHEMA_MAX
  {
    hide OffsetOf, SizesOf, Elements;
  }

  lemma LandmarksRead(c: Content)
    requires Saveable(c)
    ensures var h, image := HeaderOf(c), ImageOf(c);
      LandmarksInside(h, |image|) && LmCtxAt(h, image) == c.lmCtx && LmCumAt(h, image) == c.lmCum
  {
    var h, image := HeaderOf(c), ImageOf(c);
    SectionNames(c);
    HeaderCounts(c);
    assert |c.lmCum| == |c.lmCtx| && (c.lmCtx != [] ==> 1 <= c.lmN <= MAX_DEPTH);
    if c.lmCtx != [] {
      SectionRead(c, 5);
      SectionRead(c, 6);
      LandmarksBack(c);
      hide HeaderOf, ImageOf, SectionsOf, SizesOf, Elements, Array, From, Saveable;
      ArrayFront(Same, c.lmN, Elements(Same, c.lmCtx), From(image, h.offs[5]), |c.lmCtx|);
      ArrayFront(DecWidths, 512, Elements(EncWidths, c.lmCum), From(image, h.offs[6]), |c.lmCum|);
    }
  }

  lemma SchemaRead(c: Content)
    requires Saveable(c)
    ensures var h, image := HeaderOf(c), ImageOf(c);
      SchemaInside(h, |image|) && ModesAt(h, image) == c.schemaModes && SchemaCumAt(h, image) == c.schemaCum
  {
    var h, image := HeaderOf(c), ImageOf(c);
    SectionNames(c);
    HeaderCounts(c);
    SectionRead(c, 7);
    SectionRead(c, 8);
    SchemaBack(c);
    hide HeaderOf, ImageOf, SectionsOf, SizesOf, Elements, Array, From, Saveable;
    ArrayFront(DecMode, 1, Elements(EncMode, c.schemaModes), From(image, h.offs[7]), |c.schemaModes|);
    ArrayFront(DecWidths, 512, Elements(EncWidths, c.schemaCum), From(image, h.offs[8]), |c.schemaCum|);
  }

  /**
   * Any content whose tables are acceptable is accepted, with or without landmarks and schema, and every section
   * comes back.
   */
  lemma SavedParses(c: Content)
    requires Saveable(c) && Acceptable(c.snap, c.build, c.build)
    ensures Accepts(ImageOf(c), c.build)
    ensures var h, image := DecHeader(ImageOf(c)), ImageOf(c);
      && SnapAt(h, image) == c.snap
      && LmCtxAt(h, image) == c.lmCtx && LmCumAt(h, image) == c.lmCum
      && ModesAt(h, image) == c.schemaModes && SchemaCumAt(h, image) == c.schemaCum
  {
    HeaderRead(c);
    TablesRead(c);
    LandmarksRead(c);
    SchemaRead(c);
    hide Acceptable, HeaderOf, ImageOf, SnapAt, LmCtxAt, LmCumAt, ModesAt, SchemaCumAt, DecHeader, HeaderOk;
  }

  /** The image of any trained tables is accepted and gives every section back. */
  lemma SaveParse(c: Content, hs: BtTrain.Hashes, seen: seq<Update>)
    requires Saveable(c) && Trained(c.snap, hs, seen)
    ensures Accepts(ImageOf(c), c.build)
    ensures var h, image := DecHeader(ImageOf(c)), ImageOf(c);
      && SnapAt(h, image) == c.snap
      && LmCtxAt(h, image) == c.lmCtx && LmCumAt(h, image) == c.lmCum
      && ModesAt(h, image) == c.schemaModes && SchemaCumAt(h, image) == c.schemaCum
  {
    TrainedIsAcceptable(c.snap, hs, seen, c.build);
    hide *;
    SavedParses(c);
  }

  lemma WholeFile(c: Content)
    requires Saveable(c)
    ensures HeaderOk(ImageOf(c)) && ImageOf(c)[..DecHeader(ImageOf(c)).fileSize] == ImageOf(c)
  {
    hide *;
    HeaderRead(c);
    ImageLength(c);
  }
}
