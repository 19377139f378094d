/** Where each number of a prior file stands: the byte places of the header fields, the entries and the tables. */
module ImagePlaces {
  import opened Words
  import opened Arith
  import opened Occurrences
  import opened BtTables
  import opened BtSnapshot
  import opened LittleEndian
  import opened ImageLayout
  import opened ImageStructs
  import opened PriorImage
  import StreamLayout

  /** The k bytes of s from o on are the number v, lowest byte first. */
  predicate NumberAt(s: seq<byte>, o: nat, k: nat, v: nat) {
    o + k <= |s| && forall i: nat :: i < k ==> s[o + i] == v / Pow2(8 * i) % 256
  }

  predicate BytesAt(s: seq<byte>, o: nat, b: seq<byte>) {
    o + |b| <= |s| && s[o..o + |b|] == b
  }

  /** A signed 32-bit number. */
  predicate IntAt(s: seq<byte>, o: nat, x: int) {
    -0x8000_0000 <= x < 0x8000_0000 && NumberAt(s, o, 4, if x < 0 then 0x1_0000_0000 + x else x)
  }

  lemma LeAt(s: seq<byte>, o: nat, k: nat, v: nat)
    requires o + k <= |s| && s[o..o + k] == Le(v, k)
    ensures NumberAt(s, o, k, v)
  {
    hide Pow2, Le;
    forall i: nat | i < k
      ensures s[o + i] == v / Pow2(8 * i) % 256
    {
      assert s[o + i] == s[o..o + k][i];
      StreamLayout.LeByte(v, k, i);
    }
  }

  lemma IntIsAt(s: seq<byte>, o: nat, x: int)
    requires FitsInt32(x) && BytesAt(s, o, EncInt(x))
    ensures IntAt(s, o, x)
  {
    assert U32(x) == if x < 0 then 0x1_0000_0000 + x else x;
    hide Le, NumberAt;
    LeAt(s, o, 4, U32(x));
  }

  // ----- entries -----

  /** 24 bytes of a context, filled up with zeros, and its length. */
  predicate ContextAt(s: seq<byte>, o: nat, c: Context) {
    && |c| <= 24 && o + 25 <= |s|
    && s[o..o + |c|] == c
    && (forall j :: o + |c| <= j < o + 24 ==> s[j] == 0)
    && s[o + 24] == |c|
  }

  /** A pool entry: the context, the next byte, two bytes of zeros, the frequency, the link. */
  predicate PairAt(s: seq<byte>, o: nat, e: BtEntry) {
    && o + 36 <= |s|
    && ContextAt(s, o, e.ctx) && s[o + 25] == e.next && s[o + 26] == s[o + 27] == 0
    && NumberAt(s, o + 28, 4, e.freq) && IntAt(s, o + 32, e.ctxNext)
  }

  /** A context entry: the context, three bytes of zeros, the total, the number of next bytes, the first link. */
  predicate ContextEntryAt(s: seq<byte>, o: nat, e: CtxEntry) {
    && o + 40 <= |s|
    && ContextAt(s, o, e.ctx) && s[o + 25] == s[o + 26] == s[o + 27] == 0
    && NumberAt(s, o + 28, 4, e.total) && NumberAt(s, o + 32, 4, e.unique) && IntAt(s, o + 36, e.first)
  }

  /** A record split at the places 24, 28, 32 and, where it is that long, 36. */
  lemma PartsAt(s: seq<byte>, o: nat, a: seq<byte>, b: seq<byte>, c: seq<byte>, d: seq<byte>)
    requires |a| == 24 && |b| == |c| == 4 && 4 <= |d|
    requires o + 28 + 4 + |d| <= |s| && s[o..o + 32 + |d|] == a + (b + (c + d))
    ensures s[o..o + 24] == a && s[o + 24..o + 28] == b && s[o + 28..o + 32] == c && s[o + 32..o + 32 + |d|] == d
  {
    var r := a + (b + (c + d));
    Within(s, o, r, 0, 24);
    Within(s, o, r, 24, 28);
    Within(s, o, r, 28, 32);
    Within(s, o, r, 32, 32 + |d|);
    assert r[..24] == a && r[24..28] == b && r[28..32] == c && r[32..] == d;
  }

  lemma Within(s: seq<byte>, o: nat, r: seq<byte>, i: nat, j: nat)
    requires o + |r| <= |s| && s[o..o + |r|] == r && i <= j <= |r|
    ensures s[o + i..o + j] == r[i..j]
  {
    var x, y := s[o + i..o + j], r[i..j];
    forall k | 0 <= k < |x|
      ensures x[k] == y[k]
    {
      assert s[o..o + |r|][i + k] == s[o + (i + k)];
    }
    assert x == y;
  }

  lemma ContextIsAt(s: seq<byte>, o: nat, c: Context, t: seq<byte>)
    requires |c| <= MAX_DEPTH && o + 28 <= |s| && s[o..o + 24] == EncContext(c)
    requires |t| == 4 && t[0] == |c| && s[o + 24..o + 28] == t
    ensures ContextAt(s, o, c) && s[o + 25] == t[1] && s[o + 26] == t[2] && s[o + 27] == t[3]
  {
    var f := EncContext(c);
    Within(s, o, f, 0, |c|);
    assert f[..|c|] == c;
    assert forall j :: o <= j < o + 24 ==> s[j] == s[o..o + 24][j - o];
    assert forall i :: 0 <= i < 4 ==> s[o + 24 + i] == t[i];
    assert s[o + 24 + 1] == t[1] && s[o + 24 + 2] == t[2] && s[o + 24 + 3] == t[3];
  }

  lemma PairIsAt(s: seq<byte>, o: nat, e: BtEntry)
    requires BtFits(e) && BytesAt(s, o, EncBt(e))
    ensures PairAt(s, o, e)
  {
    var t: seq<byte> := [|e.ctx|, e.next, 0, 0];
    hide EncContext, EncInt, Le, NumberAt, IntAt, ContextAt;
    PartsAt(s, o, EncContext(e.ctx), t, Le(e.freq, 4), EncInt(e.ctxNext));
    ContextIsAt(s, o, e.ctx, t);
    LeAt(s, o + 28, 4, e.freq);
    IntIsAt(s, o + 32, e.ctxNext);
  }

  lemma ContextEntryIsAt(s: seq<byte>, o: nat, e: CtxEntry)
    requires CtxFits(e) && BytesAt(s, o, EncCtx(e))
    ensures ContextEntryAt(s, o, e)
  {
    var t: seq<byte> := [|e.ctx|, 0, 0, 0];
    var d := Le(e.unique, 4) + EncInt(e.first);
    hide EncContext, EncInt, Le, NumberAt, IntAt, ContextAt;
    PartsAt(s, o, EncContext(e.ctx), t, Le(e.total, 4), d);
    ContextIsAt(s, o, e.ctx, t);
    assert s[o + 32..o + 36] == s[o + 32..o + 40][..4] == Le(e.unique, 4);
    assert s[o + 36..o + 40] == s[o + 32..o + 40][4..] == EncInt(e.first);
    LeAt(s, o + 28, 4, e.total);
    LeAt(s, o + 32, 4, e.unique);
    IntIsAt(s, o + 36, e.first);
  }

  // ----- the header -----

  lemma {:induction false} FieldPlace(ws: seq<nat>, vs: seq<nat>, i: nat)
    requires |ws| == |vs| && i < |ws|
    ensures Sum(ws[..i]) + ws[i] <= |Struct(ws, vs)|
    ensures Struct(ws, vs)[Sum(ws[..i])..Sum(ws[..i]) + ws[i]] == Le(vs[i], ws[i])
  {
    hide Le;
    if i > 0 {
      FieldPlace(ws[1..], vs[1..], i - 1);
      assert ws[..i] == [ws[0]] + ws[1..][..i - 1];
      var o := Sum(ws[1..][..i - 1]);
      assert Sum(ws[..i]) == ws[0] + o;
      var t := Struct(ws[1..], vs[1..]);
      assert Struct(ws, vs)[ws[0]..] == t;
      assert Struct(ws, vs)[ws[0] + o..ws[0] + o + ws[i]] == t[o..o + ws[i]];
    }
  }

  /** Where field i of the header starts. */
  function HeaderPlace(i: nat): nat {
    if i <= 5 then 4 + 4 * i else if i <= 10 then 8 * i - 16 else if i <= 12 then 4 * i + 24
    else if i <= 15 then 4 * i + 28 else 8 * i - 32
  }

  lemma WidthIs(i: nat)
    requires i < 25
    ensures FieldWidths()[i] == if 5 <= i < 10 || i == 12 || i >= 15 then 8 else 4
    ensures HeaderPlace(i + 1) == HeaderPlace(i) + FieldWidths()[i]
  {
  }

  lemma {:induction false} PlaceIs(i: nat)
    requires i <= 25
    ensures Sum(FieldWidths()[..i]) + 4 == HeaderPlace(i)
  {
    hide FieldWidths, Sum;
    var ws := FieldWidths();
    if i > 0 {
      PlaceIs(i - 1);
      WidthIs(i - 1);
      assert ws[..i] == ws[..i - 1] + [ws[i - 1]];
      SumConcat(ws[..i - 1], [ws[i - 1]]);
      SumOne(ws[i - 1]);
    } else {
      SumNone();
    }
  }

  lemma SumOne(w: nat)
    ensures Sum([w]) == w
  {
  }

  lemma SumNone()
    ensures Sum([]) == 0
  {
  }

  lemma HeaderFieldAt(h: Header, s: seq<byte>, i: nat)
    requires |h.offs| == 9 && EncHeader(h) <= s && i < 25
    ensures NumberAt(s, HeaderPlace(i), if 5 <= i < 10 || i == 12 || i >= 15 then 8 else 4, HeaderFields(h)[i])
  {
    var ws, vs, e := FieldWidths(), HeaderFields(h), EncHeader(h);
    WidthsSum();
    var r := Struct(ws, vs);
    assert e == MAGIC + r;
    WidthIs(i);
    PlaceIs(i);
    hide *;
    FieldPlace(ws, vs, i);
    var o, k := HeaderPlace(i), ws[i];
    PartOf(MAGIC, r, s, o, k);
    LeAt(s, o, k, vs[i]);
  }

  lemma PartOf(m: seq<byte>, r: seq<byte>, s: seq<byte>, o: nat, k: nat)
    requires m + r <= s && |m| == 4 && 4 <= o && o - 4 + k <= |r|
    ensures o + k <= |s| && s[o..o + k] == r[o - 4..o - 4 + k]
  {
    assert s[..|m + r|] == m + r;
    assert s[o..o + k] == (m + r)[o..o + k];
  }

  /** The header: "BCBP" and the fields at their places, 32-bit and 64-bit words, lowest byte first. */
  lemma HeaderPlaces(h: Header, s: seq<byte>)
    requires |h.offs| == 9 && EncHeader(h) <= s
    ensures |s| >= 168 && s[..4] == [0x42, 0x43, 0x42, 0x50]
    ensures NumberAt(s, 4, 4, h.version) && NumberAt(s, 8, 4, h.btEntrySize) && NumberAt(s, 12, 4, h.ctxEntrySize)
    ensures NumberAt(s, 16, 4, h.maxDepth) && NumberAt(s, 20, 4, h.pres) && NumberAt(s, 24, 8, h.bloomBits)
    ensures NumberAt(s, 32, 8, h.poolUsed) && NumberAt(s, 40, 8, h.ctxUsed) && NumberAt(s, 48, 8, h.ctxNslots)
    ensures NumberAt(s, 56, 8, h.bloomBytes) && NumberAt(s, 64, 4, h.winLen) && NumberAt(s, 68, 4, h.lmN)
    ensures NumberAt(s, 72, 8, h.lmK) && NumberAt(s, 80, 4, h.schemaRec) && NumberAt(s, 84, 4, h.schemaPos)
    ensures forall k: nat :: k < 9 ==> NumberAt(s, 88 + 8 * k, 8, h.offs[k])
    ensures NumberAt(s, 160, 8, h.fileSize)
  {
    var e, vs := EncHeader(h), HeaderFields(h);
    assert e[..4] == MAGIC && s[..4] == e[..4];
    assert forall k: nat :: k < 9 ==> vs[15 + k] == h.offs[k];
    hide NumberAt, EncHeader;
    forall i: nat | i < 25
      ensures NumberAt(s, HeaderPlace(i), if 5 <= i < 10 || i == 12 || i >= 15 then 8 else 4, vs[i])
    {
      HeaderFieldAt(h, s, i);
    }
    HeaderNumbers(h, s, vs);
  }

  lemma HeaderNumbers(h: Header, s: seq<byte>, vs: seq<nat>)
    requires |h.offs| == 9 && vs == HeaderFields(h)
    requires forall i: nat :: i < 25 ==>
               NumberAt(s, HeaderPlace(i), if 5 <= i < 10 || i == 12 || i >= 15 then 8 else 4, vs[i])
    ensures NumberAt(s, 4, 4, h.version) && NumberAt(s, 8, 4, h.btEntrySize) && NumberAt(s, 12, 4, h.ctxEntrySize)
    ensures NumberAt(s, 16, 4, h.maxDepth) && NumberAt(s, 20, 4, h.pres) && NumberAt(s, 24, 8, h.bloomBits)
    ensures NumberAt(s, 32, 8, h.poolUsed) && NumberAt(s, 40, 8, h.ctxUsed) && NumberAt(s, 48, 8, h.ctxNslots)
    ensures NumberAt(s, 56, 8, h.bloomBytes) && NumberAt(s, 64, 4, h.winLen) && NumberAt(s, 68, 4, h.lmN)
    ensures NumberAt(s, 72, 8, h.lmK) && NumberAt(s, 80, 4, h.schemaRec) && NumberAt(s, 84, 4, h.schemaPos)
    ensures forall k: nat :: k < 9 ==> NumberAt(s, 88 + 8 * k, 8, h.offs[k])
    ensures NumberAt(s, 160, 8, h.fileSize)
  {
    hide NumberAt;
    assert vs[0] == h.version && vs[1] == h.btEntrySize && vs[2] == h.ctxEntrySize && vs[3] == h.maxDepth;
    assert vs[4] == h.pres && vs[5] == h.bloomBits && vs[6] == h.poolUsed && vs[7] == h.ctxUsed;
    assert vs[8] == h.ctxNslots && vs[9] == h.bloomBytes && vs[10] == h.winLen && vs[11] == h.lmN;
    assert vs[12] == h.lmK && vs[13] == h.schemaRec && vs[14] == h.schemaPos && vs[24] == h.fileSize;
    forall k: nat | k < 9
      ensures NumberAt(s, 88 + 8 * k, 8, h.offs[k])
    {
      assert vs[15 + k] == h.offs[k];
      assert HeaderPlace(15 + k) == 88 + 8 * k;
    }
  }

  // ----- the sections -----

  /** s is the image of c, its sections from the offsets on. */
  ghost predicate SavedAs(c: Content, s: seq<byte>, offs: seq<nat>) {
    Saveable(c) && s == ImageOf(c) && offs == HeaderOf(c).offs && |offs| == 9
  }

  lemma SavedMeans(c: Content, s: seq<byte>, offs: seq<nat>)
    requires SavedAs(c, s, offs)
    ensures Saveable(c) && s == ImageOf(c) && offs == HeaderOf(c).offs && |offs| == 9
  {
    hide Saveable, ImageOf, HeaderOf;
  }

  lemma SectionAt(c: Content, s: seq<byte>, offs: seq<nat>, k: nat)
    requires SavedAs(c, s, offs) && k < 9
    ensures BytesAt(s, offs[k], SectionsOf(c)[k])
  {
    hide *;
    SavedMeans(c, s, offs);
    ImageParts(c);
    SectionSizes(c);
    var head, sections := EncHeader(HeaderOf(c)), SectionsOf(c);
    SizesAt(sections, k);
    SectionFound(head, sections, k);
    FoundAt(s, offs[k], sections[k]);
  }

  lemma FoundAt(s: seq<byte>, o: nat, e: seq<byte>)
    requires o + |e| <= |s| && s[o..o + |e|] == e
    ensures BytesAt(s, o, e)
  {
  }

  lemma ElementPlace<T>(enc: T -> seq<byte>, xs: seq<T>, size: nat, i: nat, s: seq<byte>, o: nat)
    requires (forall x :: x in xs ==> |enc(x)| == size) && i < |xs|
    requires BytesAt(s, o, Elements(enc, xs))
    ensures o + i * size >= 0 && BytesAt(s, o + i * size, enc(xs[i]))
  {
    hide *;
    ElementFound(enc, xs, size, i);
    OneMore(i, size);
    SlotIs(Elements(enc, xs), size, i);
    SliceAt(s, o, Elements(enc, xs), i * size, size);
  }

  lemma SlotIs(e: seq<byte>, size: nat, i: nat)
    requires (i + 1) * size <= |e|
    ensures 0 <= i * size <= i * size + size <= |e| && Slot(e, size, i) == e[i * size..i * size + size]
  {
    OneMore(i, size);
  }

  lemma SliceAt(s: seq<byte>, o: nat, e: seq<byte>, m: nat, size: nat)
    requires BytesAt(s, o, e) && m + size <= |e|
    ensures BytesAt(s, o + m, e[m..m + size])
  {
    Within(s, o, e, m, m + size);
  }

  /** 256 widths of 16 bits. */
  predicate WidthsAt(s: seq<byte>, o: nat, w: seq<nat>) {
    |w| == 256 && forall b: nat :: b < 256 ==> NumberAt(s, o + 2 * b, 2, w[b])
  }

  lemma WidthsAreAt(s: seq<byte>, o: nat, w: seq<nat>)
    requires WidthsFit(w) && BytesAt(s, o, EncWidths(w))
    ensures WidthsAt(s, o, w)
  {
    forall b: nat | b < 256
      ensures NumberAt(s, o + 2 * b, 2, w[b])
    {
      ElementPlace(EncWidth, w, 2, b, s, o);
      LeAt(s, o + 2 * b, 2, w[b]);
    }
  }

  /** The window of 24 bytes stands at the first offset. */
  lemma SavedWindow(c: Content, s: seq<byte>, offs: seq<nat>)
    requires SavedAs(c, s, offs)
    ensures |c.window| == 24 && BytesAt(s, offs[0], c.window)
  {
    hide *;
    SavedMeans(c, s, offs);
    ContentFits(c);
    SectionNames(c);
    SectionAt(c, s, offs, 0);
  }

  lemma ContentFits(c: Content)
    requires Saveable(c)
    ensures |c.window| == 24 && (forall e :: e in c.snap.pool ==> BtFits(e))
    ensures forall e :: e in c.snap.ctxPool ==> CtxFits(e)
    ensures forall x :: x in c.snap.ctxSlot ==> FitsInt32(x)
    ensures forall x :: x in c.lmCtx ==> |x| == c.lmN
    ensures forall w :: w in c.lmCum ==> WidthsFit(w)
    ensures forall w :: w in c.schemaCum ==> WidthsFit(w)
  {
    hide OffsetOf, WidthsFit, BtFits, CtxFits, FitsInt32;
  }

  lemma EntrySizes()
    ensures BT_ENTRY_SIZE == 36 && CTX_ENTRY_SIZE == 40
  {
  }

  /** Pool entry i stands at the second offset and 36 * i bytes. */
  lemma SavedPair(c: Content, s: seq<byte>, offs: seq<nat>, i: nat)
    requires SavedAs(c, s, offs) && i < |c.snap.pool|
    ensures PairAt(s, offs[1] + i * 36, c.snap.pool[i])
  {
    hide *;
    SavedMeans(c, s, offs);
    ContentFits(c);
    var xs := c.snap.pool;
    SectionNames(c);
    SectionAt(c, s, offs, 1);
    forall e | e in xs
      ensures |EncBt(e)| == 36
    {
      EntrySizes();
      BtBack(e);
    }
    ElementPlace(EncBt, xs, 36, i, s, offs[1]);
    PairIsAt(s, offs[1] + i * 36, xs[i]);
  }

  /** Context entry i stands at the third offset and 40 * i bytes. */
  lemma SavedContext(c: Content, s: seq<byte>, offs: seq<nat>, i: nat)
    requires SavedAs(c, s, offs) && i < |c.snap.ctxPool|
    ensures ContextEntryAt(s, offs[2] + i * 40, c.snap.ctxPool[i])
  {
    hide *;
    SavedMeans(c, s, offs);
    ContentFits(c);
    var xs := c.snap.ctxPool;
    SectionNames(c);
    SectionAt(c, s, offs, 2);
    forall e | e in xs
      ensures |EncCtx(e)| == 40
    {
      EntrySizes();
      CtxBack(e);
    }
    ElementPlace(EncCtx, xs, 40, i, s, offs[2]);
    ContextEntryIsAt(s, offs[2] + i * 40, xs[i]);
  }

  /** Slot i stands at the fourth offset and 4 * i bytes. */
  lemma SavedSlot(c: Content, s: seq<byte>, offs: seq<nat>, i: nat)
    requires SavedAs(c, s, offs) && i < |c.snap.ctxSlot|
    ensures IntAt(s, offs[3] + i * 4, c.snap.ctxSlot[i])
  {
    hide *;
    SavedMeans(c, s, offs);
    ContentFits(c);
    var xs := c.snap.ctxSlot;
    SectionNames(c);
    SectionAt(c, s, offs, 3);
    ElementPlace(EncInt, xs, 4, i, s, offs[3]);
    IntIsAt(s, offs[3] + i * 4, xs[i]);
  }

  /** Landmark context i stands at the sixth offset, i contexts on; its row at the seventh and 512 * i bytes. */
  lemma SavedLandmark(c: Content, s: seq<byte>, offs: seq<nat>, i: nat)
    requires SavedAs(c, s, offs) && i < |c.lmCtx| && i < |c.lmCum|
    ensures offs[5] + i * c.lmN >= 0 && BytesAt(s, offs[5] + i * c.lmN, c.lmCtx[i])
    ensures WidthsAt(s, offs[6] + i * 512, c.lmCum[i])
  {
    hide *;
    SavedMeans(c, s, offs);
    ContentFits(c);
    SectionNames(c);
    SectionAt(c, s, offs, 5);
    SectionAt(c, s, offs, 6);
    AsItIs(c.lmCtx, c.lmN);
    ElementPlace(Same, c.lmCtx, c.lmN, i, s, offs[5]);
    RowAt(c.lmCum, s, offs[6], i);
  }

  lemma AsItIs(ctxs: seq<Context>, n: nat)
    requires forall x :: x in ctxs ==> |x| == n
    ensures forall x :: x in ctxs ==> |Same(x)| == n && Same(x) == x
  {
  }

  lemma RowAt(rows: seq<seq<nat>>, s: seq<byte>, o: nat, i: nat)
    requires (forall w :: w in rows ==> WidthsFit(w)) && i < |rows| && BytesAt(s, o, Elements(EncWidths, rows))
    ensures WidthsAt(s, o + i * 512, rows[i])
  {
    hide *;
    forall w | w in rows
      ensures |EncWidths(w)| == 512
    {
      WidthsBack(w);
    }
    ElementPlace(EncWidths, rows, 512, i, s, o);
    WidthsAreAt(s, o + i * 512, rows[i]);
  }

  /** The mode of place i of the record stands at the eighth offset and i bytes, its row at the ninth and 512 * i. */
  lemma SavedPlace(c: Content, s: seq<byte>, offs: seq<nat>, i: nat)
    requires SavedAs(c, s, offs) && i < |c.schemaModes| && i < |c.schemaCum|
    ensures BytesAt(s, offs[7] + i, [if c.schemaModes[i] then 1 else 0])
    ensures WidthsAt(s, offs[8] + i * 512, c.schemaCum[i])
  {
    hide *;
    SavedMeans(c, s, offs);
    ContentFits(c);
    ModeByte(c.schemaModes[i]);
    SectionNames(c);
    SectionAt(c, s, offs, 7);
    SectionAt(c, s, offs, 8);
    ElementPlace(EncMode, c.schemaModes, 1, i, s, offs[7]);
    RowAt(c.schemaCum, s, offs[8], i);
  }

  lemma ModeByte(m: bool)
    ensures EncMode(m) == [if m then 1 else 0]
  {
  }

  lemma SavedHeader(c: Content, s: seq<byte>, offs: seq<nat>)
    requires SavedAs(c, s, offs)
    ensures |HeaderOf(c).offs| == 9 && EncHeader(HeaderOf(c)) <= s
  {
    hide *;
    SavedMeans(c, s, offs);
    ImageParts(c);
    HeadFound(EncHeader(HeaderOf(c)), SectionsOf(c));
  }

  /** What the header of a saved image says, at the places of the format: version 3, the counts, the offsets. */
  lemma SavedNumbers(c: Content, s: seq<byte>, offs: seq<nat>)
    requires SavedAs(c, s, offs)
    ensures |s| >= 168 && s[..4] == [0x42, 0x43, 0x42, 0x50] && NumberAt(s, 4, 4, 3)
    ensures NumberAt(s, 32, 8, |c.snap.pool|) && NumberAt(s, 40, 8, |c.snap.ctxPool|)
    ensures NumberAt(s, 48, 8, |c.snap.ctxSlot|) && NumberAt(s, 64, 4, c.winLen)
    ensures NumberAt(s, 68, 4, if c.lmCtx != [] then c.lmN else 0) && NumberAt(s, 72, 8, |c.lmCtx|)
    ensures NumberAt(s, 80, 4, |c.schemaModes|) && NumberAt(s, 84, 4, |c.schemaModes|)
    ensures forall k: nat :: k < 9 ==> NumberAt(s, 88 + 8 * k, 8, offs[k])
    ensures NumberAt(s, 160, 8, |s|)
  {
    HeaderMeans(c);
    hide *;
    SavedMeans(c, s, offs);
    SavedHeader(c, s, offs);
    HeaderPlaces(HeaderOf(c), s);
    ImageLength(c);
  }

  lemma HeaderMeans(c: Content)
    ensures var h := HeaderOf(c);
      && h.version == 3 && h.poolUsed == |c.snap.pool| && h.ctxUsed == |c.snap.ctxPool|
      && h.ctxNslots == |c.snap.ctxSlot| && h.winLen == c.winLen
      && h.lmN == (if c.lmCtx != [] then c.lmN else 0) && h.lmK == |c.lmCtx|
      && h.schemaRec == h.schemaPos == |c.schemaModes|
  {
    hide OffsetOf, SizesOf;
  }

  // ----- reading any bytes -----

  /** The number that the k bytes of s from o on spell, lowest first. */
  function NumberOf(s: seq<byte>, o: nat, k: nat): nat
    requires o + k <= |s|
  {
    FromLe(s[o..o + k])
  }

  lemma {:induction false} FieldRead(ws: seq<nat>, s: seq<byte>, i: nat)
    requires |s| >= Sum(ws) && i < |ws|
    ensures Sum(ws[..i]) + ws[i] <= |s|
    ensures FieldsOf(ws, s)[i] == NumberOf(s, Sum(ws[..i]), ws[i])
  {
    hide FromLe;
    if i > 0 {
      var t := s[ws[0]..];
      FieldRead(ws[1..], t, i - 1);
      assert ws[..i] == [ws[0]] + ws[1..][..i - 1];
      var o := Sum(ws[1..][..i - 1]);
      assert Sum(ws[..i]) == ws[0] + o;
      Dropped(s, ws[0], o, ws[i]);
    }
  }

  lemma Dropped(s: seq<byte>, a: nat, o: nat, k: nat)
    requires a <= |s| && o + k <= |s[a..]|
    ensures s[a..][o..o + k] == s[a + o..a + o + k]
  {
  }

  lemma HeaderFieldRead(s: seq<byte>, i: nat)
    requires |s| >= HEADER_SIZE && i < 25
    ensures var k := if 5 <= i < 10 || i == 12 || i >= 15 then 8 else 4;
      && HeaderPlace(i) + k <= |s| && |DecHeader(s).offs| == 9
      && HeaderFields(DecHeader(s))[i] == NumberOf(s, HeaderPlace(i), k)
  {
    var ws, t := FieldWidths(), s[4..];
    WidthsSum();
    var vs := FieldsOf(ws, t);
    assert DecHeader(s) == HeaderOfFields(vs) && HEADER_SIZE == 168;
    FieldsAgain(vs);
    WidthIs(i);
    PlaceIs(i);
    hide *;
    FieldRead(ws, t, i);
    Shifted(s, HeaderPlace(i), ws[i]);
  }

  lemma FieldsAgain(vs: seq<nat>)
    requires |vs| == 25
    ensures HeaderFields(HeaderOfFields(vs)) == vs
  {
  }

  lemma Shifted(s: seq<byte>, o: nat, k: nat)
    requires 4 <= o && |s| >= 4 && o - 4 + k <= |s[4..]|
    ensures o + k <= |s| && NumberOf(s[4..], o - 4, k) == NumberOf(s, o, k)
  {
    assert s[4..][o - 4..o - 4 + k] == s[o..o + k];
  }

  /** v is the number of field i of the header. */
  predicate ReadAs(s: seq<byte>, i: nat, v: nat) {
    var k := if 5 <= i < 10 || i == 12 || i >= 15 then 8 else 4;
    HeaderPlace(i) + k <= |s| && v == NumberOf(s, HeaderPlace(i), k)
  }

  /** On any bytes the header fields are read at the places where they are written. */
  lemma HeaderRead(s: seq<byte>)
    requires |s| >= 168
    ensures var h := DecHeader(s);
      && h.version == NumberOf(s, 4, 4) && h.btEntrySize == NumberOf(s, 8, 4) && h.ctxEntrySize == NumberOf(s, 12, 4)
      && h.maxDepth == NumberOf(s, 16, 4) && h.pres == NumberOf(s, 20, 4) && h.bloomBits == NumberOf(s, 24, 8)
      && h.poolUsed == NumberOf(s, 32, 8) && h.ctxUsed == NumberOf(s, 40, 8) && h.ctxNslots == NumberOf(s, 48, 8)
      && h.bloomBytes == NumberOf(s, 56, 8) && h.winLen == NumberOf(s, 64, 4) && h.lmN == NumberOf(s, 68, 4)
      && h.lmK == NumberOf(s, 72, 8) && h.schemaRec == NumberOf(s, 80, 4) && h.schemaPos == NumberOf(s, 84, 4)
      && |h.offs| == 9 && (forall k: nat :: k < 9 ==> h.offs[k] == NumberOf(s, 88 + 8 * k, 8))
      && h.fileSize == NumberOf(s, 160, 8)
  {
    var h := DecHeader(s);
    var vs := HeaderFields(h);
    hide NumberOf, DecHeader, HeaderFields, ReadAs;
    forall i: nat | i < 25
      ensures ReadAs(s, i, vs[i])
    {
      FieldIsRead(s, i);
    }
    FieldsNamed(s, h, vs);
  }

  lemma FieldIsRead(s: seq<byte>, i: nat)
    requires |s| >= 168 && i < 25
    ensures |DecHeader(s).offs| == 9 && ReadAs(s, i, HeaderFields(DecHeader(s))[i])
  {
    hide NumberOf, DecHeader, HeaderFields, HeaderPlace;
    HeaderFieldRead(s, i);
  }

  lemma FieldsNamed(s: seq<byte>, h: Header, vs: seq<nat>)
    requires |s| >= 168 && |h.offs| == 9 && vs == HeaderFields(h)
    requires forall i: nat :: i < 25 ==> ReadAs(s, i, vs[i])
    ensures
      && h.version == NumberOf(s, 4, 4) && h.btEntrySize == NumberOf(s, 8, 4) && h.ctxEntrySize == NumberOf(s, 12, 4)
      && h.maxDepth == NumberOf(s, 16, 4) && h.pres == NumberOf(s, 20, 4) && h.bloomBits == NumberOf(s, 24, 8)
      && h.poolUsed == NumberOf(s, 32, 8) && h.ctxUsed == NumberOf(s, 40, 8) && h.ctxNslots == NumberOf(s, 48, 8)
      && h.bloomBytes == NumberOf(s, 56, 8) && h.winLen == NumberOf(s, 64, 4) && h.lmN == NumberOf(s, 68, 4)
      && h.lmK == NumberOf(s, 72, 8) && h.schemaRec == NumberOf(s, 80, 4) && h.schemaPos == NumberOf(s, 84, 4)
      && |h.offs| == 9 && (forall k: nat :: k < 9 ==> h.offs[k] == NumberOf(s, 88 + 8 * k, 8))
      && h.fileSize == NumberOf(s, 160, 8)
  {
    hide NumberOf;
    assert vs[0] == h.version && vs[1] == h.btEntrySize && vs[2] == h.ctxEntrySize && vs[3] == h.maxDepth;
    assert vs[4] == h.pres && vs[5] == h.bloomBits && vs[6] == h.poolUsed && vs[7] == h.ctxUsed;
    assert vs[8] == h.ctxNslots && vs[9] == h.bloomBytes && vs[10] == h.winLen && vs[11] == h.lmN;
    assert vs[12] == h.lmK && vs[13] == h.schemaRec && vs[14] == h.schemaPos && vs[24] == h.fileSize;
    forall k: nat | k < 9
      ensures h.offs[k] == NumberOf(s, 88 + 8 * k, 8)
    {
      assert vs[15 + k] == h.offs[k] && HeaderPlace(15 + k) == 88 + 8 * k;
      assert ReadAs(s, 15 + k, vs[15 + k]);
    }
  }

  // ----- acceptance -----

  /** The header of any bytes read for a build, number by number: magic, version, size, the sizes of the build. */
  predicate HeaderInOrder(s: seq<byte>, build: Signature) {
    && |s| >= 168 && s[..4] == [0x42, 0x43, 0x42, 0x50]
    && NumberOf(s, 4, 4) == 3 && NumberOf(s, 160, 8) <= |s|
    && NumberOf(s, 8, 4) == 36 && NumberOf(s, 12, 4) == 40 && NumberOf(s, 16, 4) == 24
    && NumberOf(s, 20, 4) == build.pres && NumberOf(s, 24, 8) % 0x1_0000_0000 == build.bloomBits
    && NumberOf(s, 56, 8) == build.bloomBytes
  }

  /** The window and its length and the four tables of the context model lie inside. */
  predicate TablesInOrder(s: seq<byte>)
    requires |s| >= 168
  {
    && NumberOf(s, 88, 8) + 24 <= |s| && NumberOf(s, 64, 4) <= 24
    && NumberOf(s, 96, 8) + NumberOf(s, 32, 8) * 36 <= |s|
    && NumberOf(s, 104, 8) + NumberOf(s, 40, 8) * 40 <= |s|
    && NumberOf(s, 112, 8) + NumberOf(s, 48, 8) * 4 <= |s|
    && NumberOf(s, 120, 8) + NumberOf(s, 56, 8) <= |s|
  }

  /** Landmarks, if there are any, have 1 to 24 bytes and lie inside with their rows. */
  predicate LandmarksInOrder(s: seq<byte>)
    requires |s| >= 168
  {
    NumberOf(s, 72, 8) > 0 ==>
      && 1 <= NumberOf(s, 68, 4) <= 24
      && NumberOf(s, 128, 8) + NumberOf(s, 72, 8) * NumberOf(s, 68, 4) <= |s|
      && NumberOf(s, 136, 8) + NumberOf(s, 72, 8) * 512 <= |s|
  }

  /** A record, if there is one, has at most 1024 places, and their modes and rows lie inside. */
  predicate SchemaInOrder(s: seq<byte>)
    requires |s| >= 168
  {
    NumberOf(s, 80, 4) > 0 ==>
      && NumberOf(s, 84, 4) == NumberOf(s, 80, 4) <= 1024
      && NumberOf(s, 144, 8) + NumberOf(s, 84, 4) <= |s|
      && NumberOf(s, 152, 8) + NumberOf(s, 84, 4) * 512 <= |s|
  }

  predicate RegionsInOrder(s: seq<byte>)
    requires |s| >= 168
  {
    TablesInOrder(s) && LandmarksInOrder(s) && SchemaInOrder(s)
  }

  /** The header conditions of acceptance, in bytes. */
  lemma HeaderAccepted(s: seq<byte>, build: Signature)
    requires RealBuild(build)
    ensures HeaderInOrder(s, build) <==> HeaderOk(s) && SignatureOf(DecHeader(s)) == build
  {
    if |s| >= 168 {
      HeaderRead(s);
      hide NumberOf, DecHeader;
    }
  }

  lemma OffsetRead(s: seq<byte>, k: nat)
    requires |s| >= 168 && k < 9
    ensures |DecHeader(s).offs| == 9 && DecHeader(s).offs[k] == NumberOf(s, 88 + 8 * k, 8)
  {
    hide NumberOf, DecHeader;
    HeaderRead(s);
  }

  lemma TablesAccepted(s: seq<byte>)
    requires |s| >= 168 && NumberOf(s, 8, 4) == 36 && NumberOf(s, 12, 4) == 40 && NumberOf(s, 16, 4) == 24
    ensures |DecHeader(s).offs| == 9 && (TablesInOrder(s) <==> TablesInside(DecHeader(s), |s|))
  {
    hide NumberOf, DecHeader;
    HeaderRead(s);
    WordFour(s);
    OffsetRead(s, 0);
    OffsetRead(s, 1);
    OffsetRead(s, 2);
    OffsetRead(s, 3);
    OffsetRead(s, 4);
    assert TablesInside(DecHeader(s), |s|) <==>
      && NumberOf(s, 88, 8) + 24 <= |s|
      && NumberOf(s, 96, 8) + NumberOf(s, 32, 8) * 36 <= |s|
      && NumberOf(s, 104, 8) + NumberOf(s, 40, 8) * 40 <= |s|
      && NumberOf(s, 112, 8) + NumberOf(s, 48, 8) * 4 <= |s|
      && NumberOf(s, 120, 8) + NumberOf(s, 56, 8) <= |s|
      && 0 <= Signed(NumberOf(s, 64, 4)) <= 24;
  }

  lemma LandmarksAccepted(s: seq<byte>)
    requires |s| >= 168
    ensures |DecHeader(s).offs| == 9 && (LandmarksInOrder(s) <==> LandmarksInside(DecHeader(s), |s|))
  {
    hide NumberOf, DecHeader;
    HeaderRead(s);
    OffsetRead(s, 5);
    OffsetRead(s, 6);
  }

  lemma SchemaAccepted(s: seq<byte>)
    requires |s| >= 168
    ensures |DecHeader(s).offs| == 9 && (SchemaInOrder(s) <==> SchemaInside(DecHeader(s), |s|))
  {
    hide NumberOf, DecHeader;
    HeaderRead(s);
    OffsetRead(s, 7);
    OffsetRead(s, 8);
  }

  lemma RegionsAccepted(s: seq<byte>, build: Signature)
    requires HeaderInOrder(s, build)
    ensures |DecHeader(s).offs| == 9
    ensures RegionsInOrder(s)
       <==> TablesInside(DecHeader(s), |s|) && LandmarksInside(DecHeader(s), |s|) && SchemaInside(DecHeader(s), |s|)
  {
    hide NumberOf, DecHeader, TablesInside, LandmarksInside, SchemaInside, TablesInOrder, LandmarksInOrder,
         SchemaInOrder;
    TablesAccepted(s);
    LandmarksAccepted(s);
    SchemaAccepted(s);
  }

  lemma WordFour(s: seq<byte>)
    requires |s| >= 168
    ensures NumberOf(s, 64, 4) < 0x1_0000_0000
  {
    FromLeFits(s[64..68]);
    Pow2Values();
    hide FromLe, Pow2;
  }

  /** An image is accepted exactly when its header and regions are in order and its tables can be walked. */
  lemma AcceptedExactly(s: seq<byte>, build: Signature)
    requires RealBuild(build)
    ensures Accepts(s, build) ==> HeaderInOrder(s, build) && RegionsInOrder(s)
    ensures HeaderInOrder(s, build) && RegionsInOrder(s) ==>
      && |DecHeader(s).offs| == 9 && TablesInside(DecHeader(s), |s|)
      && DecHeader(s).btEntrySize == BT_ENTRY_SIZE && DecHeader(s).ctxEntrySize == CTX_ENTRY_SIZE
      && (Accepts(s, build) <==> Acceptable(SnapAt(DecHeader(s), s), build, build))
  {
    HeaderAccepted(s, build);
    if HeaderInOrder(s, build) {
      RegionsAccepted(s, build);
      SameSizes(DecHeader(s), build);
      hide HeaderInOrder, RegionsInOrder, HeaderOk, DecHeader, TablesInside, LandmarksInside, SchemaInside, SnapAt,
           Acceptable, RealBuild, SignatureOf;
      AcceptsMeans(s, build);
    } else {
      hide HeaderInOrder, RegionsInOrder, HeaderOk, DecHeader, TablesInside, LandmarksInside, SchemaInside, SnapAt,
           Acceptable, RealBuild, SignatureOf;
    }
  }

  lemma SameSizes(h: Header, build: Signature)
    requires RealBuild(build) && SignatureOf(h) == build
    ensures h.btEntrySize == BT_ENTRY_SIZE && h.ctxEntrySize == CTX_ENTRY_SIZE
  {
  }

  lemma AcceptsMeans(s: seq<byte>, build: Signature)
    requires RealBuild(build) && HeaderOk(s) && SignatureOf(DecHeader(s)) == build
    ensures var h := DecHeader(s);
      Accepts(s, build) <==> TablesInside(h, |s|) && LandmarksInside(h, |s|) && SchemaInside(h, |s|)
                             && h.btEntrySize == BT_ENTRY_SIZE && h.ctxEntrySize == CTX_ENTRY_SIZE
                             && Acceptable(SnapAt(h, s), build, build)
  {
    SameSizes(DecHeader(s), build);
    hide HeaderOk, DecHeader, TablesInside, LandmarksInside, SchemaInside, SnapAt, Acceptable, RealBuild, SignatureOf;
  }
}
