/** The tables handed to the coder, byte by byte: which width of which stored row a byte gets. */
module TableLaws {
  import opened Words
  import opened Occurrences
  import opened Distribution
  import opened DistributionBounds
  import opened CodecModel
  import Landmarks
  import BtTrain

  /** The window ends with the context of landmark i, and none of the landmarks before it has that context. */
  predicate EndsWithLandmark(p: Prior, w: seq<byte>, i: int) {
    && 0 <= i < |p.lmCtx| && i < BtTrain.INT_COUNT
    && p.lmN <= |w| && w[|w| - p.lmN..] == p.lmCtx[i]
    && forall j :: 0 <= j < i ==> p.lmCtx[j] != p.lmCtx[i]
  }

  lemma LandmarkIs(p: Prior, w: seq<byte>, i: int)
    requires EndsWithLandmark(p, w, i)
    ensures LandmarkOf(p, w) == i
  {
    var n, c := Landmarks.Numbered(p.lmCtx), Suffix(w, p.lmN);
    Landmarks.ScanIsFirst(n, c);
    assert n[i] == c;
    assert forall j :: 0 <= j < i ==> n[j] == p.lmCtx[j];
    Landmarks.FirstUnique(n, c, Landmarks.Scan(n, c), i);
  }

  lemma LandmarkEnds(p: Prior, w: seq<byte>)
    requires LandmarkOf(p, w) >= 0
    ensures EndsWithLandmark(p, w, LandmarkOf(p, w))
  {
    var n := Landmarks.Numbered(p.lmCtx);
    Landmarks.ScanIsFirst(n, Suffix(w, p.lmN));
    assert forall j :: 0 <= j < |n| ==> n[j] == p.lmCtx[j];
  }

  lemma CumulativeWidth(w: seq<nat>, b: byte)
    requires |w| == 256
    ensures WidthIn(Cumulative(w), b) == w[b]
  {
    TotalStep(w, b);
  }

  /** Where the window ends with a landmark whose row totals the scale, each byte gets its own width of that row. */
  lemma LandmarkWidths(p: Prior, w: seq<byte>)
    requires Loaded(p) && GoodState(p, Window(w)) && TableDefined(p, Window(w))
    ensures forall i, b: byte :: EndsWithLandmark(p, w, i) && Total(p.lmCum[i]) == SCALE
              ==> WidthIn(TableAt(p, Window(w)), b) == p.lmCum[i][b]
  {
    forall i, b: byte | EndsWithLandmark(p, w, i) && Total(p.lmCum[i]) == SCALE
      ensures WidthIn(TableAt(p, Window(w)), b) == p.lmCum[i][b]
    {
      LandmarkIs(p, w, i);
      assert Served(p, w);
      CumulativeWidth(p.lmCum[i], b);
    }
  }

  /** Everywhere else the table is the context model's. */
  lemma WithoutLandmark(p: Prior, w: seq<byte>)
    requires Loaded(p) && GoodState(p, Window(w)) && TableDefined(p, Window(w))
    requires forall i :: EndsWithLandmark(p, w, i) ==> Total(p.lmCum[i]) != SCALE
    ensures GoodView(ViewOf(p, w)) && TableAt(p, Window(w)) == SimpleTable(ViewOf(p, w), SCALE)
  {
    if LandmarkOf(p, w) >= 0 {
      LandmarkEnds(p, w);
    }
    assert !Served(p, w);
  }

  /**
   * In a record each byte gets its width of the row of the position; in the rotated format a byte at a delta
   * position gets the width of its difference from the byte one record ago.  A row that does not total
   * the scale gives every byte the same width.
   */
  lemma RecordWidths(p: Prior, st: State, b: byte)
    requires Loaded(p) && GoodState(p, st) && st.Record?
    ensures st.pos < |p.schemaCum| && |p.schemaCum[st.pos]| == 256 && st.pos < |p.schemaModes| && st.pos < |st.prev|
    ensures var row, sh := p.schemaCum[st.pos], st.prev[st.pos];
      WidthIn(TableAt(p, st), b)
      == if Total(row) != SCALE then 64
         else if st.sdelta || !p.schemaModes[st.pos] then row[b]
         else row[if b >= sh then b - sh else 256 + b as int - sh as int]
  {
    RecordTable(p, st);
    var row, sh := p.schemaCum[st.pos], st.prev[st.pos];
    var turned := !st.sdelta && p.schemaModes[st.pos];
    Turn(b, sh);
    RotatedTotal(row, sh);
    assert turned ==> Rotated(row, sh)[b] == row[(b as int - sh as int) % 256];
    hide Rotated, TableFor, TableAt, Loaded;
    TableForWidth(if turned then Rotated(row, sh) else row, b);
  }
}
