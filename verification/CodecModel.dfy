module CodecModel {
  // The codec as functions of a prior and a state: the next table in each mode, the next state, the delta transform.

  import opened Words
  import opened Arith
  import opened Occurrences
  import opened BtSnapshot
  import opened Distribution
  import opened DistributionBounds
  import opened CountSafety
  import opened RangeCoder
  import Landmarks
  import BtTrain

  const SCALE := 16384
  const SCHEMA_MAX := 1024

  /** A loaded prior: context model, landmark widths, record schema, identity. */
  datatype Prior = Prior(
    snap: Snapshot, hs: BtTrain.Hashes, luts: Luts,
    lmN: nat, lmCtx: seq<Context>, lmCum: seq<seq<nat>>, lmSlot: seq<int>, lmHash: Context -> nat,
    schemaRec: nat, schemaModes: seq<bool>, schemaCum: seq<seq<nat>>,
    id: seq<byte>)

  /** 256 widths, none of them zero, as the prior builders store them. */
  predicate StoredWidths(w: seq<nat>) {
    |w| == 256 && forall b :: 0 <= b < 256 ==> w[b] >= 1
  }

  /** What parsing makes sure of: sizes, an index over the landmarks, tables that can be walked. */
  ghost predicate Loaded(p: Prior) {
    && Readable(p.snap) && Shaped(p.luts) && GoodLuts(p.luts)
    && (p.lmCtx != [] ==> 1 <= p.lmN <= MAX_DEPTH)
    && (forall i :: 0 <= i < |p.lmCtx| ==> |p.lmCtx[i]| == p.lmN)
    && |p.lmCum| == |p.lmCtx| && (forall i :: 0 <= i < |p.lmCum| ==> |p.lmCum[i]| == 256)
    && Landmarks.IndexOf(p.lmSlot, p.lmCtx, p.lmHash)
    && p.schemaRec <= SCHEMA_MAX && |p.schemaModes| == |p.schemaCum| == p.schemaRec
    && (forall i :: 0 <= i < p.schemaRec ==> |p.schemaCum[i]| == 256)
    && |p.id| == 16
  }

  /** Widths that total the scale are handed to the coder, so none of them may be zero. */
  predicate Serves(w: seq<nat>) {
    Total(w) == SCALE ==> forall b :: 0 <= b < |w| ==> w[b] >= 1
  }

  /** The rows that can be handed out: every row of a schema, or every landmark row that a lookup can return. */
  predicate RowsServe(p: Prior) {
    if Structural(p) then forall i :: 0 <= i < |p.schemaCum| ==> Serves(p.schemaCum[i])
    else
      forall i :: 0 <= i < |p.lmCtx| && i < |p.lmCum| && Landmarks.First(p.lmCtx, p.lmCtx[i]) == i
                  ==> Serves(p.lmCum[i])
  }

  /** Where a landmark does not serve, the context model must be able to. */
  ghost predicate CountsServe(p: Prior)
    requires Loaded(p)
  {
    Structural(p) || EntriesSafe(p.snap, p.hs, p.luts, Exempt(p))
  }

  /** And its lookups must come to an end. */
  ghost predicate LookupsServe(p: Prior)
    requires Loaded(p)
  {
    Structural(p) || ProbesEnd(p.snap, p.hs, Exempt(p))
  }

  /**
   * A prior on which the codec is defined and the coder's demands are met; UsableExactly says that it is no more
   * than that.
   */
  ghost predicate GoodPrior(p: Prior): (good: bool)
    ensures good ==> Loaded(p)
  {
    Loaded(p) && RowsServe(p) && CountsServe(p) && LookupsServe(p)
  }

  predicate Structural(p: Prior) {
    p.schemaRec > 0
  }

  // ----- tables -----

  function Uniform(): (u: seq<nat>)
    ensures StoredWidths(u)
  {
    seq(256, b => 64)
  }

  /** Stored widths are used when they total the scale; otherwise every byte gets the same width. */
  function TableFor(w: seq<nat>): (t: seq<nat>)
    requires |w| == 256
    ensures |t| == 257
  {
    if Total(w) == SCALE then Cumulative(w) else Cumulative(Uniform())
  }

  lemma {:induction false} TotalConstant(n: nat)
    ensures Total(seq(n, b => 64)) == 64 * n
  {
    var s: seq<nat> := seq(n, b => 64);
    if n > 0 {
      TotalConstant(n - 1);
      assert s[..n - 1] == seq(n - 1, b => 64);
    }
  }

  /** Running totals make a legal table exactly when no width is zero. */
  lemma CumulativeExactly(w: seq<nat>)
    requires |w| == 256 && Total(w) <= MAX_TOTAL
    ensures LegalTable(Cumulative(w)) <==> forall b :: 0 <= b < 256 ==> w[b] >= 1
  {
    if forall b :: 0 <= b < 256 ==> w[b] >= 1 {
      CumulativeLegal(w);
    }
    if LegalTable(Cumulative(w)) {
      forall b | 0 <= b < 256
        ensures w[b] >= 1
      {
        TotalStep(w, b);
        assert Cumulative(w)[b] < Cumulative(w)[b + 1];
      }
    }
  }

  lemma TableForLegal(w: seq<nat>)
    requires |w| == 256
    ensures LegalTable(TableFor(w)) <==> Serves(w)
  {
    TotalConstant(256);
    CumulativeLegal(Uniform());
    if Total(w) == SCALE {
      CumulativeExactly(w);
    }
  }

  /** The widths turned by sh: byte b gets the width of b - sh. */
  function Rotated(w: seq<nat>, sh: byte): (r: seq<nat>)
    requires |w| == 256
    ensures |r| == 256
  {
    seq(256, b requires 0 <= b < 256 => w[(b - sh) % 256])
  }

  // ----- states -----

  /** The mutable part of a codec: a window, or a place in the current record. */
  datatype State =
    | Window(window: seq<byte>)
    | Record(pos: nat, prev: seq<byte>, cur: seq<byte>, sdelta: bool)

  /** A landmark gives the table of the window. */
  predicate Served(p: Prior, w: seq<byte>) {
    var i := LandmarkOf(p, w);
    0 <= i < |p.lmCum| && Total(p.lmCum[i]) == SCALE
  }

  function Exempt(p: Prior): seq<byte> -> bool {
    (w: seq<byte>) => Served(p, w)
  }

  ghost predicate GoodState(p: Prior, st: State) {
    match st
    case Window(w) => !Structural(p) && |w| <= MAX_DEPTH
    case Record(pos, prev, cur, _) => pos < p.schemaRec && |prev| == |cur| == SCHEMA_MAX
  }

  function ZeroRecord(): (r: seq<byte>)
    ensures |r| == SCHEMA_MAX
  {
    seq(SCHEMA_MAX, i => 0)
  }

  /** The state at the start of every message. */
  function Start(p: Prior, sdelta: bool): State {
    if Structural(p) then Record(0, ZeroRecord(), ZeroRecord(), sdelta) else Window([])
  }

  /** The landmark for the window, or -1. */
  function LandmarkOf(p: Prior, w: seq<byte>): (i: int)
    ensures -1 <= i < |p.lmCtx|
  {
    if p.lmCtx != [] && |w| >= p.lmN then Landmarks.First(p.lmCtx, Suffix(w, p.lmN)) else -1
  }

  function ViewOf(p: Prior, w: seq<byte>): View {
    View(p.snap, p.hs, p.luts, w)
  }

  /** The computation of the next table faults nowhere. */
  ghost predicate TableDefined(p: Prior, st: State)
    requires Loaded(p) && GoodState(p, st)
  {
    st.Window? && !Served(p, st.window) ==> GoodView(ViewOf(p, st.window))
  }

  /** The table handed to the coder. */
  ghost function TableAt(p: Prior, st: State): (t: seq<nat>)
    requires Loaded(p) && GoodState(p, st) && TableDefined(p, st)
    ensures |t| == 257
  {
    match st
    case Window(w) =>
      if Served(p, w) then Cumulative(p.lmCum[LandmarkOf(p, w)]) else SimpleTable(ViewOf(p, w), SCALE)
    case Record(pos, prev, _, sdelta) =>
      if !sdelta && p.schemaModes[pos] then TableFor(Rotated(p.schemaCum[pos], prev[pos]))
      else TableFor(p.schemaCum[pos])
  }

  ghost function Dist(p: Prior, st: State): (t: seq<nat>)
    requires GoodPrior(p) && GoodState(p, st)
    ensures |t| == 257
  {
    AlwaysDefined(p, st);
    TableAt(p, st)
  }

  lemma ExemptSuffixes(p: Prior)
    ensures Exempting(Exempt(p))
  {
    forall w: seq<byte>, n: nat | n <= |w| <= MAX_DEPTH && Exempt(p)(Suffix(w, n))
      ensures Exempt(p)(w)
    {
      SuffixOfSuffix(w, n, p.lmN);
    }
  }

  lemma AlwaysDefined(p: Prior, st: State)
    requires GoodPrior(p) && GoodState(p, st)
    ensures TableDefined(p, st)
  {
    if st.Window? && !Served(p, st.window) {
      ExemptSuffixes(p);
      hide Readable, Defined, Exempting, EntriesSafe, ProbesEnd, RowsServe, Served, GoodLuts, Landmarks.IndexOf;
      WindowSafe(ViewOf(p, st.window), Exempt(p));
    }
  }

  /** Whatever the mode and the state, the coder gets a legal table. */
  lemma DistLegal(p: Prior, st: State)
    requires GoodPrior(p) && GoodState(p, st)
    ensures LegalTable(Dist(p, st))
  {
    AlwaysDefined(p, st);
    hide CountsServe, LookupsServe, LegalTable, Cumulative;
    match st
    case Window(w) =>
      if Served(p, w) {
        LandmarkFirst(p, w);
        CumulativeExactly(p.lmCum[LandmarkOf(p, w)]);
      } else {
        DistributionLegal(ViewOf(p, w));
      }
    case Record(pos, prev, _, sdelta) =>
      TableForLegal(Rotated(p.schemaCum[pos], prev[pos]));
      TableForLegal(p.schemaCum[pos]);
      RotatedServes(p.schemaCum[pos], prev[pos]);
  }

  /** The landmark of a window is the first one with its context. */
  lemma LandmarkFirst(p: Prior, w: seq<byte>)
    requires LandmarkOf(p, w) >= 0
    ensures var i := LandmarkOf(p, w); Landmarks.First(p.lmCtx, p.lmCtx[i]) == i
  {
    Landmarks.ScanIsFirst(Landmarks.Numbered(p.lmCtx), Suffix(w, p.lmN));
  }

  /** The byte that a coded symbol stands for. */
  function Actual(p: Prior, st: State, sym: byte): byte
    requires st.Record? ==> st.pos < |st.prev| && st.pos < |p.schemaModes|
  {
    if st.Record? && st.sdelta && p.schemaModes[st.pos] then (sym + st.prev[st.pos]) % 256 else sym
  }

  /** The symbol that codes a byte. */
  function Symbol(p: Prior, st: State, b: byte): byte
    requires st.Record? ==> st.pos < |st.prev| && st.pos < |p.schemaModes|
  {
    if st.Record? && st.sdelta then Delta(p.schemaModes[st.pos], st.prev[st.pos], b) else b
  }

  /** At a delta position a byte is coded as its difference from the byte of the previous record. */
  function Delta(turned: bool, sh: byte, b: byte): byte {
    if turned then (b - sh) % 256 else b
  }

  lemma ActualOfSymbol(p: Prior, st: State, b: byte)
    requires st.Record? ==> st.pos < |st.prev| && st.pos < |p.schemaModes|
    ensures Actual(p, st, Symbol(p, st, b)) == b
    ensures Symbol(p, st, Actual(p, st, b)) == b
  {
    if st.Record? && st.sdelta && p.schemaModes[st.pos] {
      TurnBack(b, st.prev[st.pos]);
    }
  }

  lemma Turn(b: byte, sh: byte)
    ensures (b as int - sh as int) % 256 == if b >= sh then b - sh else 256 + b as int - sh as int
    ensures (b as int + sh as int) % 256 == if b as int + sh as int < 256 then b + sh else b as int + sh as int - 256
  {
  }

  lemma TurnBack(b: byte, sh: byte)
    ensures ((b as int - sh as int) % 256 + sh as int) % 256 == b
    ensures ((b as int + sh as int) % 256 - sh as int) % 256 == b
  {
    Turn(b, sh);
    Turn((b as int - sh as int) % 256, sh);
    Turn((b as int + sh as int) % 256, sh);
  }

  /** A record codec that takes in one byte: a full record becomes the previous one. */
  function Stored(st: State, rec: nat, a: byte): State
    requires st.Record? && |st.prev| == |st.cur| == SCHEMA_MAX && st.pos < rec <= SCHEMA_MAX
  {
    var cur' := st.cur[st.pos := a];
    if st.pos + 1 == rec then Record(0, cur'[..rec] + st.prev[rec..], cur', st.sdelta)
    else Record(st.pos + 1, st.prev, cur', st.sdelta)
  }

  /** The state after a coded symbol; a completed record becomes the previous one. */
  ghost function Step(p: Prior, st: State, sym: byte): (r: State)
    requires Loaded(p) && GoodState(p, st)
    ensures GoodState(p, r)
  {
    match st
    case Window(w) => Window(Push(w, sym))
    case Record(_, _, _, _) => Stored(st, p.schemaRec, Actual(p, st, sym))
  }

  // ----- runs -----

  ghost function After(p: Prior, sdelta: bool, syms: seq<byte>): (st: State)
    requires Loaded(p)
    ensures GoodState(p, st)
  {
    if syms == [] then Start(p, sdelta)
    else Step(p, After(p, sdelta, syms[..|syms| - 1]), syms[|syms| - 1])
  }

  ghost function TableIn(p: Prior, st: State): Table
    requires GoodPrior(p) && GoodState(p, st)
  {
    DistLegal(p, st);
    Dist(p, st)
  }

  /** The codec as a model for the coder: the symbols so far determine the table. */
  ghost function ModelOf(p: Prior, sdelta: bool): Model
    requires GoodPrior(p)
  {
    (syms: seq<byte>) => TableIn(p, After(p, sdelta, syms))
  }

  /** The symbols that code a message. */
  ghost function Symbols(p: Prior, sdelta: bool, msg: seq<byte>): (syms: seq<byte>)
    requires Loaded(p)
    ensures |syms| == |msg|
  {
    if msg == [] then []
    else
      var front := Symbols(p, sdelta, msg[..|msg| - 1]);
      front + [Symbol(p, After(p, sdelta, front), msg[|msg| - 1])]
  }

  /** The bytes that coded symbols stand for. */
  ghost function Actuals(p: Prior, sdelta: bool, syms: seq<byte>): (msg: seq<byte>)
    requires Loaded(p)
    ensures |msg| == |syms|
  {
    if syms == [] then []
    else
      var front := syms[..|syms| - 1];
      Actuals(p, sdelta, front) + [Actual(p, After(p, sdelta, front), syms[|syms| - 1])]
  }

  lemma NothingYet(p: Prior, sdelta: bool)
    requires Loaded(p)
    ensures After(p, sdelta, []) == Start(p, sdelta) && Actuals(p, sdelta, []) == []
  {
  }

  lemma ActualsAppend(p: Prior, sdelta: bool, syms: seq<byte>, s: byte)
    requires Loaded(p)
    ensures Actuals(p, sdelta, syms + [s]) == Actuals(p, sdelta, syms) + [Actual(p, After(p, sdelta, syms), s)]
    ensures After(p, sdelta, syms + [s]) == Step(p, After(p, sdelta, syms), s)
  {
    hide Loaded, GoodState, Actual, Step;
    assert (syms + [s])[..|syms|] == syms;
  }

  lemma SymbolsAppend(p: Prior, sdelta: bool, msg: seq<byte>, b: byte)
    requires Loaded(p)
    ensures Symbols(p, sdelta, msg + [b])
         == Symbols(p, sdelta, msg) + [Symbol(p, After(p, sdelta, Symbols(p, sdelta, msg)), b)]
  {
    hide Loaded, GoodState, Symbol, After;
    assert (msg + [b])[..|msg|] == msg;
  }

  lemma InRecord(p: Prior, st: State)
    requires Loaded(p) && GoodState(p, st)
    ensures st.Record? ==> st.pos < |st.prev| && st.pos < |p.schemaModes|
  {
  }

  /** The delta transform is undone symbol by symbol, over any message and any record size. */
  lemma {:induction false} TransformRoundTrip(p: Prior, sdelta: bool, msg: seq<byte>)
    requires Loaded(p)
    ensures Actuals(p, sdelta, Symbols(p, sdelta, msg)) == msg
  {
    hide *;
    if msg != [] {
      var front, b := msg[..|msg| - 1], msg[|msg| - 1];
      TransformRoundTrip(p, sdelta, front);
      var syms := Symbols(p, sdelta, front);
      var st := After(p, sdelta, syms);
      assert msg == front + [b];
      InRecord(p, st);
      SymbolsAppend(p, sdelta, front, b);
      ActualsAppend(p, sdelta, syms, Symbol(p, st, b));
      ActualOfSymbol(p, st, b);
    }
  }

  /** A message keeps its format to the end. */
  lemma {:induction false} FormatKept(p: Prior, sdelta: bool, syms: seq<byte>)
    requires Loaded(p)
    ensures After(p, sdelta, syms).Record? ==> After(p, sdelta, syms).sdelta == sdelta
  {
    if syms != [] {
      FormatKept(p, sdelta, syms[..|syms| - 1]);
      hide Loaded, Push, Actual;
    }
  }

  /** In the rotated format symbols are bytes. */
  lemma {:induction false} WithoutDelta(p: Prior, syms: seq<byte>)
    requires Loaded(p)
    ensures Actuals(p, false, syms) == syms
    ensures Symbols(p, false, syms) == syms
  {
    hide *;
    if syms != [] {
      var front, b := syms[..|syms| - 1], syms[|syms| - 1];
      WithoutDelta(p, front);
      FormatKept(p, false, front);
      PlainSymbol(p, After(p, false, front), b);
      assert syms == front + [b];
      SymbolsAppend(p, false, front, b);
      ActualsAppend(p, false, front, b);
    }
  }

  lemma PlainSymbol(p: Prior, st: State, b: byte)
    requires Loaded(p) && GoodState(p, st) && (st.Record? ==> !st.sdelta)
    ensures Actual(p, st, b) == b == Symbol(p, st, b)
  {
  }

  /** Each symbol of a message is chosen in the state its predecessors lead to. */
  lemma {:induction false} SymbolChosen(p: Prior, sdelta: bool, msg: seq<byte>, i: nat)
    requires Loaded(p) && i < |msg|
    ensures var syms := Symbols(p, sdelta, msg); var st := After(p, sdelta, syms[..i]);
      (st.Record? ==> st.pos < |st.prev| && st.pos < |p.schemaModes|) && syms[i] == Symbol(p, st, msg[i])
  {
    hide *;
    var front, b := msg[..|msg| - 1], msg[|msg| - 1];
    assert msg == front + [b];
    SymbolsAppend(p, sdelta, front, b);
    var syms := Symbols(p, sdelta, front);
    InRecord(p, After(p, sdelta, syms));
    assert Symbols(p, sdelta, msg)[..|front|] == syms;
    if i < |front| {
      SymbolChosen(p, sdelta, front, i);
      assert syms[..i] == Symbols(p, sdelta, msg)[..i];
    }
  }

  // ----- records -----

  /** After len bytes the current record has pos bytes, and whole records lie before it. */
  predicate WholeRecords(len: nat, pos: nat, rec: nat) {
    pos <= len && rec > 0 && (len - pos) % rec == 0
  }

  lemma NextByte(len: nat, pos: nat, rec: nat)
    requires WholeRecords(len, pos, rec)
    ensures WholeRecords(len + 1, pos + 1, rec)
    ensures pos + 1 == rec ==> WholeRecords(len + 1, 0, rec)
  {
    if pos + 1 == rec {
      var q := (len - pos) / rec;
      assert len - pos == q * rec;
      assert len + 1 == (q + 1) * rec + 0;
      DivUnique(len + 1, rec, q + 1, 0);
    }
  }

  /**
   * Where a record codec stands after some bytes: the place in the record, the last complete record, the bytes
   * since.
   */
  ghost predicate AtRecord(p: Prior, st: State, msg: seq<byte>) {
    && st.Record? && |st.prev| == |st.cur| == SCHEMA_MAX
    && st.pos < p.schemaRec <= SCHEMA_MAX
    && WholeRecords(|msg|, st.pos, p.schemaRec)
    && st.cur[..st.pos] == msg[|msg| - st.pos..]
    && st.prev[..p.schemaRec] == LastRecord(msg[..|msg| - st.pos], p.schemaRec)
  }

  /** The last rec bytes of whole records; zeros when there is none. */
  function LastRecord(done: seq<byte>, rec: nat): seq<byte>
    requires rec <= SCHEMA_MAX
  {
    if |done| == 0 then ZeroRecord()[..rec]
    else if |done| < rec then []
    else done[|done| - rec..]
  }

  /** At every point of a run the previous record is the last complete one and the current one holds the bytes since. */
  lemma {:induction false} RecordTracking(p: Prior, sdelta: bool, syms: seq<byte>)
    requires Loaded(p) && Structural(p)
    ensures AtRecord(p, After(p, sdelta, syms), Actuals(p, sdelta, syms))
  {
    hide *;
    if syms == [] {
      RecordAtStart(p, sdelta);
    } else {
      var front, sym := syms[..|syms| - 1], syms[|syms| - 1];
      RecordTracking(p, sdelta, front);
      assert syms == front + [sym];
      ActualsAppend(p, sdelta, front, sym);
      RecordStep(p, After(p, sdelta, front), Actuals(p, sdelta, front), sym);
    }
  }

  lemma RecordAtStart(p: Prior, sdelta: bool)
    requires Loaded(p) && Structural(p)
    ensures AtRecord(p, After(p, sdelta, []), Actuals(p, sdelta, []))
  {
    NothingYet(p, sdelta);
    var st, rec := After(p, sdelta, []), p.schemaRec;
    assert st.pos == 0 && |st.prev| == |st.cur| == SCHEMA_MAX && 0 < rec <= SCHEMA_MAX;
    assert st.prev == ZeroRecord() && WholeRecords(0, 0, rec);
    hide *;
    assert st.cur[..0] == [];
  }

  lemma RecordStep(p: Prior, st: State, msg: seq<byte>, sym: byte)
    requires Loaded(p) && GoodState(p, st) && AtRecord(p, st, msg)
    ensures AtRecord(p, Step(p, st, sym), msg + [Actual(p, st, sym)])
  {
    var a := Actual(p, st, sym);
    assert Step(p, st, sym) == Stored(st, p.schemaRec, a);
    hide *;
    RecordTracked(p, st, msg, a);
  }

  lemma RecordTracked(p: Prior, st: State, msg: seq<byte>, a: byte)
    requires AtRecord(p, st, msg)
    ensures AtRecord(p, Stored(st, p.schemaRec, a), msg + [a])
  {
    NextByte(|msg|, st.pos, p.schemaRec);
    hide WholeRecords, ZeroRecord, LastRecord;
    BuffersStep(st.prev, st.cur, st.pos, p.schemaRec, msg, a);
  }

  /** The two buffers after one more byte: a full record is saved, a partial one goes on. */
  lemma BuffersStep(prev: seq<byte>, cur: seq<byte>, pos: nat, rec: nat, msg: seq<byte>, a: byte)
    requires |prev| == |cur| == SCHEMA_MAX && pos < rec <= SCHEMA_MAX && pos <= |msg|
    requires cur[..pos] == msg[|msg| - pos..] && prev[..rec] == LastRecord(msg[..|msg| - pos], rec)
    ensures var cur', msg' := cur[pos := a], msg + [a];
      if pos + 1 == rec
      then cur'[..0] == msg'[|msg'|..] && (cur'[..rec] + prev[rec..])[..rec] == LastRecord(msg'[..|msg'|], rec)
      else cur'[..pos + 1] == msg'[|msg'| - pos - 1..] && prev[..rec] == LastRecord(msg'[..|msg'| - pos - 1], rec)
  {
    hide ZeroRecord;
    var cur', msg', start := cur[pos := a], msg + [a], |msg| - pos;
    assert msg'[start..] == msg[start..] + [a];
    assert cur'[..pos + 1] == cur[..pos] + [a];
    if pos + 1 == rec {
      assert msg'[..|msg'|] == msg';
    } else {
      assert msg'[..start] == msg[..start];
    }
  }

  // ----- same widths -----

  lemma {:induction false} TotalConcat(a: seq<nat>, b: seq<nat>)
    ensures Total(a + b) == Total(a) + Total(b)
  {
    if b == [] {
      assert a + b == a;
    } else {
      TotalConcat(a, b[..|b| - 1]);
      assert (a + b)[..|a + b| - 1] == a + b[..|b| - 1];
    }
  }

  lemma RotatedTotal(w: seq<nat>, sh: byte)
    requires |w| == 256
    ensures Total(Rotated(w, sh)) == Total(w)
  {
    var k := 256 - sh;
    RotatedSplits(w, sh, k);
    hide Rotated;
    TotalConcat(w[k..], w[..k]);
    TotalConcat(w[..k], w[k..]);
    assert w[..k] + w[k..] == w;
  }

  lemma RotatedSplits(w: seq<nat>, sh: byte, k: nat)
    requires |w| == 256 && k == 256 - sh
    ensures Rotated(w, sh) == w[k..] + w[..k]
  {
    var r := Rotated(w, sh);
    forall b: byte
      ensures r[b] == (w[k..] + w[..k])[b]
    {
      Turn(b, sh);
    }
    assert forall i :: 0 <= i < 256 ==> r[i] == (w[k..] + w[..k])[i];
  }

  function WidthIn(t: seq<nat>, b: byte): int
    requires |t| == 257
  {
    t[b + 1] as int - t[b] as int
  }

  lemma TableForWidth(w: seq<nat>, b: byte)
    requires |w| == 256
    ensures WidthIn(TableFor(w), b) == if Total(w) == SCALE then w[b] else 64
  {
    if Total(w) == SCALE {
      TotalStep(w, b);
    } else {
      TotalStep(Uniform(), b);
    }
  }

  /** A symbol of the delta format is exactly as wide as its byte is in the rotated format. */
  lemma DeltaKeepsWidth(p: Prior, st: State, b: byte)
    requires Loaded(p) && GoodState(p, st) && st.Record? && st.sdelta
    ensures WidthIn(TableAt(p, st), Symbol(p, st, b)) == WidthIn(TableAt(p, st.(sdelta := false)), b)
  {
    RecordTable(p, st);
    RecordTable(p, st.(sdelta := false));
    assert Symbol(p, st, b) == Delta(p.schemaModes[st.pos], st.prev[st.pos], b);
    hide *;
    TurnedWidths(p.schemaCum[st.pos], st.prev[st.pos], p.schemaModes[st.pos], b);
  }

  lemma TurnedWidths(w: seq<nat>, sh: byte, turned: bool, b: byte)
    requires |w| == 256
    ensures WidthIn(TableFor(w), Delta(turned, sh, b)) == WidthIn(TableFor(if turned then Rotated(w, sh) else w), b)
  {
    var r := if turned then Rotated(w, sh) else w;
    assert r[b] == w[Delta(turned, sh, b)];
    hide Rotated, TableFor, WidthIn, Delta;
    RotatedTotal(w, sh);
    TableForWidth(w, Delta(turned, sh, b));
    TableForWidth(r, b);
  }

  lemma RecordTable(p: Prior, st: State)
    requires Loaded(p) && GoodState(p, st) && st.Record?
    ensures st.pos < |p.schemaCum| && |p.schemaCum[st.pos]| == 256
    ensures st.pos < |p.schemaModes| && st.pos < |st.prev|
    ensures TableAt(p, st)
         == TableFor(if !st.sdelta && p.schemaModes[st.pos] then Rotated(p.schemaCum[st.pos], st.prev[st.pos])
                     else p.schemaCum[st.pos])
  {
    hide TableFor, Rotated;
  }

  lemma RotatedServes(w: seq<nat>, sh: byte)
    requires |w| == 256
    ensures Serves(Rotated(w, sh)) <==> Serves(w)
  {
    RotatedTotal(w, sh);
    var r := Rotated(w, sh);
    hide Total;
    if forall b :: 0 <= b < 256 ==> r[b] >= 1 {
      forall b: byte
        ensures w[b] >= 1
      {
        TurnBack(b, sh);
        assert r[(b + sh) % 256] == w[b];
      }
    }
  }

  // ----- exactly the priors that can be used -----

  /** The codec can go on: the next table is defined and the coder may have it. */
  ghost predicate CanGoOn(p: Prior, st: State)
    requires Loaded(p) && GoodState(p, st)
  {
    TableDefined(p, st) && LegalTable(TableAt(p, st))
  }

  /** In every state that any message leads to, in either format. */
  ghost predicate AlwaysGoesOn(p: Prior)
    requires Loaded(p)
  {
    forall sdelta, syms :: CanGoOn(p, After(p, sdelta, syms))
  }

  /** Every window of up to 24 bytes is reached. */
  lemma {:induction false} WindowReached(p: Prior, sdelta: bool, w: seq<byte>)
    requires Loaded(p) && !Structural(p) && |w| <= MAX_DEPTH
    ensures After(p, sdelta, w) == Window(w)
  {
    if w != [] {
      var front, b := w[..|w| - 1], w[|w| - 1];
      WindowReached(p, sdelta, front);
      assert w == front + [b];
      hide Loaded;
    }
  }

  /** Every place in a record is reached. */
  lemma {:induction false} PlaceReached(p: Prior, sdelta: bool, i: nat)
    requires Loaded(p) && i < p.schemaRec
    ensures var st := After(p, sdelta, seq(i, _ => 0 as byte)); st.Record? && st.pos == i && st.sdelta == sdelta
  {
    var zeros: seq<byte> := seq(i, _ => 0 as byte);
    if i > 0 {
      PlaceReached(p, sdelta, i - 1);
      assert zeros[..i - 1] == seq(i - 1, _ => 0 as byte);
    }
  }

  /**
   * The codec never faults and never hands out an illegal table, in any state that any message leads to,
   * exactly when every row that can be handed out serves, every context entry that can be asked is safe and
   * every lookup that can be asked ends.
   */
  lemma UsableExactly(p: Prior)
    requires Loaded(p)
    ensures GoodPrior(p) <==> AlwaysGoesOn(p)
  {
    hide *;
    if GoodPrior(p) {
      GoodAlwaysGoesOn(p);
    } else if AlwaysGoesOn(p) {
      if Structural(p) {
        SchemaMustServe(p);
      } else {
        LandmarksMustServe(p);
        CountsMustServe(p);
      }
      GoodWhen(p);
    }
  }

  lemma GoodAlwaysGoesOn(p: Prior)
    requires GoodPrior(p) && Loaded(p)
    ensures AlwaysGoesOn(p)
  {
    hide GoodPrior, Loaded, CanGoOn, After;
    forall sdelta, syms
      ensures CanGoOn(p, After(p, sdelta, syms))
    {
      GoodGoesOn(p, After(p, sdelta, syms));
    }
  }

  lemma GoodGoesOn(p: Prior, st: State)
    requires GoodPrior(p) && Loaded(p) && GoodState(p, st)
    ensures CanGoOn(p, st)
  {
    AlwaysDefined(p, st);
    DistLegal(p, st);
    hide GoodPrior, Loaded, GoodState, TableAt, TableDefined, LegalTable;
  }

  lemma GoodWhen(p: Prior)
    requires Loaded(p) && RowsServe(p) && CountsServe(p) && LookupsServe(p)
    ensures GoodPrior(p)
  {
  }

  lemma SchemaMustServe(p: Prior)
    requires Loaded(p) && Structural(p) && AlwaysGoesOn(p)
    ensures RowsServe(p) && CountsServe(p) && LookupsServe(p)
  {
    hide After, TableFor, LegalTable, Serves;
    forall i | 0 <= i < |p.schemaCum|
      ensures Serves(p.schemaCum[i])
    {
      PlaceReached(p, true, i);
      var st := After(p, true, seq(i, _ => 0 as byte));
      assert CanGoOn(p, st);
      TableForLegal(p.schemaCum[i]);
    }
  }

  lemma LandmarksMustServe(p: Prior)
    requires Loaded(p) && !Structural(p) && AlwaysGoesOn(p)
    ensures RowsServe(p)
  {
    forall i | 0 <= i < |p.lmCtx| && Landmarks.First(p.lmCtx, p.lmCtx[i]) == i && Total(p.lmCum[i]) == SCALE
      ensures Serves(p.lmCum[i])
    {
      var w := p.lmCtx[i];
      WindowReached(p, false, w);
      assert Suffix(w, p.lmN) == w;
      assert CanGoOn(p, After(p, false, w));
      CumulativeExactly(p.lmCum[i]);
    }
  }

  lemma CountsMustServe(p: Prior)
    requires Loaded(p) && !Structural(p) && AlwaysGoesOn(p)
    ensures CountsServe(p) && LookupsServe(p)
  {
    ExemptSuffixes(p);
    hide Exempting, EntriesSafe, ProbesEnd, Defined, After, Readable, GoodLuts, Landmarks.IndexOf, LandmarkOf;
    forall w: seq<byte> | |w| <= MAX_DEPTH && !Exempt(p)(w)
      ensures Defined(View(p.snap, p.hs, p.luts, w))
    {
      WindowReached(p, false, w);
      assert CanGoOn(p, After(p, false, w));
    }
    SafeExactly(p.snap, p.hs, p.luts, Exempt(p));
  }
}
