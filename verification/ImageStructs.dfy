/**
 * The records a prior file holds, byte by byte: pool entries of 36 bytes, context entries of 40 bytes, signed
 * slots, 16-bit widths, mode bytes and Bloom bits.  Each has an encoder and a decoder, and a
 * lemma that the decoder inverts the encoder on every value that fits its fields.
 */
module ImageStructs {
  import opened Words
  import opened Occurrences
  import opened BtTables
  import opened LittleEndian
  import opened ImageLayout

  const BT_ENTRY_SIZE: nat := 36
  const CTX_ENTRY_SIZE: nat := 40

  // ----- 32-bit signed numbers -----

  predicate FitsInt32(x: int) {
    -0x8000_0000 <= x < 0x8000_0000
  }

  function EncInt(x: int): (s: seq<byte>)
    ensures |s| == 4
  {
    Le(U32(x), 4)
  }

  function DecInt(s: seq<byte>): int {
    Signed(FromLe(s))
  }

  lemma IntBack(x: int)
    requires FitsInt32(x)
    ensures DecInt(EncInt(x)) == x
  {
    hide Le, FromLe;
    WordBack(U32(x));
    assert U32(x) == if x >= 0 then x else x + TWO32;
  }

  // ----- contexts -----

  function EncContext(c: Context): (s: seq<byte>)
    requires |c| <= MAX_DEPTH
    ensures |s| == MAX_DEPTH
  {
    c + Zeros(MAX_DEPTH - |c|)
  }

  /** The first len bytes; a length beyond the field makes a context that validation refuses. */
  function DecContext(raw: seq<byte>, len: nat): (c: Context)
    ensures |c| == len
  {
    if len <= |raw| then raw[..len] else raw + Zeros(len - |raw|)
  }

  // ----- entries -----

  predicate BtFits(e: BtEntry) {
    |e.ctx| <= MAX_DEPTH && e.freq < TWO32 && FitsInt32(e.ctxNext)
  }

  function EncBt(e: BtEntry): seq<byte> {
    if BtFits(e) then EncContext(e.ctx) + ([|e.ctx|, e.next, 0, 0] + (Le(e.freq, 4) + EncInt(e.ctxNext))) else []
  }

  function DecBt(s: seq<byte>): BtEntry {
    if |s| != BT_ENTRY_SIZE then BtEntry([], 0, 0, -1)
    else BtEntry(DecContext(s[..24], s[24]), s[25], FromLe(s[28..32]), DecInt(s[32..36]))
  }

  lemma BtBack(e: BtEntry)
    requires BtFits(e)
    ensures |EncBt(e)| == BT_ENTRY_SIZE && DecBt(EncBt(e)) == e
  {
    hide Le, FromLe, EncInt, DecInt, Zeros;
    WordBack(e.freq);
    IntBack(e.ctxNext);
    Slices(EncContext(e.ctx), [|e.ctx|, e.next, 0, 0], Le(e.freq, 4), EncInt(e.ctxNext));
    assert EncInt(e.ctxNext)[..4] == EncInt(e.ctxNext);
    assert EncContext(e.ctx)[..|e.ctx|] == e.ctx;
  }

  lemma Slices(a: seq<byte>, b: seq<byte>, c: seq<byte>, d: seq<byte>)
    requires |a| == 24 && |b| == |c| == 4 && |d| >= 4
    ensures var s := a + (b + (c + d));
      s[..24] == a && s[24] == b[0] && s[25] == b[1] && s[28..32] == c && s[32..36] == d[..4] && s[32..] == d
  {
  }

  predicate CtxFits(e: CtxEntry) {
    |e.ctx| <= MAX_DEPTH && e.total < TWO32 && e.unique < TWO32 && FitsInt32(e.first)
  }

  function EncCtx(e: CtxEntry): seq<byte> {
    if CtxFits(e)
    then EncContext(e.ctx) + ([|e.ctx|, 0, 0, 0] + (Le(e.total, 4) + (Le(e.unique, 4) + EncInt(e.first))))
    else []
  }

  function DecCtx(s: seq<byte>): CtxEntry {
    if |s| != CTX_ENTRY_SIZE then CtxEntry([], 0, 0, -1)
    else CtxEntry(DecContext(s[..24], s[24]), FromLe(s[28..32]), FromLe(s[32..36]), DecInt(s[36..40]))
  }

  lemma CtxBack(e: CtxEntry)
    requires CtxFits(e)
    ensures |EncCtx(e)| == CTX_ENTRY_SIZE && DecCtx(EncCtx(e)) == e
  {
    hide Le, FromLe, EncInt, DecInt, Zeros;
    WordBack(e.total);
    WordBack(e.unique);
    IntBack(e.first);
    var d := Le(e.unique, 4) + EncInt(e.first);
    Slices(EncContext(e.ctx), [|e.ctx|, 0, 0, 0], Le(e.total, 4), d);
    assert d[..4] == Le(e.unique, 4) && d[4..8] == EncInt(e.first);
    assert EncCtx(e)[36..40] == EncCtx(e)[32..][4..8];
    assert EncContext(e.ctx)[..|e.ctx|] == e.ctx;
  }

  // ----- widths and modes -----

  predicate WidthsFit(w: seq<nat>) {
    |w| == 256 && forall b :: 0 <= b < 256 ==> w[b] < 65536
  }

  function EncWidth(w: nat): (s: seq<byte>)
    ensures |s| == 2
  {
    Le(w, 2)
  }

  function EncWidths(w: seq<nat>): seq<byte> {
    if WidthsFit(w) then Elements(EncWidth, w) else []
  }

  function DecWidths(s: seq<byte>): (w: seq<nat>)
    ensures |w| == 256
  {
    if |s| == 512 then Array(FromLe, 2, s, 256) else Zeros(256)
  }

  lemma HalfWordFits(w: nat)
    requires w < 65536
    ensures Fits(w, 2)
  {
    Pow2Values();
  }

  lemma WidthsBack(w: seq<nat>)
    requires WidthsFit(w)
    ensures |EncWidths(w)| == 512 && DecWidths(EncWidths(w)) == w
  {
    forall x | x in w
      ensures |EncWidth(x)| == 2 && FromLe(EncWidth(x)) == x
    {
      HalfWordFits(x);
      LeBack(x, 2);
    }
    ArrayBack(EncWidth, FromLe, 2, w);
  }

  function EncMode(m: bool): (s: seq<byte>)
    ensures |s| == 1
  {
    if m then [1] else [0]
  }

  function DecMode(s: seq<byte>): bool {
    |s| == 1 && s[0] != 0
  }

  function Same(s: seq<byte>): seq<byte> {
    s
  }

  // ----- Bloom bits, lowest bit first -----

  function PackBits(g: seq<bool>): (x: byte)
    requires |g| == 8
  {
    var t := seq(8, k requires 0 <= k < 8 => if g[7 - k] then 1 else 0);
    ByteOfBits(t);
    Val(t)
  }

  function EncBits(g: seq<bool>): seq<byte> {
    if |g| == 8 then [PackBits(g)] else []
  }

  function DecBits(s: seq<byte>): (g: seq<bool>)
    ensures |g| == 8
  {
    if |s| == 1 then seq(8, j requires 0 <= j < 8 => ByteBits(s[0])[7 - j] == 1) else seq(8, j => false)
  }

  lemma BitsBack(g: seq<bool>)
    requires |g| == 8
    ensures |EncBits(g)| == 1 && DecBits(EncBits(g)) == g
  {
    var t: seq<bit> := seq(8, k requires 0 <= k < 8 => if g[7 - k] then 1 else 0);
    ByteOfBits(t);
    assert PackBits(g) == Val(t);
    hide ByteBits, Val;
    var r := DecBits(EncBits(g));
    forall j | 0 <= j < 8
      ensures r[j] == g[j]
    {
      assert t[7 - j] == if g[7 - (7 - j)] then 1 else 0;
    }
  }

  /** Bits in groups of eight, and back. */
  function Groups(bits: seq<bool>): (gs: seq<seq<bool>>)
    ensures |gs| == |bits| / 8 && forall i :: 0 <= i < |gs| ==> |gs[i]| == 8
  {
    seq(|bits| / 8, i requires 0 <= i < |bits| / 8 => bits[8 * i..8 * i + 8])
  }

  function Flat(gs: seq<seq<bool>>): seq<bool> {
    if gs == [] then [] else Flat(gs[..|gs| - 1]) + gs[|gs| - 1]
  }

  lemma GroupsFront(bits: seq<bool>, n: nat)
    requires |bits| == n + 8 && n % 8 == 0
    ensures Groups(bits)[..n / 8] == Groups(bits[..n]) && Groups(bits)[n / 8] == bits[n..]
  {
    forall i | 0 <= i < n / 8
      ensures Groups(bits)[i] == Groups(bits[..n])[i]
    {
      assert bits[..n][8 * i..8 * i + 8] == bits[8 * i..8 * i + 8];
    }
  }

  lemma {:induction false} FlatGroups(bits: seq<bool>)
    requires |bits| % 8 == 0
    ensures Flat(Groups(bits)) == bits
  {
    if bits != [] {
      var n := |bits| - 8;
      FlatGroups(bits[..n]);
      GroupsFront(bits, n);
      hide Groups;
      assert bits == bits[..n] + bits[n..];
    }
  }
}
