/**
 * Auxiliary channels as functions: the prior widths of a channel from the counts of a corpus, the blend of them into
 * a table by a fixed-point weight, and the chain of all channels, which always hands the coder a legal table
 * of the same total.
 */
module AuxBlend {
  import opened Words
  import opened Arith
  import opened Distribution
  import opened Symdist
  import RangeCoder

  const A_DEN := 65536
  const PMAX := 12

  // ----- blending -----

  /** A weighted mean in 65536ths. */
  function Mix(alpha: nat, a: nat, b: nat): (r: nat)
    requires alpha <= A_DEN
  {
    MixIsNat(alpha, a, A_DEN - alpha, b);
    (alpha * a + (A_DEN - alpha) * b) / A_DEN
  }

  lemma MixIsNat(alpha: nat, a: nat, beta: nat, b: nat)
    ensures (alpha * a + beta * b) / A_DEN >= 0
  {
    MulMono(0, alpha, a);
    MulMono(0, beta, b);
    DivNat(alpha * a + beta * b, A_DEN);
  }

  /** The table width, in units of the scale, mixed with a prior width. */
  function BlendWidth(w: nat, total: nat, scale: nat, alpha: nat, prior: nat): (r: nat)
    requires total > 0 && alpha <= A_DEN
  {
    DivNat(w * scale, total);
    Mix(alpha, w * scale / total, prior)
  }

  function BlendWidths(c: seq<nat>, scale: nat, alpha: nat, prior: seq<nat>): (w: seq<nat>)
    requires Monotone(c) && c[256] > 0 && alpha <= A_DEN && |prior| == 256
    ensures |w| == 256
  {
    seq(256, b requires 0 <= b < 256 => BlendWidth(c[b + 1] - c[b], c[256], scale, alpha, prior[b]))
  }

  /** The blended table, brought back to the scale; an empty table is left alone. */
  function Blended(c: seq<nat>, scale: nat, alpha: nat, prior: seq<nat>): (r: seq<nat>)
    requires Monotone(c) && alpha <= A_DEN && |prior| == 256
    ensures Monotone(r)
  {
    if c[256] == 0 then c
    else
      CumulativeMonotone(BlendWidths(c, scale, alpha, prior));
      Normalised(Cumulative(BlendWidths(c, scale, alpha, prior)), scale)
  }

  /** Whatever the prior says, a nonempty table stays nonempty, strict, and of total exactly the scale. */
  lemma BlendedStrict(c: seq<nat>, scale: nat, alpha: nat, prior: seq<nat>)
    requires Monotone(c) && c[256] > 0 && alpha <= A_DEN && |prior| == 256 && scale >= 256
    ensures Strict(Blended(c, scale, alpha, prior)) && Blended(c, scale, alpha, prior)[256] == scale
  {
    CumulativeMonotone(BlendWidths(c, scale, alpha, prior));
    NormalisedStrict(Cumulative(BlendWidths(c, scale, alpha, prior)), scale);
  }

  lemma FullMix(x: nat, scale: nat, prior: nat)
    requires scale > 0
    ensures BlendWidth(x, scale, scale, A_DEN, prior) == x
  {
    MulDiv(x, scale);
    MulDiv(x, A_DEN);
  }

  lemma FullWidths(c: seq<nat>, scale: nat, prior: seq<nat>)
    requires Monotone(c) && c[256] == scale && scale > 0 && |prior| == 256
    ensures WidthsOf(c, BlendWidths(c, scale, A_DEN, prior))
  {
    var w := BlendWidths(c, scale, A_DEN, prior);
    forall b | 0 <= b < 256
      ensures w[b] == BlendWidth(c[b + 1] - c[b], scale, scale, A_DEN, prior[b]) == c[b + 1] - c[b]
    {
      assert c[b] <= c[b + 1];
      FullMix(c[b + 1] - c[b], scale, prior[b]);
    }
  }

  /** A weight of 65536 ignores the channel. */
  lemma FullWeight(c: seq<nat>, scale: nat, prior: seq<nat>)
    requires Strict(c) && c[256] == scale > 0 && |prior| == 256
    ensures Blended(c, scale, A_DEN, prior) == c
  {
    var w := BlendWidths(c, scale, A_DEN, prior);
    FullWidths(c, scale, prior);
    hide BlendWidths, WidthsOf, Cumulative, Normalised;
    WidthsBack(c, w);
    NormalisedFixed(c, scale);
  }

  /** One channel's part in a chain: its weight and its prior widths. */
  datatype Part = Part(alpha: nat, prior: seq<nat>)

  predicate GoodParts(parts: seq<Part>) {
    forall i :: 0 <= i < |parts| ==> parts[i].alpha <= A_DEN && |parts[i].prior| == 256
  }

  /** The channels applied one after the other. */
  function Chain(c: seq<nat>, scale: nat, parts: seq<Part>): (r: seq<nat>)
    requires Monotone(c) && GoodParts(parts)
    ensures Monotone(r)
    decreases |parts|
  {
    if parts == [] then c
    else
      var front, last := parts[..|parts| - 1], parts[|parts| - 1];
      Blended(Chain(c, scale, front), scale, last.alpha, last.prior)
  }

  /** Any chain of channels keeps a table legal. */
  lemma {:induction false} ChainLegal(c: seq<nat>, scale: nat, parts: seq<Part>)
    requires Strict(c) && c[256] == scale && 256 <= scale <= RangeCoder.MAX_TOTAL && GoodParts(parts)
    ensures Strict(Chain(c, scale, parts)) && Chain(c, scale, parts)[256] == scale
    ensures RangeCoder.LegalTable(Chain(c, scale, parts))
  {
    if parts != [] {
      var front, last := parts[..|parts| - 1], parts[|parts| - 1];
      ChainLegal(c, scale, front);
      BlendedStrict(Chain(c, scale, front), scale, last.alpha, last.prior);
    }
  }

  // ----- what a channel knows: classes, contexts, counts -----

  datatype Kind = ByteType | BigramType | CasePattern | WhitespacePhase

  function ByteClass(b: byte): (t: nat)
    ensures t < 7
  {
    if b == 32 || b == 9 then 0
    else if b == 10 || b == 13 then 1
    else if 97 <= b <= 122 then 2
    else if 65 <= b <= 90 then 3
    else if 48 <= b <= 57 then 4
    else if 33 <= b <= 126 then 5
    else 6
  }

  function CaseClass(b: byte): (c: nat)
    ensures c < 3
  {
    if 97 <= b <= 122 then 0 else if 65 <= b <= 90 then 1 else 2
  }

  predicate IsSpace(b: byte) {
    b == 32 || b == 9 || b == 10 || b == 13
  }

  function Classes(kind: Kind): (n: nat)
    ensures n > 0
  {
    match kind
    case CasePattern => 3
    case WhitespacePhase => 256
    case _ => 7
  }

  function ClassOf(kind: Kind, b: byte): (c: nat)
    ensures c < Classes(kind)
  {
    match kind
    case CasePattern => CaseClass(b)
    case WhitespacePhase => b
    case _ => ByteClass(b)
  }

  function Contexts(kind: Kind): nat {
    match kind
    case ByteType => 7
    case BigramType => 49
    case CasePattern => 3
    case WhitespacePhase => PMAX + 1
  }

  /** Bytes since the last space. */
  function Phase(h: seq<byte>): nat {
    if h == [] then 0 else if IsSpace(h[|h| - 1]) then 0 else Phase(h[..|h| - 1]) + 1
  }

  /** The class of the k-th last byte; before the beginning there is blank space. */
  function Previous(kind: Kind, h: seq<byte>, k: nat): (c: nat)
    requires k > 0
    ensures c < Classes(kind)
  {
    if k <= |h| then ClassOf(kind, h[|h| - k]) else if kind == CasePattern then 2 else 0
  }

  /** How many earlier bytes a context of this kind looks at. */
  function Reach(kind: Kind): nat {
    match kind
    case BigramType => 2
    case WhitespacePhase => 0
    case _ => 1
  }

  /** The context after a history. */
  function ContextAfter(kind: Kind, h: seq<byte>): (x: nat)
    ensures x < Contexts(kind)
  {
    match kind
    case BigramType => Previous(kind, h, 2) * 7 + Previous(kind, h, 1)
    case WhitespacePhase => if Phase(h) < PMAX then Phase(h) else PMAX
    case _ => Previous(kind, h, 1)
  }

  /** The number of places of a text, by history and next byte, that pass a test. */
  function Places(text: seq<byte>, test: (seq<byte>, byte) -> bool): (n: nat)
    ensures n <= |text|
  {
    if text == [] then 0
    else
      var front, b := text[..|text| - 1], text[|text| - 1];
      Places(front, test) + if test(front, b) then 1 else 0
  }

  lemma {:induction false} FewerPlaces(text: seq<byte>, p: (seq<byte>, byte) -> bool, q: (seq<byte>, byte) -> bool)
    requires forall h, b :: p(h, b) ==> q(h, b)
    ensures Places(text, p) <= Places(text, q)
  {
    if text != [] {
      FewerPlaces(text[..|text| - 1], p, q);
    }
  }

  /** A full context x comes before the byte. */
  function InContext(kind: Kind, x: nat): (seq<byte>, byte) -> bool {
    (h: seq<byte>, b: byte) => |h| >= Reach(kind) && ContextAfter(kind, h) == x
  }

  function ClassInContext(kind: Kind, x: nat, c: nat): (seq<byte>, byte) -> bool {
    (h: seq<byte>, b: byte) => |h| >= Reach(kind) && ContextAfter(kind, h) == x && ClassOf(kind, b) == c
  }

  function InClass(kind: Kind, c: nat): (seq<byte>, byte) -> bool {
    (h: seq<byte>, b: byte) => ClassOf(kind, b) == c
  }

  function ByteInClass(kind: Kind, c: nat, d: byte): (seq<byte>, byte) -> bool {
    (h: seq<byte>, b: byte) => ClassOf(kind, b) == c && b == d
  }

  // ----- the prior -----

  /** x times part / total, rounded down. */
  function Fraction(x: nat, part: nat, total: nat): nat
    requires total > 0
  {
    DivNat(x * part, total);
    x * part / total
  }

  /** The share of a class after context x, in units of the scale. */
  function ClassWidth(kind: Kind, text: seq<byte>, x: nat, c: nat, scale: nat): nat {
    var total := Places(text, InContext(kind, x));
    if total > 0 then Fraction(scale, Places(text, ClassInContext(kind, x, c)), total) else scale / Classes(kind)
  }

  /** The share of a byte: that of its class, times its share in the class. */
  function PriorWidth(kind: Kind, text: seq<byte>, x: nat, b: byte, scale: nat): nat {
    var c := ClassOf(kind, b);
    var share := ClassWidth(kind, text, x, c, scale);
    if kind == WhitespacePhase then share
    else
      var total := Places(text, InClass(kind, c));
      if total > 0 then Fraction(share, Places(text, ByteInClass(kind, c, b)), total) else 0
  }

  function PriorWidths(kind: Kind, text: seq<byte>, x: nat, scale: nat): (w: seq<nat>)
    ensures |w| == 256
  {
    seq(256, b requires 0 <= b < 256 => PriorWidth(kind, text, x, b, scale))
  }

  lemma ShareBound(scale: nat, part: nat, total: nat)
    requires part <= total && total > 0
    ensures Fraction(scale, part, total) <= scale
  {
    MulMono(part, total, scale);
    DivMono(scale * part, scale * total, total);
    MulDiv(scale, total);
  }

  /** No prior width exceeds the scale, so the 32-bit words that hold it never overflow. */
  lemma PriorWidthBound(kind: Kind, text: seq<byte>, x: nat, b: byte, scale: nat)
    ensures PriorWidth(kind, text, x, b, scale) <= scale
  {
    var c := ClassOf(kind, b);
    FewerPlaces(text, ClassInContext(kind, x, c), InContext(kind, x));
    FewerPlaces(text, ByteInClass(kind, c, b), InClass(kind, c));
    var total := Places(text, InContext(kind, x));
    if total > 0 {
      ShareBound(scale, Places(text, ClassInContext(kind, x, c)), total);
    }
    var share, all := ClassWidth(kind, text, x, c, scale), Places(text, InClass(kind, c));
    assert share <= scale;
    hide Fraction, Places;
    if all > 0 {
      ShareBound(share, Places(text, ByteInClass(kind, c, b)), all);
    }
  }
}
