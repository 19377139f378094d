/**
 * Auxiliary channels as mutable objects: counts learned from a corpus, a position that follows the bytes, and
 * the blend of the current context's prior into a table in place.  All four kinds share one class; a chain of
 * channels adjusts the table one after the other and always leaves it legal.
 */
module AuxChannel {
  import opened Words
  import opened Distribution
  import opened Symdist
  import opened AuxBlend
  import RangeCoder

  lemma PlacesStep(h: seq<byte>, b: byte, test: (seq<byte>, byte) -> bool)
    ensures Places(h + [b], test) == Places(h, test) + if test(h, b) then 1 else 0
  {
    assert (h + [b])[..|h|] == h;
  }

  lemma PhaseStep(h: seq<byte>, b: byte)
    ensures Phase(h + [b]) == if IsSpace(b) then 0 else Phase(h) + 1
  {
    assert (h + [b])[..|h|] == h;
  }

  class Channel {
    const kind: Kind
    const alpha: nat
    const trans: array2<nat>
    const transTot: array<nat>
    const bytecnt: array2<nat>
    const clsTot: array<nat>
    var prev1: nat
    var prev2: nat
    var phase: nat
    ghost var text: seq<byte>      // the corpus
    ghost var seen: seq<byte>      // the corpus and the message so far

    ghost function Repr(): set<object> {
      {this, trans, transTot, bytecnt, clsTot}
    }

    ghost predicate Wired() {
      && alpha <= A_DEN
      && trans.Length0 == transTot.Length == Contexts(kind) && trans.Length1 == Classes(kind)
      && bytecnt.Length0 == clsTot.Length == Classes(kind) && bytecnt.Length1 == 256
      && transTot != clsTot && trans != bytecnt
    }

    /** How often each class followed each context. */
    ghost predicate ContextsCounted(h: seq<byte>)
      requires Wired()
      reads trans, transTot
    {
      && (forall x :: 0 <= x < Contexts(kind) ==> transTot[x] == Places(h, InContext(kind, x)))
      && (forall x, c :: 0 <= x < Contexts(kind) && 0 <= c < Classes(kind) ==>
            trans[x, c] == Places(h, ClassInContext(kind, x, c)))
    }

    /** How often each byte occurred in its class; the whitespace channel has no use for it. */
    ghost predicate ClassesCounted(h: seq<byte>)
      requires Wired()
      reads bytecnt, clsTot
    {
      kind != WhitespacePhase ==>
        && (forall c :: 0 <= c < Classes(kind) ==> clsTot[c] == Places(h, InClass(kind, c)))
        && (forall c, b: byte :: 0 <= c < Classes(kind) ==> bytecnt[c, b] == Places(h, ByteInClass(kind, c, b)))
    }

    ghost predicate Following(h: seq<byte>)
      reads this
    {
      if kind == WhitespacePhase then phase == Phase(h)
      else prev1 == Previous(kind, h, 1) && (kind == BigramType ==> prev2 == Previous(kind, h, 2))
    }

    ghost predicate Valid()
      reads this, trans, transTot, bytecnt, clsTot
    {
      Wired() && ContextsCounted(text) && ClassesCounted(text) && Following(seen)
    }

    constructor (kind: Kind, alpha: nat)
      requires alpha <= A_DEN
      ensures Valid() && this.kind == kind && this.alpha == alpha && text == [] && seen == []
      ensures fresh(trans) && fresh(transTot) && fresh(bytecnt) && fresh(clsTot)
    {
      this.kind, this.alpha := kind, alpha;
      trans, transTot := new nat[Contexts(kind), Classes(kind)]((x, c) => 0), new nat[Contexts(kind)](x => 0);
      bytecnt, clsTot := new nat[Classes(kind), 256]((c, b) => 0), new nat[Classes(kind)](c => 0);
      prev1, prev2, phase := if kind == CasePattern then 2 else 0, 0, 0;
      text, seen := [], [];
    }

    /** Forgets counts and position. */
    method Reset()
      requires Wired()
      modifies this, trans, transTot, bytecnt, clsTot
      ensures Valid() && text == [] && seen == []
    {
      forall x, c | 0 <= x < trans.Length0 && 0 <= c < trans.Length1 {
        trans[x, c] := 0;
      }
      forall x | 0 <= x < transTot.Length {
        transTot[x] := 0;
      }
      forall c, b | 0 <= c < bytecnt.Length0 && 0 <= b < bytecnt.Length1 {
        bytecnt[c, b] := 0;
      }
      forall c | 0 <= c < clsTot.Length {
        clsTot[c] := 0;
      }
      prev1, prev2, phase := if kind == CasePattern then 2 else 0, 0, 0;
      text, seen := [], [];
    }

    /** One byte of the message: only the position moves. */
    method Observe(b: byte)
      requires Valid()
      modifies `prev1, `prev2, `phase, `seen
      ensures Valid() && seen == old(seen) + [b]
    {
      PhaseStep(seen, b);
      match kind {
        case BigramType =>
          prev2 := prev1;
          prev1 := ClassOf(kind, b);
        case WhitespacePhase =>
          phase := if IsSpace(b) then 0 else phase + 1;
        case _ =>
          prev1 := ClassOf(kind, b);
      }
      seen := seen + [b];
    }

    /** Recounts everything from a corpus and stands at its end. */
    method Learn(corpus: seq<byte>)
      requires Wired()
      modifies this, trans, transTot, bytecnt, clsTot
      ensures Valid() && text == corpus && seen == corpus
    {
      Reset();
      var p2: int, p1: int, ph: nat := -1, -1, 0;
      assert corpus[..0] == [] && corpus[..|corpus|] == corpus;
      for i := 0 to |corpus|
        invariant ContextsCounted(corpus[..i]) && ClassesCounted(corpus[..i])
        invariant Tracked(corpus[..i], p2, p1, ph)
      {
        hide *;
        assert corpus[..i + 1] == corpus[..i] + [corpus[i]];
        p2, p1, ph := LearnByte(corpus[..i], corpus[i], p2, p1, ph);
      }
      SetPosition(corpus, ph);
    }

    method SetPosition(corpus: seq<byte>, ph: nat)
      requires ph == Phase(corpus)
      modifies `prev1, `prev2, `phase, `text, `seen
      ensures text == corpus && seen == corpus && Following(corpus)
    {
      var start := if kind == CasePattern then 2 else 0;
      prev1 := if |corpus| >= 1 then ClassOf(kind, corpus[|corpus| - 1]) else start;
      prev2 := if |corpus| >= 2 then ClassOf(kind, corpus[|corpus| - 2]) else start;
      phase := ph;
      text, seen := corpus, corpus;
    }

    method LearnByte(ghost h: seq<byte>, b: byte, p2: int, p1: int, ph: nat) returns (q2: int, q1: int, qh: nat)
      requires Wired() && ContextsCounted(h) && ClassesCounted(h) && Tracked(h, p2, p1, ph)
      modifies trans, transTot, bytecnt, clsTot
      ensures ContextsCounted(h + [b]) && ClassesCounted(h + [b]) && Tracked(h + [b], q2, q1, qh)
    {
      PhaseStep(h, b);
      q2, q1, qh := p1, ClassOf(kind, b), if IsSpace(b) then 0 else ph + 1;
      assert Tracked(h + [b], q2, q1, qh);
      hide ContextsCounted, ClassesCounted, Tracked;
      var full, x := LearnContext(h, p2, p1, ph);
      CountContext(h, b, full, x);
      CountClass(h, b);
    }

    /** The two last classes, -1 before the beginning, and the phase. */
    ghost predicate Tracked(h: seq<byte>, p2: int, p1: int, ph: nat) {
      && p1 == (if |h| >= 1 then ClassOf(kind, h[|h| - 1]) else -1)
      && p2 == (if |h| >= 2 then ClassOf(kind, h[|h| - 2]) else -1)
      && ph == Phase(h)
    }

    method LearnContext(ghost h: seq<byte>, p2: int, p1: int, ph: nat) returns (full: bool, x: nat)
      requires Tracked(h, p2, p1, ph)
      ensures full == (|h| >= Reach(kind)) && (full ==> x == ContextAfter(kind, h))
    {
      match kind
      case BigramType =>
        full := p2 >= 0 && p1 >= 0;
        x := if full then p2 * 7 + p1 else 0;
      case WhitespacePhase =>
        full, x := true, if ph < PMAX then ph else PMAX;
      case _ =>
        full, x := p1 >= 0, if p1 >= 0 then p1 else 0;
    }

    method CountContext(ghost h: seq<byte>, b: byte, full: bool, x: nat)
      requires Wired() && ContextsCounted(h)
      requires full == (|h| >= Reach(kind)) && (full ==> x == ContextAfter(kind, h))
      modifies trans, transTot
      ensures ContextsCounted(h + [b])
    {
      var c0 := ClassOf(kind, b);
      if full {
        trans[x, c0] := trans[x, c0] + 1;
        transTot[x] := transTot[x] + 1;
      }
      forall y | 0 <= y < Contexts(kind)
        ensures transTot[y] == Places(h + [b], InContext(kind, y))
      {
        PlacesStep(h, b, InContext(kind, y));
      }
      forall y, c | 0 <= y < Contexts(kind) && 0 <= c < Classes(kind)
        ensures trans[y, c] == Places(h + [b], ClassInContext(kind, y, c))
      {
        PlacesStep(h, b, ClassInContext(kind, y, c));
      }
    }

    method CountClass(ghost h: seq<byte>, b: byte)
      requires Wired() && ClassesCounted(h)
      modifies bytecnt, clsTot
      ensures ClassesCounted(h + [b])
    {
      if kind != WhitespacePhase {
        var c0 := ClassOf(kind, b);
        bytecnt[c0, b] := bytecnt[c0, b] + 1;
        clsTot[c0] := clsTot[c0] + 1;
        forall c | 0 <= c < Classes(kind)
          ensures clsTot[c] == Places(h + [b], InClass(kind, c))
        {
          PlacesStep(h, b, InClass(kind, c));
        }
        forall c, d: byte | 0 <= c < Classes(kind)
          ensures bytecnt[c, d] == Places(h + [b], ByteInClass(kind, c, d))
        {
          PlacesStep(h, b, ByteInClass(kind, c, d));
        }
      }
    }

    // ----- adjusting a table -----

    method Context() returns (x: nat)
      requires Valid()
      ensures x == ContextAfter(kind, seen) && x < Contexts(kind)
    {
      match kind
      case BigramType => x := prev2 * 7 + prev1;
      case WhitespacePhase => x := if phase < PMAX then phase else PMAX;
      case _ => x := prev1;
    }

    /** The prior of the current context. */
    method Prior(scale: nat) returns (prior: seq<nat>)
      requires Valid()
      ensures prior == PriorWidths(kind, text, ContextAfter(kind, seen), scale)
    {
      var x := Context();
      var shares := Shares(x, scale);
      prior := [];
      for b := 0 to 256
        invariant |prior| == b
        invariant forall d :: 0 <= d < b ==> prior[d] == PriorWidth(kind, text, x, d, scale)
      {
        var w := PriorOf(x, b, shares, scale);
        prior := prior + [w];
      }
    }

    method Shares(x: nat, scale: nat) returns (shares: seq<nat>)
      requires Valid() && x < Contexts(kind)
      ensures |shares| == Classes(kind)
      ensures forall c :: 0 <= c < |shares| ==> shares[c] == ClassWidth(kind, text, x, c, scale)
    {
      shares := [];
      for c := 0 to Classes(kind)
        invariant |shares| == c
        invariant forall d :: 0 <= d < c ==> shares[d] == ClassWidth(kind, text, x, d, scale)
      {
        var w := ShareOf(x, c, scale);
        shares := shares + [w];
      }
    }

    method ShareOf(x: nat, c: nat, scale: nat) returns (w: nat)
      requires Valid() && x < Contexts(kind) && c < Classes(kind)
      ensures w == ClassWidth(kind, text, x, c, scale)
    {
      w := if transTot[x] > 0 then Fraction(scale, trans[x, c], transTot[x]) else scale / Classes(kind);
    }

    method PriorOf(x: nat, b: byte, shares: seq<nat>, scale: nat) returns (w: nat)
      requires Valid() && |shares| == Classes(kind)
      requires forall c :: 0 <= c < |shares| ==> shares[c] == ClassWidth(kind, text, x, c, scale)
      ensures w == PriorWidth(kind, text, x, b, scale)
    {
      var c := ClassOf(kind, b);
      w := if kind == WhitespacePhase then shares[c]
           else if clsTot[c] > 0 then Fraction(shares[c], bytecnt[c, b], clsTot[c]) else 0;
    }

    /** What the channel contributes now: it depends on its kind, its weight, the corpus and the message so far. */
    ghost function PartNow(scale: nat): Part
      reads this
    {
      Part(alpha, PriorWidths(kind, text, ContextAfter(kind, seen), scale))
    }

    /** Blends the prior of the current context into the table. */
    method Adjust(cum: array<nat>, scale: nat)
      requires Valid() && Monotone(cum[..]) && cum != transTot && cum != clsTot
      modifies cum
      ensures Valid()
      ensures cum[..] == Blended(old(cum[..]), scale, alpha, PriorWidths(kind, text, ContextAfter(kind, seen), scale))
    {
      var prior := Prior(scale);
      BlendInto(cum, scale, alpha, prior);
    }
  }

  method BlendInto(cum: array<nat>, scale: nat, alpha: nat, prior: seq<nat>)
    requires Monotone(cum[..]) && alpha <= A_DEN && |prior| == 256
    modifies cum
    ensures cum[..] == Blended(old(cum[..]), scale, alpha, prior)
  {
    var total := cum[256];
    if total == 0 {
      return;
    }
    var w := WidthsOfBlend(cum, total, scale, alpha, prior);
    CumulativeMonotone(w[..]);
    hide Cumulative, Normalised, Total, BlendWidths, Monotone;
    Symdist.Rebuild(cum, w);
    Symdist.Normalize(cum, scale);
  }

  method WidthsOfBlend(cum: array<nat>, total: nat, scale: nat, alpha: nat, prior: seq<nat>) returns (w: array<nat>)
    requires Monotone(cum[..]) && cum[256] == total > 0 && alpha <= A_DEN && |prior| == 256
    ensures fresh(w) && w[..] == BlendWidths(cum[..], scale, alpha, prior)
  {
    ghost var c := cum[..];
    ghost var goal := BlendWidths(c, scale, alpha, prior);
    w := new nat[256];
    hide *;
    for b := 0 to 256
      invariant cum[..] == c && forall k :: 0 <= k < b ==> w[k] == goal[k]
    {
      var nw := OneWidth(cum, total, scale, alpha, prior, b);
      w[b] := nw;
    }
    assert w[..] == goal;
  }

  method OneWidth(cum: array<nat>, total: nat, scale: nat, alpha: nat, prior: seq<nat>, b: nat) returns (nw: nat)
    requires Monotone(cum[..]) && cum[256] == total > 0 && alpha <= A_DEN && |prior| == 256 && b < 256
    ensures nw == BlendWidths(cum[..], scale, alpha, prior)[b]
  {
    WidthAt(cum[..], scale, alpha, prior, b);
    hide *;
    nw := BlendWidth(cum[b + 1] - cum[b], total, scale, alpha, prior[b]);
  }

  lemma WidthAt(c: seq<nat>, scale: nat, alpha: nat, prior: seq<nat>, b: nat)
    requires Monotone(c) && c[256] > 0 && alpha <= A_DEN && |prior| == 256 && b < 256
    ensures |c| == 257 && c[b] <= c[b + 1]
    ensures BlendWidths(c, scale, alpha, prior)[b] == BlendWidth(c[b + 1] - c[b], c[256], scale, alpha, prior[b])
  {
    hide BlendWidth;
  }

  // ----- several channels in a row -----

  ghost function Frame(chs: seq<Channel>): set<object> {
    set ch, o | ch in chs && o in ch.Repr() :: o
  }

  lemma InFrame(chs: seq<Channel>, i: nat)
    requires i < |chs|
    ensures var c := chs[i]; var f := Frame(chs);
      c in f && c.trans in f && c.transTot in f && c.bytecnt in f && c.clsTot in f
  {
    var c := chs[i];
    assert c in chs;
    assert c in c.Repr() && c.trans in c.Repr() && c.transTot in c.Repr();
    assert c.bytecnt in c.Repr() && c.clsTot in c.Repr();
  }

  ghost predicate AllValid(chs: seq<Channel>)
    reads Frame(chs)
  {
    && (forall i :: 0 <= i < |chs| ==> (InFrame(chs, i); chs[i].Valid()))
    && (forall i, j :: 0 <= i < j < |chs| ==> chs[i] != chs[j])
  }

  ghost function Parts(chs: seq<Channel>, n: nat, scale: nat): (p: seq<Part>)
    requires n <= |chs| && AllValid(chs)
    reads Frame(chs)
    ensures |p| == n && GoodParts(p)
  {
    if n == 0 then []
    else
      InFrame(chs, n - 1);
      Parts(chs, n - 1, scale) + [chs[n - 1].PartNow(scale)]
  }

  lemma {:induction false} PartsNow(chs: seq<Channel>, n: nat, scale: nat)
    requires n <= |chs| && AllValid(chs)
    ensures forall k :: 0 <= k < n ==> chs[k].PartNow(scale) == Parts(chs, n, scale)[k]
  {
    if n > 0 {
      PartsNow(chs, n - 1, scale);
    }
  }

  lemma {:induction false} PartsAre(chs: seq<Channel>, n: nat, scale: nat, parts: seq<Part>)
    requires n <= |chs| == |parts| && AllValid(chs)
    requires forall k :: 0 <= k < |chs| ==> chs[k].PartNow(scale) == parts[k]
    ensures Parts(chs, n, scale) == parts[..n]
  {
    if n > 0 {
      PartsAre(chs, n - 1, scale, parts);
    }
  }

  lemma ChainStep(parts: seq<Part>, i: nat, scale: nat, c: seq<nat>)
    requires GoodParts(parts) && i < |parts| && Monotone(c)
    ensures Chain(c, scale, parts[..i + 1])
         == Blended(Chain(c, scale, parts[..i]), scale, parts[i].alpha, parts[i].prior)
  {
    assert parts[..i + 1][..i] == parts[..i];
  }

  /** Each channel blends into what the ones before it left. */
  method AdjustAll(chs: seq<Channel>, cum: array<nat>, scale: nat)
    requires AllValid(chs) && cum !in Frame(chs) && Monotone(cum[..])
    modifies cum
    ensures AllValid(chs) && cum[..] == Chain(old(cum[..]), scale, Parts(chs, |chs|, scale))
  {
    ghost var c := cum[..];
    ghost var parts := Parts(chs, |chs|, scale);
    PartsNow(chs, |chs|, scale);
    assert parts[..|chs|] == parts;
    hide AllValid, Parts, Frame, Blended;
    for i := 0 to |chs|
      invariant AllValid(chs) && forall k :: 0 <= k < |chs| ==> chs[k].PartNow(scale) == parts[k]
      invariant cum[..] == Chain(c, scale, parts[..i])
    {
      ChainStep(parts, i, scale, c);
      AdjustOne(chs, i, cum, scale);
    }
    PartsAre(chs, |chs|, scale, parts);
  }

  method AdjustOne(chs: seq<Channel>, i: nat, cum: array<nat>, scale: nat)
    requires i < |chs| && AllValid(chs) && cum !in Frame(chs) && Monotone(cum[..])
    modifies cum
    ensures AllValid(chs)
    ensures var part := old(chs[i].PartNow(scale));
      part.alpha <= A_DEN && |part.prior| == 256 && cum[..] == Blended(old(cum[..]), scale, part.alpha, part.prior)
  {
    InFrame(chs, i);
    ghost var ch := chs[i];
    assert ch.Valid() && ch.Wired();
    hide AllValid, Parts, Frame, Blended, Channel.Valid, Channel.Wired;
    chs[i].Adjust(cum, scale);
  }

  /** The table handed to the coder: the context model's, normalised, then adjusted by the channels. */
  method AuxDist(cum: array<nat>, scale: nat, chs: seq<Channel>)
    requires AllValid(chs) && cum !in Frame(chs) && Monotone(cum[..]) && 256 <= scale <= RangeCoder.MAX_TOTAL
    modifies cum
    ensures AllValid(chs)
    ensures cum[..] == Chain(Normalised(old(cum[..]), scale), scale, Parts(chs, |chs|, scale))
    ensures RangeCoder.LegalTable(cum[..]) && cum[256] == scale
  {
    NormalisedStrict(cum[..], scale);
    ghost var n := Normalised(cum[..], scale);
    Symdist.Normalize(cum, scale);
    AdjustAll(chs, cum, scale);
    ChainLegal(n, scale, Parts(chs, |chs|, scale));
  }

  /** Every channel sees every byte of the message once. */
  method ObserveAll(chs: seq<Channel>, b: byte)
    requires AllValid(chs)
    modifies set ch | ch in chs :: ch
    ensures AllValid(chs)
    ensures forall i :: 0 <= i < |chs| ==> chs[i].seen == old(chs[i].seen) + [b] && chs[i].text == old(chs[i].text)
  {
    for i := 0 to |chs|
      invariant AllValid(chs)
      invariant forall j :: 0 <= j < |chs| ==> chs[j].text == old(chs[j].text)
      invariant forall j :: 0 <= j < i ==> chs[j].seen == old(chs[j].seen) + [b]
      invariant forall j :: i <= j < |chs| ==> chs[j].seen == old(chs[j].seen)
    {
      assert chs[i] in chs;
      chs[i].Observe(b);
    }
  }
}
