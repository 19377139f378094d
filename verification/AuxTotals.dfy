/** The prior widths of an auxiliary channel are shares of one scale: together they never exceed it. */
module AuxTotals {
  import opened Words
  import opened Arith
  import opened Distribution
  import opened DistributionBounds
  import opened AuxBlend

  // ----- sums -----

  function Sum(f: nat -> nat, n: nat): nat {
    if n == 0 then 0 else Sum(f, n - 1) + f(n - 1)
  }

  lemma {:induction false} SumAtMost(f: nat -> nat, g: nat -> nat, n: nat)
    requires forall k: nat :: k < n ==> f(k) <= g(k)
    ensures Sum(f, n) <= Sum(g, n)
  {
    if n > 0 {
      SumAtMost(f, g, n - 1);
    }
  }

  lemma {:induction false} SumAdds(f: nat -> nat, g: nat -> nat, h: nat -> nat, n: nat)
    requires forall k: nat :: k < n ==> h(k) == f(k) + g(k)
    ensures Sum(h, n) == Sum(f, n) + Sum(g, n)
  {
    if n > 0 {
      SumAdds(f, g, h, n - 1);
    }
  }

  /** Only one term is not zero. */
  lemma {:induction false} SumOfOne(f: nat -> nat, j: nat, n: nat)
    requires forall k: nat :: k < n && k != j ==> f(k) == 0
    ensures Sum(f, n) == if j < n then f(j) else 0
  {
    if n > 0 {
      SumOfOne(f, j, n - 1);
    }
  }

  lemma {:induction false} SumHas(f: nat -> nat, j: nat, n: nat)
    requires j < n
    ensures f(j) <= Sum(f, n)
  {
    if j < n - 1 {
      SumHas(f, j, n - 1);
    }
  }

  function Column(w: (nat, nat) -> nat, b: nat): nat -> nat {
    (c: nat) => w(c, b)
  }

  function ColumnSums(w: (nat, nat) -> nat, m: nat): nat -> nat {
    (b: nat) => Sum(Column(w, b), m)
  }

  function Row(w: (nat, nat) -> nat, c: nat): nat -> nat {
    (b: nat) => w(c, b)
  }

  function RowSums(w: (nat, nat) -> nat, n: nat): nat -> nat {
    (c: nat) => Sum(Row(w, c), n)
  }

  /** Row by row or column by column. */
  lemma {:induction false} SumsSwap(w: (nat, nat) -> nat, m: nat, n: nat)
    ensures Sum(ColumnSums(w, m), n) == Sum(RowSums(w, n), m)
  {
    if n > 0 {
      SumsSwap(w, m, n - 1);
      SumAdds(RowSums(w, n - 1), Column(w, n - 1), RowSums(w, n), m);
    } else {
      SumOfZeros(RowSums(w, 0), m);
    }
  }

  lemma {:induction false} SumOfZeros(f: nat -> nat, n: nat)
    requires forall k: nat :: k < n ==> f(k) == 0
    ensures Sum(f, n) == 0
  {
    if n > 0 {
      SumOfZeros(f, n - 1);
    }
  }

  /** Shares of x by parts of a total, each rounded down, do not exceed x. */
  lemma {:induction false} SharesWithin(x: nat, part: nat -> nat, total: nat, f: nat -> nat, n: nat)
    requires total > 0 && forall k: nat :: k < n ==> f(k) == Fraction(x, part(k), total)
    ensures Sum(f, n) * total <= x * Sum(part, n)
  {
    if n > 0 {
      SharesWithin(x, part, total, f, n - 1);
      DivBounds(x * part(n - 1), total);
      AddShare(Sum(f, n - 1), f(n - 1), total, x, Sum(part, n - 1), part(n - 1));
    }
  }

  lemma AddShare(s: nat, q: nat, total: nat, x: nat, parts: nat, part: nat)
    requires s * total <= x * parts && q * total <= x * part
    ensures (s + q) * total <= x * (parts + part)
  {
  }

  // ----- counts -----

  function TestCount(text: seq<byte>, q: nat -> (seq<byte>, byte) -> bool): nat -> nat {
    (k: nat) => Places(text, q(k))
  }

  /** Test k accepts the places that p accepts and whose byte selects k. */
  ghost predicate Selects(p: (seq<byte>, byte) -> bool, q: nat -> (seq<byte>, byte) -> bool, sel: byte -> nat, n: nat) {
    && (forall b: byte :: sel(b) < n)
    && forall k: nat, h: seq<byte>, b: byte {:trigger q(k)(h, b)} :: q(k)(h, b) <==> p(h, b) && k == sel(b)
  }

  /** Every place that passes p passes exactly one of n tests, the one that its byte selects. */
  lemma {:induction false} PlacesSplit(text: seq<byte>, p: (seq<byte>, byte) -> bool,
                                       q: nat -> (seq<byte>, byte) -> bool, sel: byte -> nat, n: nat)
    requires Selects(p, q, sel, n)
    ensures Sum(TestCount(text, q), n) == Places(text, p)
  {
    if text == [] {
      forall k: nat | k < n
        ensures TestCount(text, q)(k) == 0
      {
        assert Places(text, q(k)) == 0;
      }
      SumOfZeros(TestCount(text, q), n);
    } else {
      var front, b := text[..|text| - 1], text[|text| - 1];
      PlacesSplit(front, p, q, sel, n);
      var here := (k: nat) => if q(k)(front, b) then 1 else 0;
      SumAdds(TestCount(front, q), here, TestCount(text, q), n);
      SumOfOne(here, sel(b), n);
    }
  }

  lemma {:induction false} SumSame(f: nat -> nat, g: nat -> nat, n: nat)
    requires forall k: nat :: k < n ==> f(k) == g(k)
    ensures Sum(f, n) == Sum(g, n)
  {
    if n > 0 {
      SumSame(f, g, n - 1);
    }
  }

  /** How often byte d was seen, as one of class c. */
  function ByteCount(kind: Kind, text: seq<byte>, c: nat): nat -> nat {
    (d: nat) => if d < 256 then Places(text, ByteInClass(kind, c, d)) else 0
  }

  function ByteTest(kind: Kind, c: nat): nat -> (seq<byte>, byte) -> bool {
    (d: nat) => (h: seq<byte>, b: byte) => ClassOf(kind, b) == c && b == d
  }

  function ByteItself(): byte -> nat {
    (b: byte) => b
  }

  lemma BytesOfClass(kind: Kind, text: seq<byte>, c: nat)
    ensures Sum(ByteCount(kind, text, c), 256) == Places(text, InClass(kind, c))
  {
    var q := ByteTest(kind, c);
    PlacesSplit(text, InClass(kind, c), q, ByteItself(), 256);
    forall d: nat | d < 256
      ensures ByteCount(kind, text, c)(d) == TestCount(text, q)(d)
    {
      FewerPlaces(text, ByteInClass(kind, c, d), q(d));
      FewerPlaces(text, q(d), ByteInClass(kind, c, d));
    }
    SumSame(ByteCount(kind, text, c), TestCount(text, q), 256);
  }

  /** How often class c followed context x. */
  function ClassTest(kind: Kind, x: nat): nat -> (seq<byte>, byte) -> bool {
    (c: nat) => ClassInContext(kind, x, c)
  }

  function ClassItself(kind: Kind): byte -> nat {
    (b: byte) => ClassOf(kind, b)
  }

  lemma ClassesOfContext(kind: Kind, text: seq<byte>, x: nat)
    ensures Sum(TestCount(text, ClassTest(kind, x)), Classes(kind)) == Places(text, InContext(kind, x))
  {
    PlacesSplit(text, InContext(kind, x), ClassTest(kind, x), ClassItself(kind), Classes(kind));
  }

  // ----- shares -----

  function ClassShares(kind: Kind, text: seq<byte>, x: nat, scale: nat): nat -> nat {
    (c: nat) => ClassWidth(kind, text, x, c, scale)
  }

  /** The shares of the classes together. */
  lemma ClassTotal(kind: Kind, text: seq<byte>, x: nat, scale: nat)
    ensures Sum(ClassShares(kind, text, x, scale), Classes(kind)) <= scale
  {
    var total, n := Places(text, InContext(kind, x)), Classes(kind);
    if total > 0 {
      ClassesOfContext(kind, text, x);
      SharesWithin(scale, TestCount(text, ClassTest(kind, x)), total, ClassShares(kind, text, x, scale), n);
      MulCancel(Sum(ClassShares(kind, text, x, scale), n), scale, total);
    } else {
      SumOfSame(ClassShares(kind, text, x, scale), scale / n, n);
      DivBounds(scale, n);
    }
  }

  lemma {:induction false} SumOfSame(f: nat -> nat, x: nat, n: nat)
    requires forall k: nat :: k < n ==> f(k) == x
    ensures Sum(f, n) == x * n
  {
    if n > 0 {
      SumOfSame(f, x, n - 1);
      assert x * n == x * (n - 1) + x;
    }
  }

  /** What class c gives byte b: nothing if b is of another class. */
  function Given(kind: Kind, text: seq<byte>, x: nat, scale: nat, c: nat, b: nat): nat {
    var share := ClassWidth(kind, text, x, c, scale);
    if kind == WhitespacePhase then if b == c then share else 0
    else
      var total := Places(text, InClass(kind, c));
      if total > 0 then Fraction(share, ByteCount(kind, text, c)(b), total) else 0
  }

  function GivenBy(kind: Kind, text: seq<byte>, x: nat, scale: nat): (nat, nat) -> nat {
    (c: nat, b: nat) => Given(kind, text, x, scale, c, b)
  }

  function FromClass(kind: Kind, text: seq<byte>, x: nat, scale: nat, c: nat): nat -> nat {
    (b: nat) => Given(kind, text, x, scale, c, b)
  }

  /** A class gives its bytes no more than its own share. */
  lemma ClassGives(kind: Kind, text: seq<byte>, x: nat, scale: nat, c: nat)
    ensures Sum(FromClass(kind, text, x, scale, c), 256) <= ClassWidth(kind, text, x, c, scale)
  {
    var share, f := ClassWidth(kind, text, x, c, scale), FromClass(kind, text, x, scale, c);
    var total := Places(text, InClass(kind, c));
    if kind == WhitespacePhase {
      SumOfOne(f, c, 256);
    } else if total > 0 {
      BytesOfClass(kind, text, c);
      SharesWithin(share, ByteCount(kind, text, c), total, f, 256);
      MulCancel(Sum(f, 256), share, total);
    } else {
      SumOfZeros(f, 256);
    }
  }

  lemma WidthIsGiven(kind: Kind, text: seq<byte>, x: nat, scale: nat, b: byte)
    ensures PriorWidth(kind, text, x, b, scale) == Given(kind, text, x, scale, ClassOf(kind, b), b)
  {
  }

  function WidthOf(w: seq<nat>): nat -> nat {
    (b: nat) => if b < |w| then w[b] else 0
  }

  lemma {:induction false} TotalIsSum(w: seq<nat>, n: nat)
    requires n <= |w|
    ensures Total(w[..n]) == Sum(WidthOf(w), n)
  {
    if n > 0 {
      TotalIsSum(w, n - 1);
      TotalStep(w, n - 1);
    }
  }

  lemma WidthFromClasses(kind: Kind, text: seq<byte>, x: nat, scale: nat, b: byte)
    ensures var g := GivenBy(kind, text, x, scale);
      WidthOf(PriorWidths(kind, text, x, scale))(b) <= ColumnSums(g, Classes(kind))(b)
  {
    var g := GivenBy(kind, text, x, scale);
    WidthIsGiven(kind, text, x, scale, b);
    assert Column(g, b)(ClassOf(kind, b)) == Given(kind, text, x, scale, ClassOf(kind, b), b);
    assert WidthOf(PriorWidths(kind, text, x, scale))(b) == PriorWidth(kind, text, x, b, scale);
    hide Given, PriorWidth, Sum;
    SumHas(Column(g, b), ClassOf(kind, b), Classes(kind));
  }

  lemma RowWithin(kind: Kind, text: seq<byte>, x: nat, scale: nat, c: nat)
    ensures RowSums(GivenBy(kind, text, x, scale), 256)(c) <= ClassShares(kind, text, x, scale)(c)
  {
    hide Given, ClassWidth, Sum;
    ClassGives(kind, text, x, scale, c);
    SumSame(Row(GivenBy(kind, text, x, scale), c), FromClass(kind, text, x, scale, c), 256);
  }

  lemma WholeTotal(w: seq<nat>)
    requires |w| == 256
    ensures Total(w) == Sum(WidthOf(w), 256)
  {
    TotalIsSum(w, 256);
    assert w[..256] == w;
  }

  /** The sums over the bytes, column by column, and over the classes, row by row. */
  lemma WidthsFromClasses(kind: Kind, text: seq<byte>, x: nat, scale: nat)
    ensures var g := GivenBy(kind, text, x, scale);
      Sum(WidthOf(PriorWidths(kind, text, x, scale)), 256) <= Sum(ColumnSums(g, Classes(kind)), 256)
  {
    hide *;
    var w, f := WidthOf(PriorWidths(kind, text, x, scale)), ColumnSums(GivenBy(kind, text, x, scale), Classes(kind));
    forall b: nat | b < 256
      ensures w(b) <= f(b)
    {
      WidthFromClasses(kind, text, x, scale, b);
    }
    SumAtMost(w, f, 256);
  }

  lemma ClassesWithin(kind: Kind, text: seq<byte>, x: nat, scale: nat)
    ensures Sum(RowSums(GivenBy(kind, text, x, scale), 256), Classes(kind)) <= scale
  {
    hide *;
    var f, h := RowSums(GivenBy(kind, text, x, scale), 256), ClassShares(kind, text, x, scale);
    forall c: nat | c < Classes(kind)
      ensures f(c) <= h(c)
    {
      RowWithin(kind, text, x, scale, c);
    }
    SumAtMost(f, h, Classes(kind));
    ClassTotal(kind, text, x, scale);
  }

  /** Whatever the corpus and the context, the prior widths of all bytes together stay within the scale. */
  lemma PriorWithinScale(kind: Kind, text: seq<byte>, x: nat, scale: nat)
    ensures Total(PriorWidths(kind, text, x, scale)) <= scale
  {
    hide *;
    WholeTotal(PriorWidths(kind, text, x, scale));
    WidthsFromClasses(kind, text, x, scale);
    SumsSwap(GivenBy(kind, text, x, scale), Classes(kind), 256);
    ClassesWithin(kind, text, x, scale);
  }

  /**
   * Within rounding a byte's width is the scale times how often its class followed the context, times how often it
   * was the byte of its class; in the phase kind every byte is its own class.
   */
  lemma PriorIsShare(kind: Kind, text: seq<byte>, x: nat, b: byte, scale: nat)
    requires Places(text, InContext(kind, x)) > 0 && Places(text, InClass(kind, ClassOf(kind, b))) > 0
    ensures var w, c := PriorWidth(kind, text, x, b, scale), ClassOf(kind, b);
      var t, n := Places(text, InContext(kind, x)), Places(text, ClassInContext(kind, x, c));
      var a, m := Places(text, InClass(kind, c)), Places(text, ByteInClass(kind, c, b));
      if kind == WhitespacePhase then w * t <= scale * n < (w + 1) * t
      else w * (a * t) <= scale * n * m < (w + 1) * (a * t) + m * t
  {
    var w, c := PriorWidth(kind, text, x, b, scale), ClassOf(kind, b);
    var t, n := Places(text, InContext(kind, x)), Places(text, ClassInContext(kind, x, c));
    var a, m := Places(text, InClass(kind, c)), Places(text, ByteInClass(kind, c, b));
    var share := ClassWidth(kind, text, x, c, scale);
    ClassWidthIs(kind, text, x, c, scale);
    PriorWidthIs(kind, text, x, b, scale);
    hide *;
    if kind != WhitespacePhase {
      TwoShares(scale * n, t, share, m, a, w);
    }
  }

  lemma FractionIs(x: nat, part: nat, total: nat)
    requires total > 0
    ensures var q := Fraction(x, part, total);
      q * total <= x * part < q * total + total && x * part < (q + 1) * total
  {
    DivBounds(x * part, total);
    assert (Fraction(x, part, total) + 1) * total == Fraction(x, part, total) * total + total;
  }

  lemma ClassWidthIs(kind: Kind, text: seq<byte>, x: nat, c: nat, scale: nat)
    requires Places(text, InContext(kind, x)) > 0
    ensures var w, t := ClassWidth(kind, text, x, c, scale), Places(text, InContext(kind, x));
      var n := Places(text, ClassInContext(kind, x, c));
      w * t <= scale * n < w * t + t && scale * n < (w + 1) * t
  {
    var t, n := Places(text, InContext(kind, x)), Places(text, ClassInContext(kind, x, c));
    assert ClassWidth(kind, text, x, c, scale) == Fraction(scale, n, t);
    hide *;
    FractionIs(scale, n, t);
  }

  lemma PriorWidthIs(kind: Kind, text: seq<byte>, x: nat, b: byte, scale: nat)
    requires Places(text, InClass(kind, ClassOf(kind, b))) > 0
    ensures var w, c := PriorWidth(kind, text, x, b, scale), ClassOf(kind, b);
      var share := ClassWidth(kind, text, x, c, scale);
      var a, m := Places(text, InClass(kind, c)), Places(text, ByteInClass(kind, c, b));
      if kind == WhitespacePhase then w == share else w * a <= share * m < w * a + a
  {
    var c := ClassOf(kind, b);
    var share := ClassWidth(kind, text, x, c, scale);
    var a, m := Places(text, InClass(kind, c)), Places(text, ByteInClass(kind, c, b));
    assert PriorWidth(kind, text, x, b, scale) == if kind == WhitespacePhase then share else Fraction(share, m, a);
    hide *;
    FractionIs(share, m, a);
  }

  lemma TwoShares(x: nat, t: nat, share: nat, m: nat, a: nat, w: nat)
    requires share * t <= x < share * t + t && w * a <= share * m < w * a + a && t > 0
    ensures w * (a * t) <= x * m < (w + 1) * (a * t) + m * t
  {
    MulMono(w * a, share * m, t);
    MulMono(share * m + 1, w * a + a, t);
    MulMono(share * t, x, m);
    MulMono(x, share * t + t, m);
    assert w * a * t == w * (a * t) && (w * a + a) * t == (w + 1) * (a * t);
    assert share * t * m == share * m * t && (share * t + t) * m == share * m * t + m * t;
  }
}
