/** How a prior file is laid out: a header and sections, each section starting at a multiple of eight. */
module ImageLayout {
  import opened Words
  import opened Arith

  /** The next multiple of eight: seven added, the low three bits cleared. */
  function Align8(x: nat): (r: nat)
    ensures x <= r < x + 8 && r % 8 == 0
  {
    x + 7 - (x + 7) % 8
  }

  function Zeros(n: nat): (s: seq<byte>)
    ensures |s| == n
  {
    seq(n, i => 0)
  }

  /** Where section i starts. */
  function OffsetOf(head: nat, sizes: seq<nat>, i: nat): (off: nat)
    requires i <= |sizes|
    ensures off % 8 == 0 && head <= off
  {
    if i == 0 then Align8(head) else Align8(OffsetOf(head, sizes, i - 1) + sizes[i - 1])
  }

  /** The bytes of the first n sections behind the header, with the padding between them. */
  function Laid(head: seq<byte>, sections: seq<seq<byte>>, n: nat): (s: seq<byte>)
    requires n <= |sections|
  {
    if n == 0 then head
    else
      var front := Laid(head, sections, n - 1);
      front + Zeros(Align8(|front|) - |front|) + sections[n - 1]
  }

  function Sizes(sections: seq<seq<byte>>): (sizes: seq<nat>)
    ensures |sizes| == |sections|
  {
    seq(|sections|, i requires 0 <= i < |sections| => |sections[i]|)
  }

  lemma {:induction false} LaidLength(head: seq<byte>, sections: seq<seq<byte>>, n: nat)
    requires n <= |sections|
    ensures Align8(|Laid(head, sections, n)|) == OffsetOf(|head|, Sizes(sections), n)
    ensures n > 0 ==> |Laid(head, sections, n)| == OffsetOf(|head|, Sizes(sections), n - 1) + |sections[n - 1]|
  {
    hide Align8;
    if n > 0 {
      LaidLength(head, sections, n - 1);
      assert Sizes(sections)[n - 1] == |sections[n - 1]|;
    }
  }

  lemma {:induction false} LaidPrefix(head: seq<byte>, sections: seq<seq<byte>>, m: nat, n: nat)
    requires m <= n <= |sections|
    ensures Laid(head, sections, m) <= Laid(head, sections, n)
    decreases n
  {
    if m < n {
      LaidPrefix(head, sections, m, n - 1);
    }
  }

  lemma LaidStep(head: seq<byte>, sections: seq<seq<byte>>, i: nat)
    requires i < |sections|
    ensures var front, off := Laid(head, sections, i), OffsetOf(|head|, Sizes(sections), i);
      |front| <= off && Laid(head, sections, i + 1) == front + Zeros(off - |front|) + sections[i]
  {
    hide OffsetOf;
    LaidLength(head, sections, i);
  }

  /** Every section is found at its offset. */
  lemma SectionFound(head: seq<byte>, sections: seq<seq<byte>>, i: nat)
    requires i < |sections|
    ensures var off := OffsetOf(|head|, Sizes(sections), i); var image := Laid(head, sections, |sections|);
      off + |sections[i]| <= |image| && image[off..off + |sections[i]|] == sections[i]
  {
    hide *;
    LaidStep(head, sections, i);
    LaidPrefix(head, sections, i + 1, |sections|);
    var off, front := OffsetOf(|head|, Sizes(sections), i), Laid(head, sections, i);
    FoundInPrefix(front + Zeros(off - |front|), sections[i], Laid(head, sections, |sections|));
  }

  lemma FoundInPrefix(a: seq<byte>, b: seq<byte>, s: seq<byte>)
    requires a + b <= s
    ensures |a| + |b| <= |s| && s[|a|..|a| + |b|] == b
  {
    assert s[..|a| + |b|] == a + b;
    assert s[|a|..|a| + |b|] == s[..|a| + |b|][|a|..];
  }

  lemma HeadFound(head: seq<byte>, sections: seq<seq<byte>>)
    ensures head <= Laid(head, sections, |sections|)
  {
    LaidPrefix(head, sections, 0, |sections|);
  }

  /** Sections come in order and do not overlap. */
  lemma {:induction false} SectionsApart(head: nat, sizes: seq<nat>, i: nat, j: nat)
    requires i < j <= |sizes|
    ensures OffsetOf(head, sizes, i) + sizes[i] <= OffsetOf(head, sizes, j)
    decreases j
  {
    if i + 1 < j {
      SectionsApart(head, sizes, i, j - 1);
    }
  }

  /**
   * When the last section is a multiple of eight long, the end of the file is the aligned end, without more
   * padding.
   */
  lemma LengthIsFileSize(head: seq<byte>, sections: seq<seq<byte>>)
    requires sections != [] && |sections[|sections| - 1]| % 8 == 0
    ensures |Laid(head, sections, |sections|)| == OffsetOf(|head|, Sizes(sections), |sections|)
  {
    LaidLength(head, sections, |sections|);
    var n := |sections| - 1;
    AlignedStays(OffsetOf(|head|, Sizes(sections), n), |sections[n]|);
  }

  lemma AlignedStays(a: nat, b: nat)
    requires a % 8 == 0 && b % 8 == 0
    ensures Align8(a + b) == a + b
  {
  }

  // ----- writing -----

  /** Writes zeros, at most eight at a time, up to the target. */
  method PadTo(out0: seq<byte>, target: nat) returns (out: seq<byte>)
    ensures out == if |out0| < target then out0 + Zeros(target - |out0|) else out0
  {
    out := out0;
    while |out| < target
      invariant |out0| <= |out| <= target || out == out0
      invariant |out0| <= target ==> out == out0 + Zeros(|out| - |out0|)
    {
      var n := if target - |out| > 8 then 8 else target - |out|;
      assert Zeros(|out| - |out0|) + Zeros(n) == Zeros(|out| + n - |out0|);
      out := out + Zeros(n);
    }
  }

  /** Pads to the section's offset and writes it. */
  method WriteSection(out0: seq<byte>, off: nat, ghost head: seq<byte>, sections: seq<seq<byte>>, i: nat)
    returns (out: seq<byte>)
    requires i < |sections| && out0 == Laid(head, sections, i) && off == OffsetOf(|head|, Sizes(sections), i)
    ensures out == Laid(head, sections, i + 1)
  {
    LaidStep(head, sections, i);
    assert Zeros(0) == [] && out0 + [] == out0;
    hide *;
    out := PadTo(out0, off);
    out := out + sections[i];
  }

  // ----- bounds checks -----

  /** The check that off + n does not pass the end, without computing the sum. */
  predicate RegionInBounds(off: uint64, n: uint64, len: uint64) {
    off <= len && n <= len - off
  }

  /** The product, unless it leaves 64 bits. */
  function Product(a: uint64, b: uint64): (r: (bool, uint64)) {
    if a != 0 && b > (TWO64 - 1) / a then (false, 0) else (true, U64(a * b))
  }

  /** The two checks together say exactly that count elements of a size fit, in exact arithmetic. */
  lemma RegionExact(off: uint64, count: uint64, size: uint64, len: uint64)
    ensures Product(count, size).0 && RegionInBounds(off, Product(count, size).1, len) <==> off + count * size <= len
  {
    ProductExact(count, size);
  }

  lemma ProductExact(a: uint64, b: uint64)
    ensures Product(a, b).0 <==> a * b < TWO64
    ensures Product(a, b).0 ==> Product(a, b).1 == a * b
    ensures a * b >= 0
  {
    QuotientTest(a, b, TWO64 - 1);
  }

  lemma QuotientTest(a: nat, b: nat, n: nat)
    ensures a * b >= 0
    ensures a != 0 ==> (b > n / a <==> a * b > n)
  {
    MulMono(0, a, b);
    if a != 0 {
      assert b * a == a * b;
      if a * b <= n {
        DivAtLeast(b, n, a);
      } else {
        DivBelow(b, n, a);
      }
    }
  }
}
