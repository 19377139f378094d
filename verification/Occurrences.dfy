/** The specification of training: counts over the observations, which are the substring counts of the text. */
module Occurrences {
  import opened Words

  const MAX_DEPTH := 24

  type Context = seq<byte>

  /** One observation: next followed the context. */
  datatype Update = Update(ctx: Context, next: byte)

  function Count(seen: seq<Update>, c: Context, x: byte): nat {
    if seen == [] then 0
    else Count(seen[..|seen| - 1], c, x) + (if seen[|seen| - 1] == Update(c, x) then 1 else 0)
  }

  function CountContext(seen: seq<Update>, c: Context): nat {
    if seen == [] then 0
    else CountContext(seen[..|seen| - 1], c) + (if seen[|seen| - 1].ctx == c then 1 else 0)
  }

  lemma CountAppend(seen: seq<Update>, u: Update, c: Context, x: byte)
    ensures Count(seen + [u], c, x) == Count(seen, c, x) + (if u == Update(c, x) then 1 else 0)
    ensures CountContext(seen + [u], c) == CountContext(seen, c) + (if u.ctx == c then 1 else 0)
  {
    assert (seen + [u])[..|seen|] == seen;
  }

  /** A byte was counted exactly when it was seen. */
  lemma {:induction false} CountSeen(seen: seq<Update>, c: Context, x: byte)
    ensures Count(seen, c, x) > 0 <==> Update(c, x) in seen
    ensures Count(seen, c, x) <= CountContext(seen, c)
  {
    if seen != [] {
      CountSeen(seen[..|seen| - 1], c, x);
    }
  }

  /** Sum of the counts of the bytes below k. */
  function SumCounts(seen: seq<Update>, c: Context, k: nat): nat
    requires k <= 256
  {
    if k == 0 then 0 else SumCounts(seen, c, k - 1) + Count(seen, c, k - 1)
  }

  /** The counts of the 256 bytes after a context add up to the count of the context. */
  lemma {:induction false} CountsAddUp(seen: seq<Update>, c: Context)
    ensures SumCounts(seen, c, 256) == CountContext(seen, c)
  {
    if seen == [] {
      SumEmpty(c, 256);
    } else {
      var front, u := seen[..|seen| - 1], seen[|seen| - 1];
      CountsAddUp(front, c);
      SumAppend(front, u, c, 256);
      assert front + [u] == seen;
    }
  }

  lemma {:induction false} SumEmpty(c: Context, k: nat)
    requires k <= 256
    ensures SumCounts([], c, k) == 0
  {
    if k > 0 {
      SumEmpty(c, k - 1);
    }
  }

  lemma {:induction false} SumAppend(seen: seq<Update>, u: Update, c: Context, k: nat)
    requires k <= 256
    ensures SumCounts(seen + [u], c, k) == SumCounts(seen, c, k) + (if u.ctx == c && u.next < k then 1 else 0)
  {
    if k > 0 {
      SumAppend(seen, u, c, k - 1);
      CountAppend(seen, u, c, k - 1);
    }
  }

  // ----- texts -----

  /** The last 24 bytes of a text, or all of it. */
  function WindowOf(text: seq<byte>): (w: seq<byte>)
    ensures |w| <= MAX_DEPTH
  {
    if |text| <= MAX_DEPTH then text else text[|text| - MAX_DEPTH..]
  }

  /** A window moved on by one byte. */
  function Push(w: seq<byte>, b: byte): (r: seq<byte>)
    requires |w| <= MAX_DEPTH
    ensures |r| <= MAX_DEPTH
  {
    if |w| < MAX_DEPTH then w + [b] else w[1..] + [b]
  }

  lemma WindowPush(text: seq<byte>, b: byte)
    ensures WindowOf(text + [b]) == Push(WindowOf(text), b)
  {
  }

  /** The updates for byte b after window w: one for each suffix of w up to length k. */
  function SuffixUpdates(w: seq<byte>, b: byte, k: nat): seq<Update>
    requires k <= |w|
  {
    if k == 0 then [] else SuffixUpdates(w, b, k - 1) + [Update(w[|w| - k..], b)]
  }

  /** All updates that training on a text makes. */
  function TextUpdates(text: seq<byte>): seq<Update> {
    if text == [] then []
    else
      var front, b := text[..|text| - 1], text[|text| - 1];
      TextUpdates(front) + SuffixUpdates(WindowOf(front), b, |WindowOf(front)|)
  }

  /** c ends at the end of text. */
  predicate EndsWith(text: seq<byte>, c: Context) {
    |c| <= |text| && text[|text| - |c|..] == c
  }

  /** How many times x directly follows an occurrence of c in text. */
  function Occurs(text: seq<byte>, c: Context, x: byte): nat {
    if text == [] then 0
    else
      var front := text[..|text| - 1];
      Occurs(front, c, x) + (if EndsWith(front, c) && text[|text| - 1] == x then 1 else 0)
  }

  lemma {:induction false} CountSuffixes(seen: seq<Update>, w: seq<byte>, b: byte, k: nat, c: Context, x: byte)
    requires k <= |w|
    ensures Count(seen + SuffixUpdates(w, b, k), c, x)
         == Count(seen, c, x) + (if 1 <= |c| <= k && EndsWith(w, c) && b == x then 1 else 0)
  {
    if k == 0 {
      assert seen + SuffixUpdates(w, b, 0) == seen;
    } else {
      var u := Update(w[|w| - k..], b);
      CountSuffixes(seen, w, b, k - 1, c, x);
      assert seen + SuffixUpdates(w, b, k) == (seen + SuffixUpdates(w, b, k - 1)) + [u];
      CountAppend(seen + SuffixUpdates(w, b, k - 1), u, c, x);
    }
  }

  /** The updates made by training on a text count its substrings. */
  lemma {:induction false} UpdatesCountSubstrings(text: seq<byte>, c: Context, x: byte)
    requires 1 <= |c| <= MAX_DEPTH
    ensures Count(TextUpdates(text), c, x) == Occurs(text, c, x)
  {
    if text != [] {
      var front, b := text[..|text| - 1], text[|text| - 1];
      var w := WindowOf(front);
      UpdatesCountSubstrings(front, c, x);
      CountSuffixes(TextUpdates(front), w, b, |w|, c, x);
      assert EndsWith(w, c) <==> EndsWith(front, c);
    }
  }
}
