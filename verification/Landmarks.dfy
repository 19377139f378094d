/** The in-memory index over a prior's landmark contexts, which may contain duplicates. */
module Landmarks {
  import opened Words
  import opened Occurrences
  import opened OpenAddressing
  import opened Bitwise
  import BtTrain

  /** A linear scan: the smallest index holding c, or -1. */
  function Scan(ctxs: seq<Context>, c: Context): (i: int)
    ensures -1 <= i < |ctxs|
  {
    if ctxs == [] then -1
    else
      var i := Scan(ctxs[..|ctxs| - 1], c);
      if i >= 0 then i else if ctxs[|ctxs| - 1] == c then |ctxs| - 1 else -1
  }

  lemma {:induction false} ScanIsFirst(ctxs: seq<Context>, c: Context)
    ensures IsFirst(ctxs, c, Scan(ctxs, c))
  {
    if ctxs != [] {
      ScanIsFirst(ctxs[..|ctxs| - 1], c);
      assert ctxs == ctxs[..|ctxs| - 1] + [ctxs[|ctxs| - 1]];
    }
  }

  lemma FirstUnique(ctxs: seq<Context>, c: Context, i: int, j: int)
    requires IsFirst(ctxs, c, i) && IsFirst(ctxs, c, j)
    ensures i == j
  {
  }

  /** The contexts that an int can number: slots hold ints, and a negative one means that the slot is empty. */
  function Numbered(ctxs: seq<Context>): (n: seq<Context>)
    ensures |n| <= |ctxs| && |n| <= BtTrain.INT_COUNT
  {
    if |ctxs| <= BtTrain.INT_COUNT then ctxs else ctxs[..BtTrain.INT_COUNT]
  }

  /** The smallest index with the context, as far as ints go. */
  function First(ctxs: seq<Context>, c: Context): (i: int)
    ensures -1 <= i < |ctxs|
  {
    Scan(Numbered(ctxs), c)
  }

  /** The slots of a built index: a power of two of them, at most half taken. */
  ghost predicate IndexOf(slots: seq<int>, ctxs: seq<Context>, hash: Context -> nat) {
    if ctxs == [] then slots == []
    else IsPow2(|slots|) && 2 * |ctxs| <= |slots| && exists pos :: Indexed(slots, Numbered(ctxs), hash, pos)
  }

  /** The index over a 32-bit number of contexts. */
  method BuildIndex(ctxs: seq<Context>, hash: Context -> nat) returns (slots: seq<int>)
    requires |ctxs| < TWO32
    ensures IndexOf(slots, ctxs, hash)
  {
    if |ctxs| == 0 {
      return [];
    }
    var ns := 1;
    while ns < 2 * |ctxs|
      invariant ns >= 1 && IsPow2(ns)
      decreases 2 * |ctxs| - ns
    {
      BtTrain.TwicePow2(ns);
      ns := ns * 2;
    }
    hide IsPow2;
    slots := seq(ns, _ => -1);
    ghost var pos: seq<nat> := [];
    EmptyIndexed(slots, hash);
    for k := 0 to |ctxs|
      invariant |slots| == ns && Indexed(slots, Numbered(ctxs[..k]), hash, pos)
    {
      slots, pos := PlaceOne(ctxs, hash, slots, pos, k);
    }
    assert ctxs[..|ctxs|] == ctxs;
  }

  /** Writes the number of context k, converted to an int, into the first slot that looks empty. */
  method PlaceOne(ctxs: seq<Context>, hash: Context -> nat, slots0: seq<int>, ghost pos0: seq<nat>, k: nat)
    returns (slots: seq<int>, ghost pos: seq<nat>)
    requires k < |ctxs| < TWO32 && 2 * |ctxs| <= |slots0| && Indexed(slots0, Numbered(ctxs[..k]), hash, pos0)
    ensures |slots| == |slots0| && Indexed(slots, Numbered(ctxs[..k + 1]), hash, pos)
  {
    ghost var keys := Numbered(ctxs[..k]);
    NumberedNext(ctxs, k);
    hide Indexed, Home, Dist, Numbered, IsPow2;
    EmptyExists(slots0, keys, hash, pos0);
    var h := FirstEmpty(slots0, hash, ctxs[k]);
    slots := slots0[h := Signed(k)];
    if k < BtTrain.INT_COUNT {
      InsertIndexed(slots0, keys, hash, pos0, ctxs[k], h);
      pos := pos0 + [h];
    } else {
      StillEmpty(slots0, keys, hash, pos0, h, Signed(k));
      pos := pos0;
    }
  }

  /** Only contexts that an int can number count. */
  lemma NumberedNext(ctxs: seq<Context>, k: nat)
    requires k < |ctxs|
    ensures var keys := Numbered(ctxs[..k]);
      if k < BtTrain.INT_COUNT then |keys| == k && Numbered(ctxs[..k + 1]) == keys + [ctxs[k]]
      else Numbered(ctxs[..k + 1]) == keys
  {
  }

  /** One negative number in an empty slot is as good as another. */
  lemma StillEmpty(slots: seq<int>, keys: seq<Context>, hash: Context -> nat, pos: seq<nat>, h: nat, v: int)
    requires Indexed(slots, keys, hash, pos) && h < |slots| && slots[h] < 0 && v < 0
    ensures Indexed(slots[h := v], keys, hash, pos)
  {
    hide Home;
    assert forall i :: 0 <= i < |keys| ==> slots[pos[i]] == i;
  }

  /** Lookup through the index agrees with the linear scan, as far as ints go. */
  method Lookup(slots: seq<int>, ctxs: seq<Context>, hash: Context -> nat, c: Context) returns (i: int)
    requires IndexOf(slots, ctxs, hash)
    ensures i == First(ctxs, c)
  {
    if |ctxs| == 0 {
      return -1;
    }
    var keys := Numbered(ctxs);
    ghost var pos :| Indexed(slots, keys, hash, pos);
    EmptyExists(slots, keys, hash, pos);
    var h;
    h, i := Seek(slots, keys, hash, c);
    SeekIsFirst(slots, keys, hash, pos, c, h, i);
    ScanIsFirst(keys, c);
    FirstUnique(keys, c, i, Scan(keys, c));
  }
}
