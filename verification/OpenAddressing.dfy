/** Linear probing over slots that hold indices into a key pool, for any hash function. */
module OpenAddressing {

  /** Cyclic distance from slot a forward to slot b. */
  function Dist(a: nat, b: nat, n: nat): int {
    if b >= a then b - a else b - a + n
  }

  function Next(h: nat, n: nat): nat {
    if h + 1 == n then 0 else h + 1
  }

  function Home<K>(hash: K -> nat, k: K, n: nat): (h: nat)
    requires n > 0
    ensures h < n
  {
    hash(k) % n
  }

  ghost predicate InRange<K>(slots: seq<int>, keys: seq<K>) {
    forall x :: 0 <= x < |slots| ==> slots[x] < |keys|
  }

  ghost predicate HasEmpty(slots: seq<int>) {
    exists e :: 0 <= e < |slots| && slots[e] < 0
  }

  /** The index a probe from slot h finds within n steps, or -1. */
  ghost function Probe<K>(slots: seq<int>, keys: seq<K>, k: K, h: nat, n: nat): int
    requires h < |slots| && InRange(slots, keys)
    decreases n
  {
    if n == 0 || slots[h] < 0 then -1
    else if keys[slots[h]] == k then slots[h]
    else Probe(slots, keys, k, Next(h, |slots|), n - 1)
  }

  /** The index a full probe finds for key k. */
  ghost function Find<K>(slots: seq<int>, keys: seq<K>, hash: K -> nat, k: K): int
    requires |slots| > 0 && InRange(slots, keys)
  {
    Probe(slots, keys, k, Home(hash, k, |slots|), |slots|)
  }

  /** Every slot strictly before h on the way from home is taken by another key. */
  ghost predicate Passed<K>(slots: seq<int>, keys: seq<K>, k: K, home: nat, h: nat)
    requires InRange(slots, keys)
  {
    forall x :: 0 <= x < |slots| && Dist(home, x, |slots|) < Dist(home, h, |slots|)
      ==> slots[x] >= 0 && keys[slots[x]] != k
  }

  /** A probe for k ends at slot e: it is empty or holds the key. */
  ghost predicate StopsAt<K>(slots: seq<int>, keys: seq<K>, k: K, e: nat)
    requires InRange(slots, keys)
  {
    e < |slots| && (slots[e] < 0 || keys[slots[e]] == k)
  }

  /** A slot taken by another key is passed, and a slot where the probe ends is still ahead. */
  lemma PassOne<K>(slots: seq<int>, keys: seq<K>, k: K, home: nat, h: nat, e: nat)
    requires InRange(slots, keys) && home < |slots| && h < |slots| && StopsAt(slots, keys, k, e)
    requires Passed(slots, keys, k, home, h) && slots[h] >= 0 && keys[slots[h]] != k
    ensures Next(h, |slots|) < |slots| && Passed(slots, keys, k, home, Next(h, |slots|))
    ensures Dist(home, Next(h, |slots|), |slots|) == Dist(home, h, |slots|) + 1 <= |slots| - 1
  {
    assert Dist(home, h, |slots|) < Dist(home, e, |slots|);
  }

  /**
   * The probing loop.  It ends at slot h, holding index s >= 0 with key k, or empty.  One empty
   * slot anywhere makes it terminate.
   */
  method Seek<K(==)>(slots: seq<int>, keys: seq<K>, hash: K -> nat, k: K) returns (h: nat, s: int)
    requires |slots| > 0 && InRange(slots, keys) && HasEmpty(slots)
    ensures h < |slots| && Passed(slots, keys, k, Home(hash, k, |slots|), h)
    ensures if slots[h] < 0 then s == -1 else s == slots[h] && keys[s] == k
    ensures s == Find(slots, keys, hash, k)
  {
    var n := |slots|;
    ghost var home := Home(hash, k, n);
    h := Home(hash, k, n);
    ghost var e :| 0 <= e < n && slots[e] < 0;
    hide Home;
    while true
      invariant h < n && Passed(slots, keys, k, home, h)
      invariant Probe(slots, keys, k, h, n - Dist(home, h, n)) == Find(slots, keys, hash, k)
      decreases n - Dist(home, h, n)
    {
      if slots[h] < 0 {
        return h, -1;
      }
      if keys[slots[h]] == k {
        return h, slots[h];
      }
      PassOne(slots, keys, k, home, h, e);
      hide Passed;
      h := Next(h, n);
    }
  }

  /**
   * The slots index the keys: key i sits in slot pos[i], every taken slot is some pos[i], no empty
   * slot lies between a key's home and its slot, and equal keys are met in the order of their indices.
   */
  ghost predicate Indexed<K(!new)>(slots: seq<int>, keys: seq<K>, hash: K -> nat, pos: seq<nat>) {
    && |slots| > 0 && |pos| == |keys|
    && (forall x :: 0 <= x < |slots| && slots[x] >= 0 ==> slots[x] < |keys| && pos[slots[x]] == x)
    && (forall i :: 0 <= i < |keys| ==> pos[i] < |slots| && slots[pos[i]] == i)
    && (forall i, x :: 0 <= i < |keys| && 0 <= x < |slots|
          && Dist(Home(hash, keys[i], |slots|), x, |slots|) < Dist(Home(hash, keys[i], |slots|), pos[i], |slots|)
          ==> slots[x] >= 0)
    && (forall i, j :: 0 <= i < j < |keys| && keys[i] == keys[j]
          ==> Dist(Home(hash, keys[i], |slots|), pos[i], |slots|) < Dist(Home(hash, keys[i], |slots|), pos[j], |slots|))
  }

  /** Lookup agrees with a linear scan: the smallest index with the key, or -1 exactly when there is none. */
  ghost predicate IsFirst<K(!new)>(keys: seq<K>, k: K, s: int) {
    && -1 <= s < |keys|
    && (s == -1 ==> k !in keys)
    && (s >= 0 ==> keys[s] == k && forall i :: 0 <= i < s ==> keys[i] != k)
  }

  lemma SeekIsFirst<K(!new)>(slots: seq<int>, keys: seq<K>, hash: K -> nat, pos: seq<nat>, k: K, h: nat, s: int)
    requires Indexed(slots, keys, hash, pos) && InRange(slots, keys)
    requires h < |slots| && Passed(slots, keys, k, Home(hash, k, |slots|), h)
    requires if slots[h] < 0 then s == -1 else s == slots[h] && keys[s] == k
    ensures IsFirst(keys, k, s)
  {
    var home := Home(hash, k, |slots|);
    if s == -1 {
      forall i | 0 <= i < |keys|
        ensures keys[i] != k
      {
        assert slots[pos[i]] == i;
        assert Dist(home, pos[i], |slots|) != Dist(home, h, |slots|);
      }
    } else {
      assert pos[s] == h;
      forall i | 0 <= i < s
        ensures keys[i] != k
      {
        assert slots[pos[i]] == i;
      }
    }
  }

  /** Placing a new key in the first empty slot on its way keeps the index. */
  lemma InsertIndexed<K(!new)>(slots: seq<int>, keys: seq<K>, hash: K -> nat, pos: seq<nat>, k: K, h: nat)
    requires Indexed(slots, keys, hash, pos)
    requires h < |slots| && slots[h] < 0
    requires forall x ::
      0 <= x < |slots| && Dist(Home(hash, k, |slots|), x, |slots|) < Dist(Home(hash, k, |slots|), h, |slots|)
      ==> slots[x] >= 0
    ensures Indexed(slots[h := |keys|], keys + [k], hash, pos + [h])
  {
    var slots', keys', pos' := slots[h := |keys|], keys + [k], pos + [h];
    var n := |slots|;
    assert |slots'| == n;
    forall i, j | 0 <= i < j < |keys'| && keys'[i] == keys'[j]
      ensures Dist(Home(hash, keys'[i], n), pos'[i], n) < Dist(Home(hash, keys'[i], n), pos'[j], n)
    {
      if j == |keys| {
        var home := Home(hash, k, n);
        assert keys[i] == k && slots[pos[i]] == i;
        assert slots[h] < 0;
        assert Dist(home, pos[i], n) <= Dist(home, h, n);
      }
    }
  }

  /** As long as there are more slots than keys, some slot is empty. */
  lemma EmptyExists<K(!new)>(slots: seq<int>, keys: seq<K>, hash: K -> nat, pos: seq<nat>)
    requires Indexed(slots, keys, hash, pos) && |keys| < |slots|
    ensures HasEmpty(slots) && InRange(slots, keys)
  {
    if !HasEmpty(slots) {
      forall i, j | 0 <= i < j < |slots|
        ensures slots[i] != slots[j]
      {
        assert pos[slots[i]] == i && pos[slots[j]] == j;
      }
      Pigeonhole(slots, |keys|);
    }
  }

  lemma {:induction false} Pigeonhole(f: seq<int>, n: nat)
    requires forall i :: 0 <= i < |f| ==> 0 <= f[i] < n
    requires forall i, j :: 0 <= i < j < |f| ==> f[i] != f[j]
    ensures |f| <= n
    decreases n
  {
    if |f| > 0 {
      assert f[0] < n;
      if j :| 0 <= j < |f| && f[j] == n - 1 {
        var g := f[..j] + f[j + 1..];
        assert forall i :: 0 <= i < |g| ==> g[i] == f[if i < j then i else i + 1];
        Pigeonhole(g, n - 1);
      } else {
        Pigeonhole(f, n - 1);
      }
    }
  }

  lemma EmptyIndexed<K(!new)>(slots: seq<int>, hash: K -> nat)
    requires |slots| > 0 && forall x :: 0 <= x < |slots| ==> slots[x] < 0
    ensures Indexed(slots, [], hash, [])
  {
  }

  /** The first empty slot from a key's home, passing over any taken slot. */
  method FirstEmpty<K(!new)>(slots: seq<int>, hash: K -> nat, k: K) returns (h: nat)
    requires |slots| > 0 && HasEmpty(slots)
    ensures h < |slots| && slots[h] < 0
    ensures forall x ::
      0 <= x < |slots| && Dist(Home(hash, k, |slots|), x, |slots|) < Dist(Home(hash, k, |slots|), h, |slots|)
      ==> slots[x] >= 0
  {
    var n := |slots|;
    ghost var home := Home(hash, k, n);
    ghost var e :| 0 <= e < n && slots[e] < 0;
    h := Home(hash, k, n);
    while slots[h] >= 0
      invariant h < n
      invariant forall x :: 0 <= x < n && Dist(home, x, n) < Dist(home, h, n) ==> slots[x] >= 0
      decreases n - Dist(home, h, n)
    {
      assert slots[e] < 0;
      assert Dist(home, h, n) <= Dist(home, e, n);
      h := Next(h, n);
    }
  }

  /** Clears n slots and places every key again, in the order of the indices. */
  method Rehash<K(!new)>(keys: seq<K>, hash: K -> nat, n: nat) returns (slots: seq<int>, ghost pos: seq<nat>)
    requires |keys| < n
    ensures |slots| == n && Indexed(slots, keys, hash, pos)
  {
    hide Home;
    slots := seq(n, _ => -1);
    pos := [];
    EmptyIndexed(slots, hash);
    for i := 0 to |keys|
      invariant |slots| == n && Indexed(slots, keys[..i], hash, pos)
    {
      EmptyExists(slots, keys[..i], hash, pos);
      var h := FirstEmpty(slots, hash, keys[i]);
      InsertIndexed(slots, keys[..i], hash, pos, keys[i], h);
      assert keys[..i + 1] == keys[..i] + [keys[i]];
      slots := slots[h := i];
      pos := pos + [h];
    }
    assert keys[..|keys|] == keys;
  }
}
