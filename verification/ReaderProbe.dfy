module ReaderProbe {
  // The reader's probe: a 32-bit index into a slot table of any power-of-two size, and exactly when it ends.

  import opened Words
  import opened Arith
  import opened Bitwise
  import opened OpenAddressing

  /** How many of n slots a 32-bit index reaches. */
  function Reach(n: nat): (r: nat)
    ensures r <= n && r <= TWO32 && (n > 0 ==> r > 0)
  {
    if n < TWO32 then n else TWO32
  }

  /** The slots a reader can see. */
  function Reached(slots: seq<int>): (r: seq<int>)
    ensures |r| == Reach(|slots|)
  {
    slots[..Reach(|slots|)]
  }

  // ----- the words of the probe -----

  lemma {:induction false} AndAtMost(a: nat, b: nat)
    ensures And(a, b) <= a && And(a, b) <= b
  {
    if a > 0 && b > 0 {
      AndAtMost(a / 2, b / 2);
      var p, q := a % 2, b % 2;
      assert p == 0 || p == 1;
      assert q == 0 || q == 1;
    }
  }

  /** A word masked to a table of n slots. */
  function Masked(x: nat, n: nat): (h: uint32)
    requires n > 0
    ensures h < n
  {
    AndAtMost(U32(x), n - 1);
    And(U32(x), n - 1)
  }

  /** The slot that the probe of a hash looks at after k steps. */
  function ProbeAt(hash: nat, n: nat, k: nat): (h: uint32)
    requires n > 0
    ensures h < n
  {
    if k == 0 then Masked(hash, n) else Masked(ProbeAt(hash, n, k - 1) + 1, n)
  }

  /** A power of two divides every larger one. */
  lemma {:induction false} Pow2Divides(n: nat, k: nat)
    requires IsPow2(n)
    ensures n >= Pow2(k) || exists m: nat :: m > 0 && Pow2(k) == m * n
    decreases n
  {
    if n == 1 {
      assert Pow2(k) == Pow2(k) * n;
    } else if k > 0 {
      Pow2Divides(n / 2, k - 1);
      if n < Pow2(k) {
        var m: nat :| m > 0 && Pow2(k - 1) == m * (n / 2);
        assert Pow2(k) == m * n;
      }
    }
  }

  lemma ModMod(x: nat, m: nat, r: nat)
    requires m > 0 && r > 0
    ensures m * r > 0 && x % (m * r) % r == x % r
  {
    MulMono(1, m, r);
    var q, y := x / (m * r), x % (m * r);
    DivBounds(y, r);
    DivNat(x, m * r);
    DivNat(y, r);
    assert x == (q * m + y / r) * r + y % r by {
      assert x == q * (m * r) + y;
      assert q * (m * r) == q * m * r;
    }
    DivUnique(x, r, q * m + y / r, y % r);
  }

  /** Masking a word is taking the remainder by the reach. */
  lemma MaskedIs(x: nat, n: nat)
    requires IsPow2(n)
    ensures Masked(x, n) == x % Reach(n)
  {
    MaskIsRemainder(U32(x), n);
    Pow2Values();
    Pow2Divides(n, 32);
    hide And, IsPow2, Pow2;
    if n >= TWO32 {
      DivUnique(U32(x), n, 0, U32(x));
    } else {
      var m: nat :| m > 0 && TWO32 == m * n;
      ModMod(x, m, n);
    }
  }

  /** The probe runs round the slots it reaches. */
  lemma {:induction false} ProbeAtIs(hash: nat, n: nat, k: nat)
    requires IsPow2(n)
    ensures ProbeAt(hash, n, k) == (hash + k) % Reach(n)
  {
    if k == 0 {
      MaskedIs(hash, n);
    } else {
      ProbeAtIs(hash, n, k - 1);
      MaskedIs(ProbeAt(hash, n, k - 1) + 1, n);
      NextMod(hash + k - 1, Reach(n));
    }
  }

  lemma NextMod(x: nat, r: nat)
    requires r > 0
    ensures (x % r + 1) % r == (x + 1) % r == Next(x % r, r)
  {
    var q, y := x / r, x % r;
    DivNat(x, r);
    if y + 1 == r {
      DivUnique(y + 1, r, 1, 0);
      DivUnique(x + 1, r, q + 1, 0);
    } else {
      DivUnique(y + 1, r, 0, y + 1);
      DivUnique(x + 1, r, q, y + 1);
    }
  }

  // ----- where the probe ends -----

  /** After some number of steps the probe looks at an empty slot or at the key. */
  ghost predicate Ends<K>(slots: seq<int>, keys: seq<K>, hash: nat, k: K)
    requires |slots| > 0 && InRange(slots, keys)
  {
    exists j: nat :: StopsAt(slots, keys, k, ProbeAt(hash, |slots|, j))
  }

  /** The probe ends exactly when a slot that a 32-bit index reaches is empty or holds the key. */
  lemma EndsExactly<K>(slots: seq<int>, keys: seq<K>, hash: nat, k: K)
    requires IsPow2(|slots|) && InRange(slots, keys)
    ensures Ends(slots, keys, hash, k) <==> exists x: nat :: x < Reach(|slots|) && StopsAt(slots, keys, k, x)
  {
    var r := Reach(|slots|);
    if Ends(slots, keys, hash, k) {
      var j: nat :| StopsAt(slots, keys, k, ProbeAt(hash, |slots|, j));
      ProbeAtIs(hash, |slots|, j);
    }
    if x: nat :| x < r && StopsAt(slots, keys, k, x) {
      var j := StepsTo(hash, r, x);
      ProbeAtIs(hash, |slots|, j);
    }
  }

  /** How many steps from a home to a slot. */
  lemma StepsTo(hash: nat, r: nat, x: nat) returns (j: nat)
    requires x < r
    ensures (hash + j) % r == x
  {
    var q, y := hash / r, hash % r;
    DivNat(hash, r);
    j := if x >= y then x - y else x - y + r;
    DivUnique(hash + j, r, if x >= y then q else q + 1, x);
  }

  /** The probing loop in 32-bit words finds what a probe of the reached slots finds. */
  method SeekWord<K(==)>(slots: seq<int>, keys: seq<K>, hash: K -> nat, k: K) returns (s: int)
    requires IsPow2(|slots|) && InRange(slots, keys) && Ends(slots, keys, hash(k), k)
    ensures InRange(Reached(slots), keys) && s == Find(Reached(slots), keys, hash, k)
  {
    ghost var rs := Reached(slots);
    ghost var r := |rs|;
    EndsExactly(slots, keys, hash(k), k);
    ghost var e: nat :| e < r && StopsAt(slots, keys, k, e);
    assert StopsAt(rs, keys, k, e);
    var h: uint32 := Masked(hash(k), |slots|);
    MaskedIs(hash(k), |slots|);
    ghost var home := Home(hash, k, r);
    hide Home, Masked, Ends, IsPow2;
    while true
      invariant 0 <= h < r && Passed(rs, keys, k, home, h)
      invariant Probe(rs, keys, k, h, r - Dist(home, h, r)) == Find(rs, keys, hash, k)
      decreases r - Dist(home, h, r)
    {
      assert rs[h] == slots[h];
      if slots[h] < 0 {
        return -1;
      }
      if keys[slots[h]] == k {
        return slots[h];
      }
      PassOne(rs, keys, k, home, h, e);
      StepIsNext(h, |slots|);
      hide Passed;
      h := Masked(h + 1, |slots|);
    }
  }

  lemma StepIsNext(h: nat, n: nat)
    requires IsPow2(n) && h < Reach(n)
    ensures Masked(h + 1, n) == Next(h, Reach(n))
  {
    MaskedIs(h + 1, n);
    DivUnique(h, Reach(n), 0, h);
    NextMod(h, Reach(n));
  }
}
