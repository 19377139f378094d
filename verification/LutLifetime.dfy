module LutLifetime {
  // The lookup tables are shared by all priors of a process: when a codec that computes a distribution finds them.


  /** What a caller does; only opening, making a codec and closing touch the shared tables. */
  datatype Event = Open(prior: nat) | NewCodec(prior: nat) | Close(prior: nat) | Distribute(prior: nat)

  /** The priors open after some events. */
  function OpenAfter(events: seq<Event>): set<nat> {
    if events == [] then {}
    else
      var open := OpenAfter(events[..|events| - 1]);
      match events[|events| - 1]
      case Open(p) => open + {p}
      case Close(p) => open - {p}
      case _ => open
  }

  /** What the interface asks of its callers: only open priors are used and closed. */
  predicate Proper(events: seq<Event>) {
    events == []
    || (Proper(events[..|events| - 1])
        && var open := OpenAfter(events[..|events| - 1]);
           match events[|events| - 1]
           case Open(p) => p !in open
           case NewCodec(p) => p in open
           case Close(p) => p in open
           case Distribute(p) => p in open)
  }

  /** Opening a prior or making a codec builds the tables if they are missing; closing any prior frees them. */
  function Present(events: seq<Event>): bool {
    if events == [] then false
    else
      match events[|events| - 1]
      case Open(_) => true
      case NewCodec(_) => true
      case Close(_) => false
      case Distribute(_) => Present(events[..|events| - 1])
  }

  class LookupTables {
    var present: bool
    ghost var events: seq<Event>

    ghost predicate Valid()
      reads this
    {
      present == Present(events)
    }

    constructor ()
      ensures Valid() && events == []
    {
      present, events := false, [];
    }

    /** Builds the tables unless they are there. */
    method EnsureLuts(e: Event)
      requires Valid() && (e.Open? || e.NewCodec?)
      modifies this
      ensures Valid() && present && events == old(events) + [e]
    {
      if !present {
        present := true;
      }
      events := events + [e];
    }

    /** Frees the tables, whoever else uses them. */
    method Detach(e: Event)
      requires Valid() && e.Close?
      modifies this
      ensures Valid() && !present && events == old(events) + [e]
    {
      present := false;
      events := events + [e];
    }
  }

  // ----- when a distribution finds the tables gone -----

  /** At step j a distribution is computed without tables. */
  predicate FaultsAt(events: seq<Event>, j: nat) {
    j < |events| && events[j].Distribute? && !Present(events[..j])
  }

  /** Step i closes a prior, and from there to step j no table is built again. */
  predicate ClosedSince(events: seq<Event>, i: nat, j: nat) {
    && i < j <= |events| && events[i].Close?
    && forall k :: i < k < j ==> !events[k].Open? && !events[k].NewCodec?
  }

  lemma {:induction false} MissingSinceClose(events: seq<Event>, j: nat)
    requires j <= |events| && Proper(events[..j]) && OpenAfter(events[..j]) != {}
    ensures Present(events[..j]) <==> !exists i: nat :: ClosedSince(events, i, j)
  {
    if j > 0 {
      var e := events[j - 1];
      assert events[..j][..j - 1] == events[..j - 1] && events[..j][j - 1] == e;
      if e.Distribute? {
        MissingSinceClose(events, j - 1);
        var before := j - 1;
        if i: nat :| ClosedSince(events, i, before) {
          assert ClosedSince(events, i, j);
        }
        if i: nat :| ClosedSince(events, i, j) {
          assert i != j - 1;
          assert ClosedSince(events, i, j - 1);
        }
      } else if e.Close? {
        assert ClosedSince(events, j - 1, j);
      }
    }
  }

  /** A proper run finds the tables gone exactly when a prior was closed and none was opened or given a codec since. */
  lemma FaultsExactly(events: seq<Event>, j: nat)
    requires Proper(events) && j < |events| && events[j].Distribute?
    ensures FaultsAt(events, j) <==> exists i: nat :: ClosedSince(events, i, j)
  {
    ProperBefore(events, j + 1);
    ProperBefore(events, j);
    assert events[..j + 1][..j] == events[..j];
    MissingSinceClose(events, j);
  }

  lemma {:induction false} ProperBefore(events: seq<Event>, j: nat)
    requires Proper(events) && j <= |events|
    ensures Proper(events[..j])
    decreases |events|
  {
    if j < |events| {
      ProperBefore(events[..|events| - 1], j);
      assert events[..|events| - 1][..j] == events[..j];
    } else {
      assert events[..j] == events;
    }
  }

  /** No prior is closed while another is open. */
  predicate OneAtATime(events: seq<Event>) {
    forall i :: 0 <= i < |events| && events[i].Close? ==> OpenAfter(events[..i]) <= {events[i].prior}
  }

  lemma CloseEmpties(events: seq<Event>, j: nat)
    requires 0 < j <= |events| && OneAtATime(events)
    ensures events[j - 1].Close? ==> OpenAfter(events[..j]) == {}
  {
    assert events[..j][..j - 1] == events[..j - 1];
  }

  /** While a prior is open and none was closed beside another, the tables are there. */
  lemma {:induction false} PresentWhileOpen(events: seq<Event>, j: nat)
    requires j <= |events| && OneAtATime(events) && OpenAfter(events[..j]) != {}
    ensures Present(events[..j])
  {
    var before := events[..j];
    assert j > 0;
    var e := events[j - 1];
    assert before[..j - 1] == events[..j - 1] && before[j - 1] == e;
    CloseEmpties(events, j);
    if e.Distribute? {
      PresentWhileOpen(events, j - 1);
    }
  }

  /** Callers that close a prior only when no other is open never meet missing tables. */
  lemma OneAtATimeSafe(events: seq<Event>, j: nat)
    requires Proper(events) && OneAtATime(events) && j < |events| && events[j].Distribute?
    ensures !FaultsAt(events, j)
  {
    ProperBefore(events, j + 1);
    assert events[..j + 1][..j] == events[..j] && events[..j + 1][j] == events[j];
    PresentWhileOpen(events, j);
  }

  lemma OneMore(front: seq<Event>, e: Event)
    ensures (front + [e])[..|front|] == front && (front + [e])[|front|] == e
  {
  }

  /** With two priors open, closing one takes the tables from the codecs of the other. */
  lemma TwoPriorsFault()
    ensures var events := [Open(1), Open(2), NewCodec(2)] + [Close(1)] + [Distribute(2)];
      Proper(events) && FaultsAt(events, 4)
  {
    var start := [Open(1)] + [Open(2)];
    assert [Open(1), Open(2), NewCodec(2)] == start + [NewCodec(2)];
    OneMore([], Open(1));
    OneMore([Open(1)], Open(2));
    OneMore(start, NewCodec(2));
    OneMore(start + [NewCodec(2)], Close(1));
    OneMore(start + [NewCodec(2)] + [Close(1)], Distribute(2));
    assert [] + [Open(1)] == [Open(1)];
    assert OpenAfter([Open(1)]) == {1} && Proper([Open(1)]);
    assert OpenAfter(start) == {1, 2} && Proper(start);
    assert Proper(start + [NewCodec(2)]) && OpenAfter(start + [NewCodec(2)]) == {1, 2};
    var closed := start + [NewCodec(2)] + [Close(1)];
    assert Proper(closed) && OpenAfter(closed) == {2} && !Present(closed);
    assert (closed + [Distribute(2)])[..4] == closed;
  }
}
