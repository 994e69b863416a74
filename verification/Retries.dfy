/** packages/market/src/storage.ts: how often a write tries, and when it gives up. */
module Retries {
  import opened Outcomes
  import opened Envelopes
  import opened Commits
  import Storage
  import opened MarketStorage
  import opened History

  /** The swaps a call has taken in a run. */
  function SwapsOf(events: seq<Event>, c: nat): nat {
    if events == [] then 0
    else SwapsOf(events[..|events| - 1], c) + (if events[|events| - 1] == Swap(c) then 1 else 0)
  }

  /** How many swaps a call that stands here has behind it. */
  ghost predicate HasTried(phase: Phase, swaps: nat) {
    match phase
    case Ready(attempt) => swaps == attempt < 8
    case Holding(_, _, attempt, _) => swaps == attempt < 8
    case Done(outcome) => 1 <= swaps <= 8 && (outcome == Refused(StorageConflict) ==> swaps == 8)
  }

  ghost predicate AllTried(events: seq<Event>, s: State) {
    && (forall c :: 0 <= c < |s.calls| ==> HasTried(s.calls[c].phase, SwapsOf(events, c)))
    && (forall c :: c >= |s.calls| ==> SwapsOf(events, c) == 0)
  }

  lemma SwapsAppend(events: seq<Event>, e: Event, c: nat)
    ensures SwapsOf(events + [e], c) == SwapsOf(events, c) + (if e == Swap(c) then 1 else 0)
  {
    assert (events + [e])[..|events|] == events;
  }

  lemma CommitNeverConflicts(w: Write, retention: Retention, current: Envelope)
    ensures Commit(w, retention, current) != Err(StorageConflict)
  {
    hide Storage.Compact, MaterializeChange;
  }

  lemma SwapTries(s: State, c: nat, swaps: nat)
    requires Enabled(s, Swap(c)) && HasTried(s.calls[c].phase, swaps)
    ensures HasTried(OnSwap(s, c).calls[c].phase, swaps + 1)
    ensures |OnSwap(s, c).calls| == |s.calls| && forall d :: 0 <= d < |s.calls| && d != c ==>
      OnSwap(s, c).calls[d] == s.calls[d]
  {
    hide Commit;
    var p := s.calls[c].phase;
    CommitNeverConflicts(s.calls[c].write, s.calls[c].retention, Current(p.found, p.cursorKey));
  }

  lemma StepKeepsTries(events: seq<Event>, s: State, e: Event)
    requires AllTried(events, s) && Enabled(s, e)
    ensures AllTried(events + [e], Next(s, e))
  {
    hide SwapsOf, OnSwap, HasTried, Admissible;
    var n := Next(s, e);
    if e.Swap? { SwapTries(s, e.call, SwapsOf(events, e.call)); }
    forall c | 0 <= c < |n.calls| ensures HasTried(n.calls[c].phase, SwapsOf(events + [e], c)) {
      SwapsAppend(events, e, c);
      if e != Swap(c) { OtherwiseUnmoved(events, s, e, c); }
    }
    forall c | c >= |n.calls| ensures SwapsOf(events + [e], c) == 0 { SwapsAppend(events, e, c); }
  }

  lemma OtherwiseUnmoved(events: seq<Event>, s: State, e: Event, c: nat)
    requires AllTried(events, s) && Enabled(s, e) && c < |Next(s, e).calls| && e != Swap(c)
    ensures HasTried(Next(s, e).calls[c].phase, SwapsOf(events, c))
  {
    hide SwapsOf, Commit, Admissible;
  }

  lemma {:induction false} EveryRunTries(events: seq<Event>)
    requires After(events).Some?
    ensures AllTried(events, After(events).value)
    decreases |events|
  {
    if events != [] {
      hide Next, Enabled, AllTried;
      var before, e := events[..|events| - 1], events[|events| - 1];
      EveryRunTries(before);
      StepKeepsTries(before, After(before).value, e);
      assert events == before + [e];
    }
  }

  /**
   * Over every run, clears or none, a call takes at most eight swaps; it gives up with a storage
   * conflict only after all eight, and until it is done it has taken fewer.
   */
  lemma AtMostEightSwaps(events: seq<Event>, c: nat)
    requires After(events).Some? && c < |After(events).value.calls|
    ensures var phase, swaps := After(events).value.calls[c].phase, SwapsOf(events, c);
      && swaps <= 8 && (swaps == 8 ==> phase.Done?) && (swaps == 0 ==> !phase.Done?)
      && (phase.Done? && phase.outcome == Refused(StorageConflict) ==> swaps == 8)
  {
    hide After, SwapsOf;
    EveryRunTries(events);
    var s := After(events).value;
    assert HasTried(s.calls[c].phase, SwapsOf(events, c));
  }

  /**
   * A swap succeeds exactly when the change is accepted and the cell still has the revision the
   * call loaded. A call that loses goes back to load, until its eighth swap.
   */
  lemma SwapSucceedsExactly(s: State, c: nat)
    requires Enabled(s, Swap(c))
    ensures var p := s.calls[c].phase;
      var made := Commit(s.calls[c].write, s.calls[c].retention, Current(p.found, p.cursorKey));
      var after := Next(s, Swap(c));
      && (after.calls[c].phase.Done? && after.calls[c].phase.outcome.Committed? <==>
            made.Ok? && RevisionOf(p.found) == RevisionOf(s.cell))
      && (made.Ok? && RevisionOf(p.found) == RevisionOf(s.cell) ==> after.cell == Some(made.value.0))
      && (made.Err? || RevisionOf(p.found) != RevisionOf(s.cell) ==> after.cell == s.cell && after.log == s.log)
      && (made.Err? ==> after.calls[c].phase == Done(Refused(made.error)))
      && (made.Ok? && RevisionOf(p.found) != RevisionOf(s.cell) ==>
            after.calls[c].phase == if p.attempt < 7 then Ready(p.attempt + 1) else Done(Refused(StorageConflict)))
  {
    hide Commit;
  }
}
