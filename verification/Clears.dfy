/**
 * packages/market/src/storage.ts: what `clear` does to the promise that no write is lost.
 *
 * A call compares revisions only, and a cleared cell counts from the beginning again. So a
 * call that holds an envelope from before a clear may find its revision standing again, on
 * another envelope, and swap over it.
 */
module Clears {
  import opened Texts
  import opened Outcomes
  import opened Ordering
  import opened Envelopes
  import opened Storage
  import opened Commits
  import opened MarketStorage
  import opened History

  // ------------------------------------------- exactly when a write can be lost

  /** The call's swap, taken now, succeeds over a success that it did not load. */
  ghost predicate Overwrites(s: State, c: nat) {
    && Enabled(s, Swap(c)) && s.log != [] && |OnSwap(s, c).log| > |s.log|
    && s.calls[c].phase.found != s.cell
  }

  /** After some further steps, with or without clears among them, its next swap overwrites. */
  ghost predicate MayOverwrite(events: seq<Event>, c: nat, clears: bool) {
    exists more :: Swap(c) !in more && (Clear in more ==> clears)
      && After(events + more).Some? && Overwrites(After(events + more).value, c)
  }

  function RevisionReached(cell: Option<Envelope>): nat {
    if cell.Some? then cell.value.revision else 0
  }

  /** The call holds an envelope that its change commits onto. */
  ghost predicate HoldsForCommit(call: Call) {
    && call.phase.Holding? && call.phase.found.Some?
    && Commit(call.write, call.retention, call.phase.found.value).Ok?
  }

  /** The cell has yet to reach the revision the call holds, or has reached it with another envelope. */
  ghost predicate NotPassed(s: State, found: Envelope) {
    || RevisionReached(s.cell) < found.revision
    || (RevisionReached(s.cell) == found.revision && s.cell != Some(found))
  }

  lemma CellCountsLog(s: State)
    requires Inv(s)
    ensures RevisionReached(s.cell) == |s.log|
  {
    hide EnvelopeInv, Commit, Admissible, CallFits;
    if s.log != [] { assert EntryFits(s.calls, s.log, |s.log| - 1); }
  }

  /** What other calls' steps keep, from `s` to `n`, about a call that holds. */
  ghost predicate Keeps(s: State, n: State, c: nat, cleared: bool) {
    && c < |s.calls| && c < |n.calls| && n.calls[c] == s.calls[c]
    && (!cleared ==>
          && n.epoch == s.epoch && |s.log| <= |n.log| && (|n.log| == |s.log| ==> n.cell == s.cell))
  }

  lemma StepKeeps(s: State, e: Event, c: nat)
    requires Enabled(s, e) && c < |s.calls| && s.calls[c].phase.Holding? && e != Swap(c)
    ensures Keeps(s, Next(s, e), c, e == Clear)
  {
    hide Commit;
  }

  lemma {:induction false} RunKeeps(events: seq<Event>, more: seq<Event>, c: nat)
    requires After(events).Some? && c < |After(events).value.calls| && After(events).value.calls[c].phase.Holding?
    requires After(events + more).Some? && Swap(c) !in more
    ensures Keeps(After(events).value, After(events + more).value, c, Clear in more)
    decreases |more|
  {
    hide Next, Enabled;
    if more == [] {
      assert events + more == events;
    } else {
      var n := |more| - 1;
      assert more == more[..n] + [more[n]];
      assert events + more == (events + more[..n]) + [more[n]];
      AfterAppend(events + more[..n], more[n]);
      RunKeeps(events, more[..n], c);
      StepKeeps(After(events + more[..n]).value, more[n], c);
    }
  }

  /** What overwriting takes: an envelope to commit onto, from before a clear, at the cell's revision. */
  lemma OverwritingNeeds(s: State, c: nat)
    requires Inv(s) && Overwrites(s, c)
    ensures HoldsForCommit(s.calls[c]) && s.calls[c].phase.epoch < s.epoch
    ensures s.calls[c].phase.found.value.revision == |s.log|
  {
    hide EnvelopeInv, Commit, Admissible, IsPast;
    CellCountsLog(s);
    assert CallFits(s, c);
    var p := s.calls[c].phase;
    if p.epoch == s.epoch { EqualRevisionIsEqualEnvelope(s, p.found); }
  }

  // ------------------------------------------------- bringing the cell there

  /** A page of no offers and one diagnostic, which is not the last one `found` keeps. */
  function Filler(found: Envelope): (w: Write)
    ensures Admissible(w)
  {
    var n := |found.quarantine|;
    var reason: Text := if n > 0 && found.quarantine[n - 1].reason == [65] then [66] else [65];
    Materialize(Page([], Checkpoint([65], [65], [65], 1, 0, None, 0, None, None, true, Exhausted),
                     [Rejected([65], [65], [65], 0, reason)]))
  }

  /** It always commits, and what it leaves is not `found`. */
  lemma FillerCommits(found: Envelope, current: Envelope)
    requires current.revision < MAX_SAFE
    ensures var made := Commit(Filler(found), Roomy(), current);
      made.Ok? && made.value.0 != found
  {
    hide Fold, Survivors, StableSort, CompactedReport, Listing, Records, Submit;
    var made := Commit(Filler(found), Roomy(), current).value.0;
    var rejected := Filler(found).page.rejected;
    assert made.quarantine != [] && made.quarantine[|made.quarantine| - 1] == rejected[0];
  }

  /** One more success, by a new call. */
  lemma OneFiller(events: seq<Event>, found: Envelope) returns (more: seq<Event>)
    requires After(events).Some? && |After(events).value.log| < MAX_SAFE
    ensures Clear !in more && forall c :: 0 <= c < |After(events).value.calls| ==> Swap(c) !in more
    ensures After(events + more).Some?
    ensures |After(events + more).value.log| == |After(events).value.log| + 1
    ensures After(events + more).value.cell != Some(found)
  {
    hide Next, Enabled, After, Filler, Commit, Inv;
    var s, d := After(events).value, |After(events).value.calls|;
    EveryRunKeepsInv(events);
    CellCountsLog(s);
    FillerCommits(found, Current(s.cell, []));
    var s1, s2, s3 := FillerSteps(s, found);
    var invoke, load, swap: Event := Invoke(Filler(found), Roomy()), Load(d, []), Swap(d);
    more := [invoke, load, swap];
    OneStep(events, invoke, s, s1);
    OneStep(events + [invoke], load, s1, s2);
    OneStep(events + [invoke] + [load], swap, s2, s3);
    assert events + more == events + [invoke] + [load] + [swap];
  }

  lemma FillerSteps(s: State, found: Envelope) returns (s1: State, s2: State, s3: State)
    requires Commit(Filler(found), Roomy(), Current(s.cell, [])).Ok?
    requires Commit(Filler(found), Roomy(), Current(s.cell, [])).value.0 != found
    ensures Enabled(s, Invoke(Filler(found), Roomy())) && Next(s, Invoke(Filler(found), Roomy())) == s1
    ensures Enabled(s1, Load(|s.calls|, [])) && Next(s1, Load(|s.calls|, [])) == s2
    ensures Enabled(s2, Swap(|s.calls|)) && Next(s2, Swap(|s.calls|)) == s3
    ensures |s3.log| == |s.log| + 1 && s3.cell.Some? && s3.cell != Some(found)
  {
    hide Commit, Filler, Admissible;
    s1 := Next(s, Invoke(Filler(found), Roomy()));
    s2 := Next(s1, Load(|s.calls|, []));
    SwapWins(s2, |s.calls|, Commit(Filler(found), Roomy(), Current(s.cell, [])).value);
    s3 := Next(s2, Swap(|s.calls|));
  }

  /** While the cell has not passed what the call holds, others can bring it level, and the call swaps over them. */
  lemma {:induction false} Catch(events: seq<Event>, c: nat) returns (more: seq<Event>)
    requires After(events).Some? && c < |After(events).value.calls|
    requires HoldsForCommit(After(events).value.calls[c])
    requires NotPassed(After(events).value, After(events).value.calls[c].phase.found.value)
    ensures Swap(c) !in more && Clear !in more && After(events + more).Some?
    ensures Overwrites(After(events + more).value, c)
    decreases After(events).value.calls[c].phase.found.value.revision - |After(events).value.log|
  {
    hide After, Enabled, Next, Commit, Inv;
    var s := After(events).value;
    var found := s.calls[c].phase.found.value;
    EveryRunKeepsInv(events);
    HeldFits(s, c);
    CellCountsLog(s);
    if |s.log| == found.revision {
      more := [];
      assert events + more == events;
      LevelSwapWins(s, c);
    } else {
      var one := OneFiller(events, found);
      EveryRunKeepsInv(events + one);
      CellCountsLog(After(events + one).value);
      RunKeeps(events, one, c);
      var rest := Catch(events + one, c);
      more := one + rest;
      assert events + more == events + one + rest;
    }
  }

  lemma HeldFits(s: State, c: nat)
    requires Inv(s) && c < |s.calls| && HoldsForCommit(s.calls[c])
    ensures 0 < s.calls[c].phase.found.value.revision <= MAX_SAFE
  {
    hide Commit, Admissible, LogFits, DistinctKeys, KeysAscend;
    assert CallFits(s, c);
  }

  lemma LevelSwapWins(s: State, c: nat)
    requires c < |s.calls| && HoldsForCommit(s.calls[c]) && s.log != []
    requires RevisionReached(s.cell) == s.calls[c].phase.found.value.revision > 0
    requires s.cell != s.calls[c].phase.found
    ensures Overwrites(s, c)
  {
    hide Commit;
  }

  /**
   * Whatever happened before, a call that holds a load can yet swap over a success it never
   * saw exactly when it holds an envelope its change commits onto and the cell has not passed
   * that envelope; then it loaded before a clear. And once clears are allowed again, no load
   * that found something is ever out of danger.
   */
  lemma AHeldLoadCanOverwriteExactly(events: seq<Event>, c: nat)
    requires After(events).Some? && c < |After(events).value.calls| && After(events).value.calls[c].phase.Holding?
    ensures var s := After(events).value;
      && (MayOverwrite(events, c, false) <==>
            HoldsForCommit(s.calls[c]) && NotPassed(s, s.calls[c].phase.found.value))
      && (MayOverwrite(events, c, false) ==> s.calls[c].phase.epoch < s.epoch)
      && (MayOverwrite(events, c, true) <==> HoldsForCommit(s.calls[c]))
  {
    hide After, Enabled, Next, Commit, Inv, Overwrites, NotPassed;
    OverwritingImplies(events, c);
    var s := After(events).value;
    if HoldsForCommit(s.calls[c]) {
      if NotPassed(s, s.calls[c].phase.found.value) { var more := Catch(events, c); }
      var more := ClearAndCatch(events, c);
    }
  }

  lemma OverwritingImplies(events: seq<Event>, c: nat)
    requires After(events).Some? && c < |After(events).value.calls| && After(events).value.calls[c].phase.Holding?
    ensures var s := After(events).value;
      && (MayOverwrite(events, c, true) ==> HoldsForCommit(s.calls[c]))
      && (MayOverwrite(events, c, false) ==>
            HoldsForCommit(s.calls[c]) && NotPassed(s, s.calls[c].phase.found.value) &&
            s.calls[c].phase.epoch < s.epoch)
  {
    hide After, Enabled, Next, Commit, Inv, Overwrites;
    var s := After(events).value;
    EveryRunKeepsInv(events);
    CellCountsLog(s);
    forall more | Swap(c) !in more && After(events + more).Some? && Overwrites(After(events + more).value, c)
      ensures HoldsForCommit(s.calls[c])
      ensures Clear !in more ==> NotPassed(s, s.calls[c].phase.found.value) && s.calls[c].phase.epoch < s.epoch
    {
      EveryRunKeepsInv(events + more);
      RunKeeps(events, more, c);
      OverwritingNeeds(After(events + more).value, c);
      CellCountsLog(After(events + more).value);
      OverwritingMeets(After(events + more).value, c);
    }
  }

  lemma OverwritingMeets(s: State, c: nat)
    requires Overwrites(s, c)
    ensures s.cell != s.calls[c].phase.found
  {
    hide Commit;
  }

  lemma ClearAndCatch(events: seq<Event>, c: nat) returns (more: seq<Event>)
    requires After(events).Some? && c < |After(events).value.calls|
    requires HoldsForCommit(After(events).value.calls[c])
    ensures Swap(c) !in more && After(events + more).Some? && Overwrites(After(events + more).value, c)
  {
    hide After, Enabled, Next, Commit, Inv, Overwrites, NotPassed;
    var s := After(events).value;
    ClearIsEnabled(s);
    var n := Next(s, Clear);
    EveryRunKeepsInv(events);
    HeldFits(s, c);
    OneStep(events, Clear, s, n);
    ClearedIsNotPassed(s, c);
    var rest := Catch(events + [Clear], c);
    more := [Clear] + rest;
    assert events + more == events + [Clear] + rest;
  }

  lemma ClearedIsNotPassed(s: State, c: nat)
    requires c < |s.calls| && HoldsForCommit(s.calls[c]) && s.calls[c].phase.found.value.revision > 0
    ensures Next(s, Clear).calls == s.calls && NotPassed(Next(s, Clear), s.calls[c].phase.found.value)
  {
    hide Commit;
  }

  // ------------------------------------------------------------ such a run

  /** A roomy retention. */
  function Roomy(): Retention { Retention(5000, 10000, 10000, 1000) }

  function WithRows(revision: nat, cursorKey: Text, rows: seq<Observation>): Envelope {
    EmptyEnvelope(cursorKey).(revision := revision, catalogRevision := revision, observations := rows)
  }

  lemma NewAnnouncementCommits(revision: nat, cursorKey: Text, rows: seq<Observation>, row: Observation)
    requires |rows| < 5000 && revision < 100 && forall i :: 0 <= i < |rows| ==> !SameId(rows[i], row)
    ensures Commit(Announce(row), Roomy(), WithRows(revision, cursorKey, rows))
         == Ok((WithRows(revision + 1, cursorKey, rows + [row]), Announced(true)))
  {
    hide SameId, Compact;
    var current := WithRows(revision, cursorKey, rows);
    assert IdIndex(rows, row) == |rows|;
    RoomyCompaction(AnnounceChange(current, row).value.0, Roomy(), revision + 1);
  }

  lemma AfterAppend(events: seq<Event>, e: Event)
    ensures After(events + [e]) ==
      var before := After(events);
      if before.Some? && Enabled(before.value, e) then Some(Next(before.value, e)) else None
  {
    assert (events + [e])[..|events|] == events;
  }

  ghost function AnnounceCall(row: Observation, phase: Phase): Call { Call(Announce(row), Roomy(), phase) }

  ghost function Finished(revision: nat, key: Text, rows: seq<Observation>): Phase {
    Done(Committed(Announced(true), WithRows(revision, key, rows)))
  }

  ghost function FirstSwap(key: Text, a: Observation): Entry {
    Entry(0, None, None, WithRows(1, key, [a]), key, true)
  }

  /** One call has committed `a`, a second has loaded that envelope, a third is about to start. */
  ghost function Stalled(key: Text, a: Observation, b: Observation, c: Observation): State {
    State(Some(WithRows(1, key, [a])),
          [AnnounceCall(a, Finished(1, key, [a])),
           AnnounceCall(b, Holding(Some(WithRows(1, key, [a])), key, 0, 0)),
           AnnounceCall(c, Ready(0))],
          [FirstSwap(key, a)], 0)
  }

  lemma SwapWins(s: State, c: nat, made: (Envelope, Answer))
    requires Enabled(s, Swap(c)) && RevisionOf(s.calls[c].phase.found) == RevisionOf(s.cell)
    requires Commit(s.calls[c].write, s.calls[c].retention,
      Current(s.calls[c].phase.found, s.calls[c].phase.cursorKey)) == Ok(made)
    ensures Next(s, Swap(c)) == s.(
      cell := Some(made.0), calls := WithPhase(s.calls, c, Done(Committed(made.1, made.0))),
      log := s.log + [Entry(c, s.calls[c].phase.found, s.cell, made.0, s.calls[c].phase.cursorKey,
          s.calls[c].phase.epoch == s.epoch)])
  {
    hide Commit;
  }

  /** Three announcements called, nothing loaded yet. */
  ghost function Waiting(a: Observation, b: Observation, c: Observation): State {
    State(None, [AnnounceCall(a, Ready(0)), AnnounceCall(b, Ready(0)), AnnounceCall(c, Ready(0))], [], 0)
  }

  /** The store was cleared and the third call has committed `c` in it. */
  ghost function Restarted(key: Text, key': Text, a: Observation, b: Observation, c: Observation): State {
    State(Some(WithRows(1, key', [c])),
          [AnnounceCall(a, Finished(1, key, [a])),
           AnnounceCall(b, Holding(Some(WithRows(1, key, [a])), key, 0, 0)),
           AnnounceCall(c, Finished(1, key', [c]))],
          [Entry(2, None, None, WithRows(1, key', [c]), key', true)], 1)
  }

  lemma OneStep(events: seq<Event>, e: Event, s: State, n: State)
    requires After(events) == Some(s) && Enabled(s, e) && Next(s, e) == n
    ensures After(events + [e]) == Some(n)
  {
    hide Next, Enabled;
    AfterAppend(events, e);
  }

  lemma ThreeInvoked(a: Observation, b: Observation, c: Observation)
    requires IsAnnouncement(a) && IsAnnouncement(b) && IsAnnouncement(c)
    ensures After([] + [Invoke(Announce(a), Roomy())] + [Invoke(Announce(b), Roomy())] + [Invoke(Announce(c), Roomy())])
         == Some(Waiting(a, b, c))
  {
    hide IsAnnouncement, Roomy, OnSwap, After;
    var x, y, z := Invoke(Announce(a), Roomy()), Invoke(Announce(b), Roomy()), Invoke(Announce(c), Roomy());
    var s1 := State(None, [AnnounceCall(a, Ready(0))], [], 0);
    var s2 := State(None, [AnnounceCall(a, Ready(0)), AnnounceCall(b, Ready(0))], [], 0);
    NothingRun();
    OneStep([], x, Initial(), s1);
    OneStep([] + [x], y, s1, s2);
    OneStep([] + [x] + [y], z, s2, Waiting(a, b, c));
  }

  lemma NothingRun()
    ensures After([]) == Some(Initial())
  {}

  lemma FirstCommitsSecondLoads(key: Text, a: Observation, b: Observation, c: Observation)
    requires IsAnnouncement(a)
    ensures var s1 := Next(Waiting(a, b, c), Load(0, key));
      && Enabled(Waiting(a, b, c), Load(0, key)) && Enabled(s1, Swap(0))
      && Enabled(Next(s1, Swap(0)), Load(1, key)) && Next(Next(s1, Swap(0)), Load(1, key)) == Stalled(key, a, b, c)
  {
    hide IsAnnouncement, Roomy, OnSwap, Commit, WithRows;
    var s1 := Next(Waiting(a, b, c), Load(0, key));
    NothingStored(key);
    NewAnnouncementCommits(0, key, [], a);
    assert [] + [a] == [a];
    SwapWins(s1, 0, (WithRows(1, key, [a]), Announced(true)));
    var s3 := Next(Next(s1, Swap(0)), Load(1, key));
    assert s3.calls == Stalled(key, a, b, c).calls;
    assert s3.log == Stalled(key, a, b, c).log;
  }

  lemma NothingStored(key: Text)
    ensures Current(None, key) == WithRows(0, key, [])
  {}

  lemma ThirdCommitsAfterClear(key: Text, key': Text, a: Observation, b: Observation, c: Observation)
    requires IsAnnouncement(c)
    ensures var s1 := Next(Stalled(key, a, b, c), Clear);
      var s2 := Next(s1, Load(2, key'));
      Enabled(s1, Load(2, key')) && Enabled(s2, Swap(2)) && Next(s2, Swap(2)) == Restarted(key, key', a, b, c)
  {
    hide IsAnnouncement, Roomy, OnSwap, Commit, WithRows;
    var s2 := Next(Next(Stalled(key, a, b, c), Clear), Load(2, key'));
    NothingStored(key');
    NewAnnouncementCommits(0, key', [], c);
    assert [] + [c] == [c];
    SwapWins(s2, 2, (WithRows(1, key', [c]), Announced(true)));
    var s3 := Next(s2, Swap(2));
    assert s3.calls == Restarted(key, key', a, b, c).calls;
    assert s3.log == Restarted(key, key', a, b, c).log;
  }

  lemma SecondOverwrites(key: Text, key': Text, a: Observation, b: Observation, c: Observation)
    requires IsAnnouncement(b) && !SameId(a, b)
    ensures var s := Restarted(key, key', a, b, c);
      && Enabled(s, Swap(1))
      && Next(s, Swap(1)).cell == Some(WithRows(2, key, [a, b]))
      && Next(s, Swap(1)).calls == s.calls[1 := AnnounceCall(b, Finished(2, key, [a, b]))]
      && |Next(s, Swap(1)).log| == 2 && !Next(s, Swap(1)).log[1].current
  {
    hide IsAnnouncement, Roomy, OnSwap, Commit, WithRows, SameId;
    NewAnnouncementCommits(1, key, [a], b);
    assert [a] + [b] == [a, b];
    RevisionOfRows(1, key, [a]);
    RevisionOfRows(1, key', [c]);
    SwapWins(Restarted(key, key', a, b, c), 1, (WithRows(2, key, [a, b]), Announced(true)));
  }

  lemma OverwritingRun(
      key: Text, key': Text, a: Observation, b: Observation, c: Observation) returns (events: seq<Event>)
    requires IsAnnouncement(a) && IsAnnouncement(b) && IsAnnouncement(c) && !SameId(a, b)
    ensures After(events) == Some(Next(Restarted(key, key', a, b, c), Swap(1)))
  {
    hide IsAnnouncement, Roomy, OnSwap, Commit, WithRows, SameId, After, Next, Enabled, Waiting, Stalled, Restarted;
    events := [] + [Invoke(Announce(a), Roomy())] + [Invoke(Announce(b), Roomy())] + [Invoke(Announce(c), Roomy())];
    ThreeInvoked(a, b, c);
    FirstCommitsSecondLoads(key, a, b, c);
    var s1 := Next(Waiting(a, b, c), Load(0, key));
    OneStep(events, Load(0, key), Waiting(a, b, c), s1);
    OneStep(events + [Load(0, key)], Swap(0), s1, Next(s1, Swap(0)));
    events := events + [Load(0, key)] + [Swap(0)];
    OneStep(events, Load(1, key), Next(s1, Swap(0)), Stalled(key, a, b, c));
    events := events + [Load(1, key)];
    ThirdCommitsAfterClear(key, key', a, b, c);
    ClearIsEnabled(Stalled(key, a, b, c));
    var s2 := Next(Stalled(key, a, b, c), Clear);
    OneStep(events, Clear, Stalled(key, a, b, c), s2);
    events := events + [Clear];
    OneStep(events, Load(2, key'), s2, Next(s2, Load(2, key')));
    events := events + [Load(2, key')];
    OneStep(events, Swap(2), Next(s2, Load(2, key')), Restarted(key, key', a, b, c));
    events := events + [Swap(2)];
    SecondOverwrites(key, key', a, b, c);
    OneStep(events, Swap(1), Restarted(key, key', a, b, c), Next(Restarted(key, key', a, b, c), Swap(1)));
    events := events + [Swap(1)];
  }

  lemma ClearIsEnabled(s: State)
    ensures Enabled(s, Clear)
  {}

  /** Three calls succeeded; the third, the first since the clear, is overwritten by the second. */
  ghost predicate LostThird(s: State, c: Observation) {
    && |s.calls| == 3 && |s.log| == 2 && s.cell.Some?
    && (forall i :: 0 <= i < 3 ==> s.calls[i].phase.Done? && s.calls[i].phase.outcome.Committed?)
    && s.log[0].call == 2 && s.log[0].current && s.calls[2].write == Announce(c)
    && c !in s.cell.value.observations && !s.log[1].current
  }

  /**
   * Across a clear the revision no longer tells envelopes apart: a call that loaded before the
   * clear can swap itself over a write that succeeded after it. All calls report success, and
   * the store does not hold the third row.
   */
  lemma AClearCanLoseAWrite(key: Text, key': Text, a: Observation, b: Observation, c: Observation)
    requires IsAnnouncement(a) && IsAnnouncement(b) && IsAnnouncement(c) && !SameId(a, b) && a != c && b != c
    ensures exists events :: After(events).Some? && LostThird(After(events).value, c)
  {
    hide IsAnnouncement, Roomy, OnSwap, Commit, WithRows, SameId, After;
    var events := OverwritingRun(key, key', a, b, c);
    SecondOverwrites(key, key', a, b, c);
    RevisionOfRows(2, key, [a, b]);
    var s := After(events).value;
    assert s.log[0] == Restarted(key, key', a, b, c).log[0] by { SwapKeepsFirstEntry(Restarted(key, key', a, b, c)); }
  }

  lemma SwapKeepsFirstEntry(s: State)
    requires Enabled(s, Swap(1)) && s.log != []
    ensures Next(s, Swap(1)).log != [] && Next(s, Swap(1)).log[0] == s.log[0]
  {
    hide Commit;
  }

  lemma RevisionOfRows(revision: nat, key: Text, rows: seq<Observation>)
    ensures WithRows(revision, key, rows).revision == revision && WithRows(revision, key, rows).observations == rows
  {}
}
