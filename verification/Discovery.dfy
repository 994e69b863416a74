/**
 * packages/market/src/storage.ts and catalog.ts together: over a whole run, however many
 * compactions folded the discovery log along the way, catalog pages show every announcement.
 */
module Discovery {
  import opened Texts
  import opened Outcomes
  import opened Ordering
  import opened Envelopes
  import opened Storage
  import opened Commits
  import opened MarketStorage
  import opened History
  import opened Views

  // ------------------------------------------------------------- one commit

  /** The announcement a committed write added, if it added one. */
  function AnnouncedIn(w: Write, answer: Answer): seq<Observation> {
    if w.Announce? && answer == Announced(true) then [w.row] else []
  }

  /** A commit that drops nothing leaves the log with its announcement added, folded or not. */
  lemma CommitOnObservations(w: Write, retention: Retention, current: Envelope)
    requires Commit(w, retention, current).Ok?
    ensures var (after, answer) := Commit(w, retention, current).value;
      var rows := current.observations + AnnouncedIn(w, answer);
      && current.retention.droppedObservations <= after.retention.droppedObservations
      && (after.retention.droppedObservations == 0 ==> after.observations == rows || after.observations == Fold(rows))
  {
    hide Fold, Evicted, Without, KeySet, MergeInto, Listing, Submit, StableSort, KeptOffers, KeptCheckpoints;
    hide KeptQuarantine;
    FoldKeys(Change(w, current).value.0.observations);
    assert current.observations + [] == current.observations;
  }

  // --------------------------------------------------------------- two logs

  /** Two logs that no catalog page's facts tell apart. */
  ghost predicate SameFacts(a: seq<Observation>, b: seq<Observation>) {
    forall q, key :: FactsIn(a, q, key) == FactsIn(b, q, key)
  }

  /** Two logs that count alike, row by row of every page and scope by scope. */
  ghost predicate SameCounts(a: seq<Observation>, b: seq<Observation>) {
    && (forall q, key :: CountIn(a, q, key) == CountIn(b, q, key))
    && (forall scope :: ScopeCount(a, scope) == ScopeCount(b, scope))
  }

  /** No scope holds more announcements than a counter can. */
  ghost predicate CountersSuffice(rows: seq<Observation>) {
    forall scope :: ScopeCount(rows, scope) <= MAX_SAFE
  }

  lemma ScopeCountAppend(rows: seq<Observation>, row: Observation, scope: Text)
    ensures ScopeCount(rows + [row], scope)
         == ScopeCount(rows, scope) + (if ObservationScope(row) == scope then row.observations else 0)
  {
    assert (rows + [row])[..|rows|] == rows;
  }

  /** Adding one row to both keeps two logs alike. */
  lemma AddingToBoth(a: seq<Observation>, b: seq<Observation>, row: Observation)
    ensures SameFacts(a, b) ==> SameFacts(a + [row], b + [row])
    ensures SameCounts(a, b) ==> SameCounts(a + [row], b + [row])
    ensures CountersSuffice(a + [row]) ==> CountersSuffice(a)
  {
    hide FactsIn, CountIn, CompactedIn, ScopeCount, Picks, JoinFacts, FactsOf, ObservationScope;
    forall q, key
      ensures FactsIn(a, q, key) == FactsIn(b, q, key) ==> FactsIn(a + [row], q, key) == FactsIn(b + [row], q, key)
      ensures CountIn(a, q, key) == CountIn(b, q, key) ==> CountIn(a + [row], q, key) == CountIn(b + [row], q, key)
    {
      FactsAppend(a, row, q, key);
      FactsAppend(b, row, q, key);
    }
    forall scope ensures ScopeCount(a, scope) == ScopeCount(b, scope) ==>
        ScopeCount(a + [row], scope) == ScopeCount(b + [row], scope)
      ensures ScopeCount(a, scope) <= ScopeCount(a + [row], scope)
    {
      ScopeCountAppend(a, row, scope);
      ScopeCountAppend(b, row, scope);
    }
  }

  /** Folding one of them keeps them alike, counts too while no counter is full. */
  lemma FoldingOne(a: seq<Observation>, b: seq<Observation>)
    requires SameFacts(a, b)
    ensures SameFacts(Fold(a), b)
    ensures SameCounts(a, b) && CountersSuffice(b) ==> SameCounts(Fold(a), b)
  {
    hide FactsIn, CountIn, ScopeCount, Fold, Overflows;
    forall q, key ensures FactsIn(Fold(a), q, key) == FactsIn(b, q, key) { FoldKeepsTotals(a, q, key); }
    if SameCounts(a, b) && CountersSuffice(b) {
      forall scope ensures ScopeCount(Fold(a), scope) == ScopeCount(b, scope) { FoldScopeCount(a, scope); }
      assert NoScopeOverflows(a);
      forall q, key ensures CountIn(Fold(a), q, key) == CountIn(b, q, key) {
        FoldKeepsTotals(a, q, key);
        NoScopeNoRow(a, q, key);
      }
    }
  }

  // --------------------------------------------------------------- whole runs

  /** The announcements the first `n` commits of a run added, in commit order. */
  function AnnouncedBy(s: State, n: nat): seq<Observation>
    requires n <= |s.log|
  {
    if n == 0 then []
    else
      var call := s.log[n - 1].call;
      AnnouncedBy(s, n - 1)
      + (if call < |s.calls| && s.calls[call].phase.Done? && s.calls[call].phase.outcome.Committed?
         then AnnouncedIn(s.calls[call].write, s.calls[call].phase.outcome.answer) else [])
  }

  /** Every announcement a run committed. */
  function AnnouncedDuring(events: seq<Event>): seq<Observation>
    requires After(events).Some?
  {
    AnnouncedBy(After(events).value, |After(events).value.log|)
  }

  function ObservationsOf(cell: Option<Envelope>): seq<Observation> {
    if cell.Some? then cell.value.observations else []
  }

  function DroppedBy(cell: Option<Envelope>): nat {
    if cell.Some? then cell.value.retention.droppedObservations else 0
  }

  lemma LogStep(s: State, i: nat)
    requires LogFits(s) && i < |s.log| && s.log[i].current
    ensures var added := AnnouncedBy(s, i + 1)[|AnnouncedBy(s, i)|..];
      var rows := ObservationsOf(Standing(s.log, i)) + added;
      && AnnouncedBy(s, i) + added == AnnouncedBy(s, i + 1) && |added| <= 1
      && DroppedBy(Standing(s.log, i)) <= DroppedBy(Standing(s.log, i + 1))
      && (DroppedBy(Standing(s.log, i + 1)) == 0 ==>
            ObservationsOf(Standing(s.log, i + 1)) == rows || ObservationsOf(Standing(s.log, i + 1)) == Fold(rows))
  {
    hide EnvelopeInv, Commit, Admissible, Fold;
    assert EntryFits(s.calls, s.log, i);
    var entry, call := s.log[i], s.calls[s.log[i].call];
    CommitOnObservations(call.write, call.retention, Current(entry.found, entry.cursorKey));
  }

  lemma {:induction false} LogIsAnnounced(s: State, n: nat)
    requires LogFits(s) && n <= |s.log| && forall k :: 0 <= k < |s.log| ==> s.log[k].current
    requires DroppedBy(Standing(s.log, n)) == 0
    ensures SameFacts(ObservationsOf(Standing(s.log, n)), AnnouncedBy(s, n))
    ensures CountersSuffice(AnnouncedBy(s, n)) ==> SameCounts(ObservationsOf(Standing(s.log, n)), AnnouncedBy(s, n))
    decreases n
  {
    hide LogFits, SameFacts, SameCounts, CountersSuffice, Fold, DroppedBy, ObservationsOf, Standing, AnnouncedBy;
    if n == 0 {
      NothingAnnounced(s);
    } else {
      LogStep(s, n - 1);
      LogIsAnnounced(s, n - 1);
      var kept, full := ObservationsOf(Standing(s.log, n - 1)), AnnouncedBy(s, n - 1);
      var added := AnnouncedBy(s, n)[|full|..];
      if added == [] {
        assert kept + added == kept && full + added == full;
      } else {
        assert added == [added[0]];
        AddingToBoth(kept, full, added[0]);
        AddingToBoth(full, kept, added[0]);
      }
      FoldingOne(kept + added, full + added);
    }
  }

  lemma NothingAnnounced(s: State)
    ensures var kept, full := ObservationsOf(Standing(s.log, 0)), AnnouncedBy(s, 0);
      SameFacts(kept, full) && SameCounts(kept, full)
  {}

  lemma RunLogIsAnnounced(events: seq<Event>)
    requires After(events).Some? && Clear !in events && DroppedBy(After(events).value.cell) == 0
    ensures var kept, full := ObservationsOf(After(events).value.cell), AnnouncedDuring(events);
      SameFacts(kept, full) && (CountersSuffice(full) ==> SameCounts(kept, full))
  {
    hide After, EntryFits, SameFacts, SameCounts, CountersSuffice, DroppedBy, ObservationsOf, AnnouncedBy;
    EveryRunKeepsInv(events);
    EveryRunIsUncleared(events);
    LogIsAnnounced(After(events).value, |After(events).value.log|);
  }

  /**
   * While the store has dropped no observation and no counter is full, every participant page
   * shows what the announcements committed since the beginning amount to, however writers
   * interleaved and however often the log was folded meanwhile.
   */
  lemma ParticipantPagesShowEveryAnnouncement(
      events: seq<Event>, q: Query, view: seq<Participant>, full: seq<Participant>)
    requires After(events).Some? && Clear !in events && DroppedBy(After(events).value.cell) == 0
    requires CountersSuffice(AnnouncedDuring(events))
    requires IsParticipantView(view, ObservationsOf(After(events).value.cell), q)
    requires IsParticipantView(full, AnnouncedDuring(events), q)
    ensures VisibleRows(view) == VisibleRows(full)
  {
    hide After, AnnouncedDuring, ObservationsOf, DroppedBy, CountersSuffice, IsParticipantView, FactsIn, CountIn;
    RunLogIsAnnounced(events);
    SameTotalsSameParticipants(ObservationsOf(After(events).value.cell), AnnouncedDuring(events), q, view, full);
  }

  /** So does every instrument page, full counters or not. */
  lemma InstrumentPagesShowEveryAnnouncement(
      events: seq<Event>, q: Query, view: seq<InstrumentRecord>, full: seq<InstrumentRecord>)
    requires After(events).Some? && Clear !in events && DroppedBy(After(events).value.cell) == 0
    requires IsInstrumentView(view, ObservationsOf(After(events).value.cell), q)
    requires IsInstrumentView(full, AnnouncedDuring(events), q)
    ensures view == full
  {
    hide After, AnnouncedDuring, ObservationsOf, DroppedBy, IsInstrumentView, FactsIn;
    RunLogIsAnnounced(events);
    SameFactsSameInstruments(ObservationsOf(After(events).value.cell), AnnouncedDuring(events), q, view, full);
  }
}
