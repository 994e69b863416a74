/** packages/market/src/storage.ts: the same writers as one step system; an interleaving is a sequence of steps. */
module History {
  import opened Texts
  import opened Outcomes
  import opened Envelopes
  import opened Storage
  import opened Commits
  import opened MarketStorage
  import opened Ordering
  import opened Reconcile
  import opened Watermarks

  /** Where a call stands between awaits; `epoch` counts how often the cell was cleared before it loaded. */
  datatype Phase =
    | Ready(attempt: nat)
    | Holding(found: Option<Envelope>, cursorKey: Text, attempt: nat, epoch: nat)
    | Done(outcome: Outcome)

  datatype Call = Call(write: Write, retention: Retention, phase: Phase)

  /** A successful swap: whose, what it had loaded, what it replaced, what it left. */
  datatype Entry = Entry(call: nat, found: Option<Envelope>, before: Option<Envelope>, after: Envelope,
      cursorKey: Text, current: bool)

  /** `log` lists the successful swaps since the cell was last cleared. */
  datatype State = State(cell: Option<Envelope>, calls: seq<Call>, log: seq<Entry>, epoch: nat)

  function Initial(): State { State(None, [], [], 0) }

  datatype Event =
    | Invoke(write: Write, retention: Retention)
    | Load(call: nat, cursorKey: Text)
    | Swap(call: nat)
    | Clear

  predicate Enabled(s: State, e: Event) {
    match e
    case Invoke(w, _) => Admissible(w)
    case Load(c, _) => c < |s.calls| && s.calls[c].phase.Ready?
    case Swap(c) => c < |s.calls| && s.calls[c].phase.Holding?
    case Clear => true
  }

  function WithPhase(calls: seq<Call>, c: nat, phase: Phase): seq<Call>
    requires c < |calls|
  {
    calls[c := calls[c].(phase := phase)]
  }

  function OnSwap(s: State, c: nat): State
    requires Enabled(s, Swap(c))
  {
    var call := s.calls[c];
    var p := call.phase;
    match Commit(call.write, call.retention, Current(p.found, p.cursorKey))
    case Err(refusal) => s.(calls := WithPhase(s.calls, c, Done(Refused(refusal))))
    case Ok(made) =>
      if RevisionOf(p.found) == RevisionOf(s.cell) then
        s.(cell := Some(made.0), calls := WithPhase(s.calls, c, Done(Committed(made.1, made.0))),
           log := s.log + [Entry(c, p.found, s.cell, made.0, p.cursorKey, p.epoch == s.epoch)])
      else
        s.(calls := WithPhase(s.calls, c,
             if p.attempt + 1 < ATTEMPTS then Ready(p.attempt + 1) else Done(Refused(StorageConflict))))
  }

  function Next(s: State, e: Event): State
    requires Enabled(s, e)
  {
    match e
    case Invoke(w, retention) => s.(calls := s.calls + [Call(w, retention, Ready(0))])
    case Load(c, cursorKey) =>
      s.(calls := WithPhase(s.calls, c, Holding(s.cell, cursorKey, s.calls[c].phase.attempt, s.epoch)))
    case Swap(c) => OnSwap(s, c)
    case Clear => s.(cell := None, log := [], epoch := s.epoch + 1)
  }

  function After(events: seq<Event>): Option<State> {
    if events == [] then Some(Initial())
    else
      var before, e := After(events[..|events| - 1]), events[|events| - 1];
      if before.Some? && Enabled(before.value, e) then Some(Next(before.value, e)) else None
  }

  // ------------------------------------------------------------ invariants

  /** The envelope that stood after the first `n` swaps. */
  function Standing(log: seq<Entry>, n: nat): Option<Envelope>
    requires n <= |log|
  {
    if n == 0 then None else Some(log[n - 1].after)
  }

  /** A swap takes its write's commit to what it had loaded, one revision on. */
  ghost predicate EntryFits(calls: seq<Call>, log: seq<Entry>, i: nat)
    requires i < |log|
  {
    var entry := log[i];
    && entry.call < |calls|
    && entry.before == Standing(log, i)
    && (entry.current || entry.found.None? ==> entry.found == entry.before)
    && entry.after.revision == i + 1
    && EnvelopeInv(entry.after) && EnvelopeInv(Current(entry.found, entry.cursorKey))
    && Admissible(calls[entry.call].write)
    && calls[entry.call].phase.Done? && calls[entry.call].phase.outcome.Committed?
    && calls[entry.call].phase.outcome.envelope == entry.after
    && Commit(calls[entry.call].write, calls[entry.call].retention, Current(entry.found, entry.cursorKey))
       == Ok((entry.after, calls[entry.call].phase.outcome.answer))
  }

  /** An envelope some swap of this epoch left, or none. */
  ghost predicate IsPast(log: seq<Entry>, found: Option<Envelope>) {
    found.Some? ==> 1 <= found.value.revision <= |log| && log[found.value.revision - 1].after == found.value
  }

  ghost predicate CallFits(s: State, c: nat)
    requires c < |s.calls|
  {
    var p := s.calls[c].phase;
    && Admissible(s.calls[c].write)
    && (p.Ready? ==> p.attempt < ATTEMPTS)
    && (p.Holding? ==> p.attempt < ATTEMPTS && p.epoch <= s.epoch && EnvelopeInv(Current(p.found, p.cursorKey))
                       && (p.epoch == s.epoch ==> IsPast(s.log, p.found))
                       && (p.found.Some? ==> p.found.value.revision > 0))
  }

  ghost predicate LogFits(s: State) {
    && s.cell == Standing(s.log, |s.log|)
    && (forall i :: 0 <= i < |s.log| ==> EntryFits(s.calls, s.log, i))
    && (forall i, j :: 0 <= i < j < |s.log| ==> s.log[i].call != s.log[j].call)
  }

  ghost predicate Inv(s: State) {
    && LogFits(s)
    && (forall c :: 0 <= c < |s.calls| ==> CallFits(s, c))
  }

  /** The heart of the matter: in one epoch, an equal revision is an equal envelope. */
  lemma EqualRevisionIsEqualEnvelope(s: State, found: Option<Envelope>)
    requires LogFits(s) && IsPast(s.log, found) && RevisionOf(found) == RevisionOf(s.cell)
    ensures found == s.cell
  {
    hide EnvelopeInv, Commit, Admissible;
    if s.log != [] { assert EntryFits(s.calls, s.log, |s.log| - 1); }
  }

  lemma EntryPrefix(calls: seq<Call>, log: seq<Entry>, more: Entry, i: nat)
    requires i < |log| && EntryFits(calls, log, i)
    ensures EntryFits(calls, log + [more], i)
  {
    hide EnvelopeInv, Commit, Admissible;
  }

  lemma PastGrows(log: seq<Entry>, more: Entry, found: Option<Envelope>)
    requires IsPast(log, found)
    ensures IsPast(log + [more], found)
  {}

  /** A call that is not done has no entry, so moving it leaves the log alone. */
  lemma MovingACallKeepsLog(s: State, c: nat, phase: Phase)
    requires LogFits(s) && c < |s.calls| && !s.calls[c].phase.Done?
    ensures LogFits(s.(calls := WithPhase(s.calls, c, phase)))
  {
    hide EnvelopeInv, Commit, Admissible;
    var after := WithPhase(s.calls, c, phase);
    forall i | 0 <= i < |s.log| ensures EntryFits(after, s.log, i) {
      assert EntryFits(s.calls, s.log, i);
    }
  }

  lemma CurrentFits(s: State, cursorKey: Text)
    requires LogFits(s)
    ensures EnvelopeInv(Current(s.cell, cursorKey)) && IsPast(s.log, s.cell)
    ensures s.cell.Some? ==> s.cell.value.revision > 0
  {
    hide Commit, Admissible, EnvelopeInv;
    EmptyEnvelopeFits(cursorKey);
    if s.log != [] { assert EntryFits(s.calls, s.log, |s.log| - 1); }
  }

  lemma InvokeKeepsInv(s: State, w: Write, retention: Retention)
    requires Inv(s) && Admissible(w)
    ensures Inv(Next(s, Invoke(w, retention)))
  {
    hide EnvelopeInv, Commit, Admissible;
    var n := Next(s, Invoke(w, retention));
    forall i | 0 <= i < |s.log| ensures EntryFits(n.calls, n.log, i) {
      assert EntryFits(s.calls, s.log, i);
    }
    forall c | 0 <= c < |n.calls| ensures CallFits(n, c) {
      if c < |s.calls| { assert CallFits(s, c); }
    }
  }

  lemma LoadKeepsInv(s: State, c: nat, cursorKey: Text)
    requires Inv(s) && Enabled(s, Load(c, cursorKey))
    ensures Inv(Next(s, Load(c, cursorKey)))
  {
    hide EnvelopeInv, Commit, Admissible, LogFits, IsPast;
    var n := Next(s, Load(c, cursorKey));
    assert CallFits(s, c);
    MovingACallKeepsLog(s, c, n.calls[c].phase);
    CurrentFits(s, cursorKey);
    forall d | 0 <= d < |n.calls| ensures CallFits(n, d) { assert CallFits(s, d); }
  }

  lemma ClearKeepsInv(s: State)
    requires Inv(s)
    ensures Inv(Next(s, Clear))
  {
    hide EnvelopeInv, Commit, Admissible;
    var n := Next(s, Clear);
    forall c | 0 <= c < |n.calls| ensures CallFits(n, c) { assert CallFits(s, c); }
  }

  /** A swap that wins appends one fitting entry. */
  lemma WinningSwapKeepsLog(s: State, c: nat)
    requires Inv(s) && Enabled(s, Swap(c)) && |OnSwap(s, c).log| > |s.log|
    ensures LogFits(OnSwap(s, c))
  {
    hide EnvelopeInv, Commit, Admissible, CommitFits, IsPast;
    var n, p := OnSwap(s, c), s.calls[c].phase;
    var entry := n.log[|s.log|];
    assert CallFits(s, c);
    if p.epoch == s.epoch { EqualRevisionIsEqualEnvelope(s, p.found); }
    CommitIsFit(s.calls[c].write, s.calls[c].retention, Current(p.found, p.cursorKey));
    CommitRaisesRevision(s.calls[c].write, s.calls[c].retention, p.found, p.cursorKey, entry.after);
    if s.log != [] { assert EntryFits(s.calls, s.log, |s.log| - 1); }
    MovingACallKeepsLog(s, c, n.calls[c].phase);
    forall i | 0 <= i < |n.log| ensures EntryFits(n.calls, n.log, i) {
      if i < |s.log| {
        assert EntryFits(n.calls, s.log, i);
        EntryPrefix(n.calls, s.log, entry, i);
      }
    }
    forall i | 0 <= i < |s.log| ensures s.log[i].call != c { assert EntryFits(s.calls, s.log, i); }
  }

  lemma CommitRaisesRevision(w: Write, retention: Retention, found: Option<Envelope>, cursorKey: Text, after: Envelope)
    requires CommitFits(Current(found, cursorKey), after, retention)
    ensures EnvelopeInv(after) && after.revision == (if found.Some? then found.value.revision else 0) + 1
  {
    hide EnvelopeInv;
  }

  lemma SwapKeepsInv(s: State, c: nat)
    requires Inv(s) && Enabled(s, Swap(c))
    ensures Inv(Next(s, Swap(c)))
  {
    hide EnvelopeInv, Commit, Admissible, IsPast, EntryFits, LogFits;
    var n := OnSwap(s, c);
    if |n.log| > |s.log| {
      WinningSwapKeepsLog(s, c);
    } else {
      MovingACallKeepsLog(s, c, n.calls[c].phase);
    }
    forall d | 0 <= d < |n.calls| ensures CallFits(n, d) {
      assert CallFits(s, d);
      if |n.log| > |s.log| && n.calls[d].phase.Holding? && n.calls[d].phase.epoch == s.epoch {
        PastGrows(s.log, n.log[|s.log|], n.calls[d].phase.found);
      }
    }
  }

  lemma {:induction false} EveryRunKeepsInv(events: seq<Event>)
    requires After(events).Some?
    ensures Inv(After(events).value)
    decreases |events|
  {
    if events != [] {
      hide Inv, Next, Enabled;
      EveryRunKeepsInv(events[..|events| - 1]);
      StepKeepsInv(After(events[..|events| - 1]).value, events[|events| - 1]);
    } else {
      assert After(events).value == Initial();
    }
  }

  lemma StepKeepsInv(s: State, e: Event)
    requires Inv(s) && Enabled(s, e)
    ensures Inv(Next(s, e))
  {
    hide Inv, OnSwap;
    match e
    case Invoke(w, retention) => InvokeKeepsInv(s, w, retention);
    case Load(c, cursorKey) => LoadKeepsInv(s, c, cursorKey);
    case Swap(c) => SwapKeepsInv(s, c);
    case Clear => ClearKeepsInv(s);
  }

  // -------------------------------------------------------- linear history

  /** Nothing was cleared: every swap built on what it replaced, and every success is logged. */
  ghost predicate Uncleared(s: State) {
    s.epoch == 0 ==>
      && (forall i :: 0 <= i < |s.log| ==> s.log[i].current)
      && (forall c :: 0 <= c < |s.calls| && s.calls[c].phase.Done? && s.calls[c].phase.outcome.Committed? ==>
            exists i :: 0 <= i < |s.log| && s.log[i].call == c)
  }

  lemma StepKeepsUncleared(s: State, e: Event)
    requires Inv(s) && Uncleared(s) && Enabled(s, e)
    ensures Uncleared(Next(s, e))
  {
    hide EnvelopeInv, Commit, Admissible, IsPast, EntryFits;
    var n := Next(s, e);
    if n.epoch == 0 {
      if e.Swap? { assert CallFits(s, e.call); }
      forall c | 0 <= c < |n.calls| && n.calls[c].phase.Done? && n.calls[c].phase.outcome.Committed?
        ensures exists i :: 0 <= i < |n.log| && n.log[i].call == c
      {
        if c < |s.calls| && s.calls[c].phase.Done? {
          var i :| 0 <= i < |s.log| && s.log[i].call == c;
          assert n.log[i].call == c;
        } else {
          assert n.log[|s.log|].call == c;
        }
      }
    }
  }

  lemma {:induction false} EveryRunIsUncleared(events: seq<Event>)
    requires After(events).Some?
    ensures Uncleared(After(events).value)
    ensures Clear !in events ==> After(events).value.epoch == 0
    decreases |events|
  {
    hide Inv, Next, Enabled, Uncleared;
    if events != [] {
      var n := |events| - 1;
      assert events == events[..n] + [events[n]];
      EveryRunIsUncleared(events[..n]);
      EveryRunKeepsInv(events[..n]);
      StepKeepsUncleared(After(events[..n]).value, events[n]);
      if events[n] != Clear { OnlyClearingEndsAnEpoch(After(events[..n]).value, events[n]); }
    } else {
      InitiallyUncleared();
    }
  }

  lemma InitiallyUncleared()
    ensures Uncleared(Initial()) && Initial().epoch == 0
  {}

  lemma OnlyClearingEndsAnEpoch(s: State, e: Event)
    requires Enabled(s, e) && e != Clear
    ensures Next(s, e).epoch == s.epoch
  {
    hide Commit;
  }

  /**
   * Every interleaving of writers over an uncleared store is a linear history: the `i`-th
   * success committed its own change onto exactly the envelope the previous success left, as
   * revision `i`; each successful call is there once and once only; the cell is the last.
   */
  lemma HistoryIsLinear(events: seq<Event>)
    requires After(events).Some? && Clear !in events
    ensures var s := After(events).value;
      && s.cell == Standing(s.log, |s.log|)
      && (forall i :: 0 <= i < |s.log| ==>
            var entry := s.log[i];
            && entry.call < |s.calls|
            && entry.after.revision == i + 1
            && s.calls[entry.call].phase.Done? && s.calls[entry.call].phase.outcome.Committed?
            && Commit(s.calls[entry.call].write, s.calls[entry.call].retention,
                 Current(Standing(s.log, i), entry.cursorKey))
               == Ok((entry.after, s.calls[entry.call].phase.outcome.answer)))
      && (forall c :: 0 <= c < |s.calls| && s.calls[c].phase.Done? && s.calls[c].phase.outcome.Committed? ==>
            exists i :: 0 <= i < |s.log| && s.log[i].call == c)
      && (forall i, j :: 0 <= i < j < |s.log| ==> s.log[i].call != s.log[j].call)
  {
    hide After, Commit, EnvelopeInv, Admissible;
    EveryRunKeepsInv(events);
    EveryRunIsUncleared(events);
    var s := After(events).value;
    forall i | 0 <= i < |s.log| ensures EntryFits(s.calls, s.log, i) && s.log[i].current {}
  }

  /**
   * Clears included: a call that loaded since the last clear, or loaded nothing, can only swap
   * onto what it loaded.
   */
  lemma NoLostWriteSinceLastClear(events: seq<Event>, i: nat)
    requires After(events).Some? && i < |After(events).value.log|
    requires After(events).value.log[i].current || After(events).value.log[i].found.None?
    ensures var s := After(events).value; s.log[i].found == s.log[i].before == Standing(s.log, i)
  {
    hide After, EnvelopeInv, Commit, Admissible;
    EveryRunKeepsInv(events);
    assert EntryFits(After(events).value.calls, After(events).value.log, i);
  }

  // ------------------------------------------------------------- revisions

  lemma SameVisibleTransitive(a: seq<Offer>, b: seq<Offer>, c: seq<Offer>)
    requires SameVisible(a, b) && SameVisible(b, c)
    ensures SameVisible(a, c)
  {
    hide Timeless;
  }

  /** What two envelopes of one history tell about each other by their revisions alone. */
  ghost predicate Follows(earlier: Envelope, later: Envelope) {
    && earlier.cursorKey == later.cursorKey
    && earlier.catalogRevision <= later.catalogRevision && earlier.offerRevision <= later.offerRevision
    && (earlier.catalogRevision == later.catalogRevision ==> earlier.observations == later.observations)
    && (earlier.offerRevision == later.offerRevision ==> SameVisible(earlier.offers, later.offers))
  }

  lemma FollowsTransitive(a: Envelope, b: Envelope, c: Envelope)
    requires Follows(a, b) && Follows(b, c)
    ensures Follows(a, c)
  {
    hide SameVisible;
    if a.offerRevision == c.offerRevision { SameVisibleTransitive(a.offers, b.offers, c.offers); }
  }

  lemma FollowsItself(e: Envelope)
    ensures Follows(e, e)
  {}

  lemma EachSwapFollows(s: State, i: nat)
    requires LogFits(s) && 0 < i < |s.log| && s.log[i].current
    ensures Follows(s.log[i - 1].after, s.log[i].after)
  {
    hide EnvelopeInv, Commit, Admissible, SameVisible, Within;
    assert EntryFits(s.calls, s.log, i);
    var call := s.calls[s.log[i].call];
    CommitIsFit(call.write, call.retention, Current(s.log[i].found, s.log[i].cursorKey));
  }

  lemma {:induction false} LogFollows(s: State, i: nat, j: nat)
    requires LogFits(s) && i <= j < |s.log| && forall k :: 0 <= k < |s.log| ==> s.log[k].current
    ensures Follows(s.log[i].after, s.log[j].after)
    decreases j
  {
    hide LogFits, Follows;
    if i == j {
      FollowsItself(s.log[i].after);
    } else {
      LogFollows(s, i, j - 1);
      EachSwapFollows(s, j);
      FollowsTransitive(s.log[i].after, s.log[j - 1].after, s.log[j].after);
    }
  }

  /**
   * Of one uncleared store: the revision counts commits, neither other counter ever passes it
   * or falls, and two commits with equal catalog revision hold the same observations, with
   * equal offer revision the same offer rows but for their first and last observation times.
   */
  lemma RevisionsIdentifySnapshots(events: seq<Event>, i: nat, j: nat)
    requires After(events).Some? && Clear !in events && i <= j < |After(events).value.log|
    ensures var log := After(events).value.log;
      && log[i].after.revision == i + 1 && log[j].after.revision == j + 1
      && log[i].after.catalogRevision <= log[i].after.revision && log[i].after.offerRevision <= log[i].after.revision
      && Follows(log[i].after, log[j].after)
  {
    hide After, Commit, Admissible, Follows, SameVisible, KeysAscend, DistinctKeys, IsStored;
    EveryRunKeepsInv(events);
    EveryRunIsUncleared(events);
    var s := After(events).value;
    LogFollows(s, i, j);
    assert EntryFits(s.calls, s.log, i) && EntryFits(s.calls, s.log, j);
  }

  /** Envelopes one reader may load one after another from one uncleared store. */
  ghost predicate OneHistory(es: seq<Envelope>) {
    && (forall i :: 0 <= i < |es| ==> EnvelopeInv(es[i]))
    && (forall i, j :: 0 <= i <= j < |es| ==> Follows(es[i], es[j]))
  }

  /** Loads at any non-decreasing moments of any uncleared run are such envelopes. */
  lemma LoadsAreOneHistory(events: seq<Event>, at: seq<nat>, es: seq<Envelope>)
    requires After(events).Some? && Clear !in events && |es| == |at|
    requires forall i :: 0 <= i < |at| ==>
      at[i] < |After(events).value.log| && es[i] == After(events).value.log[at[i]].after
    requires forall i, j :: 0 <= i <= j < |at| ==> at[i] <= at[j]
    ensures OneHistory(es)
  {
    hide After, Commit, Admissible, Follows, EnvelopeInv;
    EveryRunKeepsInv(events);
    var s := After(events).value;
    forall i | 0 <= i < |es| ensures EnvelopeInv(es[i]) { assert EntryFits(s.calls, s.log, at[i]); }
    forall i, j | 0 <= i <= j < |es| ensures Follows(es[i], es[j]) { RevisionsIdentifySnapshots(events, at[i], at[j]); }
  }

  // ------------------------------------------------------------ convergence

  /** No commit of the history had to evict an offer. */
  ghost predicate NothingEvicted(s: State) {
    forall i :: 0 <= i < |s.log| && s.log[i].call < |s.calls| ==>
      !EvictsOffers(s.calls[s.log[i].call].write, s.calls[s.log[i].call].retention,
          Current(Standing(s.log, i), s.log[i].cursorKey))
  }

  /** The reports about one offer that the first `n` commits brought, in commit order. */
  function ReportsBy(s: State, n: nat, key: Text): seq<Offer>
    requires n <= |s.log|
  {
    if n == 0 then []
    else
      var call := s.log[n - 1].call;
      ReportsBy(s, n - 1, key) + (if call < |s.calls| then ReportsIn(s.calls[call].write, key) else [])
  }

  function RowOf(cell: Option<Envelope>, key: Text): Option<Offer> {
    if cell.Some? then RowAt(cell.value, key) else None
  }

  lemma RowOfCurrent(cell: Option<Envelope>, cursorKey: Text, key: Text)
    ensures RowAt(Current(cell, cursorKey), key) == RowOf(cell, key)
  {}

  lemma RowStep(s: State, i: nat, key: Text)
    requires LogFits(s) && NothingEvicted(s) && i < |s.log| && s.log[i].current
    ensures s.log[i].call < |s.calls|
    ensures RowOf(Standing(s.log, i + 1), key)
      == AfterAll(RowOf(Standing(s.log, i), key), ReportsIn(s.calls[s.log[i].call].write, key))
  {
    hide EnvelopeInv, Commit, Admissible, EvictsOffers, RowAt, ReportsIn, AfterAll;
    assert EntryFits(s.calls, s.log, i);
    var entry, call := s.log[i], s.calls[s.log[i].call];
    RowOfCurrent(Standing(s.log, i), entry.cursorKey, key);
    CommitOnRow(call.write, call.retention, Current(entry.found, entry.cursorKey), key);
  }

  lemma {:induction false} RowFollowsReports(s: State, n: nat, key: Text)
    requires LogFits(s) && NothingEvicted(s) && n <= |s.log| && forall k :: 0 <= k < |s.log| ==> s.log[k].current
    ensures RowOf(Standing(s.log, n), key) == AfterAll(None, ReportsBy(s, n, key))
  {
    hide LogFits, NothingEvicted, RowAt, ReportsIn, AfterAll;
    if n > 0 {
      RowFollowsReports(s, n - 1, key);
      RowStep(s, n - 1, key);
      AfterAllConcat(None, ReportsBy(s, n - 1, key), ReportsIn(s.calls[s.log[n - 1].call].write, key));
    } else {
      NothingReported(None);
    }
  }

  /** Everything reported about one offer in a run. */
  function Reported(events: seq<Event>, key: Text): seq<Offer>
    requires After(events).Some?
  {
    ReportsBy(After(events).value, |After(events).value.log|, key)
  }

  /**
   * Convergence of whole runs: however writers interleave, group, order or repeat them, the
   * same compatible reports of at most 32 sources leave the same stored row, which is their
   * join; other offers, other writers and announcements do not matter.
   */
  lemma RunsConverge(events: seq<Event>, events': seq<Event>, key: Text)
    requires After(events).Some? && After(events').Some? && Clear !in events && Clear !in events'
    requires NothingEvicted(After(events).value) && NothingEvicted(After(events').value)
    requires SetOf(Reported(events, key)) == SetOf(Reported(events', key))
    requires Reported(events, key) != [] && Compatible(SetOf(Reported(events, key)))
    requires |SourcesOf(SetOf(Reported(events, key)))| <= MAX_SOURCES
    ensures RowOf(After(events).value.cell, key) == RowOf(After(events').value.cell, key)
    ensures RowOf(After(events).value.cell, key).Some?
    ensures IsJoin(RowOf(After(events).value.cell, key).value, SetOf(Reported(events, key)))
  {
    hide After, Commit, EnvelopeInv, Admissible, NothingEvicted, RowOf, ReportsBy, AfterAll, IsJoin;
    hide Compatible, SourcesOf;
    RowIsReported(events, key);
    RowIsReported(events', key);
    ReportsJoin(Reported(events, key));
    ConvergesExactlyWithinTheSourceLimit(Reported(events, key));
  }

  lemma RowIsReported(events: seq<Event>, key: Text)
    requires After(events).Some? && Clear !in events && NothingEvicted(After(events).value)
    ensures RowOf(After(events).value.cell, key) == AfterAll(None, Reported(events, key))
  {
    hide After, EntryFits, NothingEvicted, RowOf, ReportsBy, AfterAll;
    EveryRunKeepsInv(events);
    EveryRunIsUncleared(events);
    RowFollowsReports(After(events).value, |After(events).value.log|, key);
  }

  // ------------------------------------------------------------- watermarks

  ghost predicate NoWatermarkEvicted(s: State) {
    forall i :: 0 <= i < |s.log| && s.log[i].call < |s.calls| ==>
      !EvictsCheckpoints(s.calls[s.log[i].call].write, s.calls[s.log[i].call].retention,
          Current(Standing(s.log, i), s.log[i].cursorKey))
  }

  function SubmissionsBy(s: State, n: nat, key: Text): seq<Checkpoint>
    requires n <= |s.log|
  {
    if n == 0 then []
    else
      var call := s.log[n - 1].call;
      SubmissionsBy(s, n - 1, key) + (if call < |s.calls| then SubmissionsIn(s.calls[call].write, key) else [])
  }

  function WatermarkOf(cell: Option<Envelope>, key: Text): Option<Checkpoint> {
    if cell.Some? then WatermarkAt(cell.value, key) else None
  }

  lemma WatermarkOfCurrent(cell: Option<Envelope>, cursorKey: Text, key: Text)
    ensures WatermarkAt(Current(cell, cursorKey), key) == WatermarkOf(cell, key)
  {}

  lemma {:induction false} AdvancedAllConcat(prior: Option<Checkpoint>, first: seq<Checkpoint>, second: seq<Checkpoint>)
    ensures AdvancedAll(prior, first + second) == AdvancedAll(AdvancedAll(prior, first), second)
    decreases |second|
  {
    hide Advanced;
    if second == [] {
      assert first + second == first;
    } else {
      var n := |second| - 1;
      AdvancedAllConcat(prior, first, second[..n]);
      assert (first + second)[..|first + second| - 1] == first + second[..n];
    }
  }

  lemma {:induction false} SubmissionsAreOfOneScope(s: State, n: nat, key: Text)
    requires n <= |s.log|
    ensures forall c :: c in SubmissionsBy(s, n, key) ==> CheckpointKey(c) == key
  {
    hide CheckpointKey;
    if n > 0 { SubmissionsAreOfOneScope(s, n - 1, key); }
  }

  lemma WatermarkStep(s: State, i: nat, key: Text)
    requires LogFits(s) && NoWatermarkEvicted(s) && i < |s.log| && s.log[i].current
    ensures s.log[i].call < |s.calls|
    ensures WatermarkOf(Standing(s.log, i + 1), key)
         == AdvancedAll(WatermarkOf(Standing(s.log, i), key), SubmissionsIn(s.calls[s.log[i].call].write, key))
  {
    hide EnvelopeInv, Commit, Admissible, EvictsCheckpoints, WatermarkAt, SubmissionsIn, AdvancedAll;
    assert EntryFits(s.calls, s.log, i);
    var entry, call := s.log[i], s.calls[s.log[i].call];
    WatermarkOfCurrent(Standing(s.log, i), entry.cursorKey, key);
    CommitOnWatermark(call.write, call.retention, Current(entry.found, entry.cursorKey), key);
  }

  lemma {:induction false} WatermarkFollowsSubmissions(s: State, n: nat, key: Text)
    requires LogFits(s) && NoWatermarkEvicted(s) && n <= |s.log| && forall k :: 0 <= k < |s.log| ==> s.log[k].current
    ensures WatermarkOf(Standing(s.log, n), key) == AdvancedAll(None, SubmissionsBy(s, n, key))
  {
    hide LogFits, NoWatermarkEvicted, WatermarkAt, SubmissionsIn, AdvancedAll;
    if n > 0 {
      WatermarkFollowsSubmissions(s, n - 1, key);
      WatermarkStep(s, n - 1, key);
      AdvancedAllConcat(None, SubmissionsBy(s, n - 1, key), SubmissionsIn(s.calls[s.log[n - 1].call].write, key));
    } else {
      NothingSubmitted();
    }
  }

  lemma NothingSubmitted()
    ensures AdvancedAll(None, []) == None
  {}

  /** However writers interleave, a scope's watermark ends as the greatest checkpoint committed for it. */
  lemma WatermarkEndsGreatest(events: seq<Event>, key: Text)
    requires After(events).Some? && Clear !in events && NoWatermarkEvicted(After(events).value)
    ensures var s := After(events).value;
      var submitted := SubmissionsBy(s, |s.log|, key);
      submitted != [] ==>
        WatermarkOf(s.cell, key).Some? && IsGreatest(WatermarkOf(s.cell, key).value, Submitted(submitted))
  {
    hide After, EntryFits, NoWatermarkEvicted, WatermarkOf, SubmissionsBy, AdvancedAll, IsGreatest, CheckpointKey;
    EveryRunKeepsInv(events);
    EveryRunIsUncleared(events);
    var s := After(events).value;
    var submitted := SubmissionsBy(s, |s.log|, key);
    WatermarkFollowsSubmissions(s, |s.log|, key);
    SubmissionsAreOfOneScope(s, |s.log|, key);
    if submitted != [] {
      assert submitted[0] in submitted;
      WatermarkIsGreatest(submitted);
    }
  }
}
