/**
 * packages/market/src/catalog.ts: the participant and instrument rows a catalog derives
 * from stored observations, and why folding those observations does not show in them.
 */
module Views {
  import opened Texts
  import opened Outcomes
  import opened Ordering
  import opened Envelopes
  import opened Storage

  datatype Query =
    | ParticipantQuery(network: Option<Label>, instrument: Option<Instrument>)
    | InstrumentQuery(network: Option<Label>, base: Option<AssetName>, quote: Option<AssetName>)

  predicate Matches(q: Query, row: Observation) {
    && (q.network.Some? ==> row.network == q.network.value)
    && match q
       case ParticipantQuery(_, instrument) => instrument.Some? ==> row.instrument == instrument
       case InstrumentQuery(_, base, quote) =>
         && row.instrument.Some?
         && (base.Some? ==> row.instrument.value.base == base.value)
         && (quote.Some? ==> row.instrument.value.quote == quote.value)
  }

  function ParticipantKey(network: Text, address: Text): Text { Join(NUL, [network, address]) }

  function InstrumentKey(network: Text, pair: Instrument): Text { Join(NUL, [network, pair.base, pair.quote]) }

  function PairKey(pair: Instrument): Text { Join(NUL, [pair.base, pair.quote]) }

  /** The row of the view an observation belongs to. */
  function GroupKey(q: Query, row: Observation): Text
    requires Matches(q, row)
  {
    if q.ParticipantQuery? then ParticipantKey(row.network, row.address)
    else InstrumentKey(row.network, row.instrument.value)
  }

  predicate Picks(q: Query, key: Text, row: Observation) { Matches(q, row) && GroupKey(q, row) == key }

  // --------------------------------------------------- what rows amount to

  /** What a group of observations says, apart from how many they are. */
  datatype Facts =
    | Nothing
    | Facts(first: Safe, last: Safe, sources: set<Text>, instruments: set<Instrument>, addresses: set<Text>)

  function JoinFacts(a: Facts, b: Facts): Facts {
    if a.Nothing? then b
    else if b.Nothing? then a
    else
      Facts(Min(a.first, b.first), Max(a.last, b.last), a.sources + b.sources,
            a.instruments + b.instruments, a.addresses + b.addresses)
  }

  function FactsOf(row: Observation): Facts {
    Facts(row.firstObservedAt, row.observedAt, {row.source},
          if row.instrument.Some? then {row.instrument.value} else {}, {row.address})
  }

  function FactsIn(rows: seq<Observation>, q: Query, key: Text): Facts {
    if rows == [] then Nothing
    else
      var n := |rows| - 1;
      if Picks(q, key, rows[n]) then JoinFacts(FactsIn(rows[..n], q, key), FactsOf(rows[n]))
      else FactsIn(rows[..n], q, key)
  }

  /** Announcements the rows of a group stand for. */
  function CountIn(rows: seq<Observation>, q: Query, key: Text): nat {
    if rows == [] then 0
    else
      var n := |rows| - 1;
      CountIn(rows[..n], q, key) + (if Picks(q, key, rows[n]) then rows[n].observations else 0)
  }

  /** Those among them that no longer have an announcement id. */
  function CompactedIn(rows: seq<Observation>, q: Query, key: Text): nat {
    if rows == [] then 0
    else
      var n := |rows| - 1;
      CompactedIn(rows[..n], q, key)
      + (if Picks(q, key, rows[n]) && rows[n].observationId.None? then rows[n].observations else 0)
  }

  lemma JoinFactsLaws(a: Facts, b: Facts, c: Facts)
    ensures JoinFacts(JoinFacts(a, b), c) == JoinFacts(a, JoinFacts(b, c))
    ensures JoinFacts(a, b) == JoinFacts(b, a)
    ensures JoinFacts(JoinFacts(a, b), c) == JoinFacts(JoinFacts(a, c), b)
  {}

  // -------------------------------------------------- folding keeps the facts

  lemma PickIsAboutScope(q: Query, key: Text, a: Observation, b: Observation)
    requires ObservationScope(a) == ObservationScope(b)
    ensures Picks(q, key, a) == Picks(q, key, b)
  {
    hide ObservationScope, Join;
    ScopeIsInjective(a, b);
  }

  lemma FoldPairFacts(previous: Observation, current: Observation)
    requires ObservationScope(previous) == ObservationScope(current)
    ensures FactsOf(FoldPair(previous, current)) == JoinFacts(FactsOf(previous), FactsOf(current))
  {
    hide ObservationScope;
    ScopeIsInjective(previous, current);
  }

  lemma {:induction false} FactsAfterUpdate(rows: seq<Observation>, i: nat, row: Observation, q: Query, key: Text)
    requires i < |rows| && ObservationScope(rows[i]) == ObservationScope(row)
    ensures FactsIn(rows[i := FoldPair(rows[i], row)], q, key)
         == if Picks(q, key, row) then JoinFacts(FactsIn(rows, q, key), FactsOf(row)) else FactsIn(rows, q, key)
    decreases |rows|
  {
    hide ObservationScope, Picks, JoinFacts, FactsOf, FoldPair;
    var n, after := |rows| - 1, rows[i := FoldPair(rows[i], row)];
    FoldPairKeepsScope(rows[i], row);
    PickIsAboutScope(q, key, rows[i], row);
    PickIsAboutScope(q, key, FoldPair(rows[i], row), row);
    if i == n {
      assert after[..n] == rows[..n];
      FoldPairFacts(rows[n], row);
      JoinFactsLaws(FactsIn(rows[..n], q, key), FactsOf(rows[n]), FactsOf(row));
    } else {
      assert after[..n] == rows[..n][i := FoldPair(rows[i], row)];
      FactsAfterUpdate(rows[..n], i, row, q, key);
      JoinFactsLaws(FactsIn(rows[..n], q, key), FactsOf(row), FactsOf(rows[n]));
    }
  }

  lemma {:induction false} CountAfterUpdate(rows: seq<Observation>, i: nat, row: Observation, q: Query, key: Text)
    requires i < |rows| && ObservationScope(rows[i]) == ObservationScope(row)
    ensures CountIn(rows[i := FoldPair(rows[i], row)], q, key) == CountIn(rows, q, key)
         + (if Picks(q, key, row) then Saturate(rows[i].observations, row.observations) - rows[i].observations else 0)
    decreases |rows|
  {
    hide ObservationScope, Picks, Saturate;
    var n, after := |rows| - 1, rows[i := FoldPair(rows[i], row)];
    FoldPairKeepsScope(rows[i], row);
    PickIsAboutScope(q, key, rows[i], row);
    PickIsAboutScope(q, key, FoldPair(rows[i], row), row);
    if i == n {
      assert after[..n] == rows[..n];
    } else {
      assert after[..n] == rows[..n][i := FoldPair(rows[i], row)];
      CountAfterUpdate(rows[..n], i, row, q, key);
    }
  }

  lemma FactsAppend(rows: seq<Observation>, row: Observation, q: Query, key: Text)
    ensures FactsIn(rows + [row], q, key)
         == if Picks(q, key, row) then JoinFacts(FactsIn(rows, q, key), FactsOf(row)) else FactsIn(rows, q, key)
    ensures CountIn(rows + [row], q, key)
      == CountIn(rows, q, key) + (if Picks(q, key, row) then row.observations else 0)
    ensures CompactedIn(rows + [row], q, key) == CompactedIn(rows, q, key)
         + (if Picks(q, key, row) && row.observationId.None? then row.observations else 0)
  {
    assert (rows + [row])[..|rows|] == rows;
  }

  lemma {:induction false} FoldedFacts(rows: seq<Observation>, q: Query, key: Text)
    ensures FactsIn(FoldRows(rows), q, key) == FactsIn(rows, q, key)
    decreases |rows|
  {
    hide ObservationScope, Picks, JoinFacts, FactsOf, FoldPair;
    if rows != [] {
      var n, before := |rows| - 1, FoldRows(rows[..|rows| - 1]);
      FoldedFacts(rows[..n], q, key);
      var i := ScopeIndex(before, ObservationScope(rows[n]));
      if i < |before| {
        FactsAfterUpdate(before, i, rows[n], q, key);
      } else {
        FactsAppend(before, rows[n], q, key);
      }
    }
  }

  /** Announcements stored under one scope. */
  function ScopeCount(rows: seq<Observation>, scope: Text): nat {
    if rows == [] then 0
    else
      var n := |rows| - 1;
      ScopeCount(rows[..n], scope) + (if ObservationScope(rows[n]) == scope then rows[n].observations else 0)
  }

  /** A folded row counts its scope's announcements, up to the largest exact count. */
  lemma {:induction false} FoldedRowCount(rows: seq<Observation>, k: nat)
    requires k < |FoldRows(rows)|
    ensures FoldRows(rows)[k].observations == Saturate(0, ScopeCount(rows, ObservationScope(FoldRows(rows)[k])))
    decreases |rows|
  {
    hide ObservationScope;
    var n, before := |rows| - 1, FoldRows(rows[..|rows| - 1]);
    var i := ScopeIndex(before, ObservationScope(rows[n]));
    FoldingSeparatesScopes(rows[..n]);
    if i < |before| { FoldPairKeepsScope(before[i], rows[n]); }
    if k < |before| {
      FoldedRowCount(rows[..n], k);
    } else {
      UnseenScopeCount(rows[..n], ObservationScope(rows[n]));
    }
  }

  lemma {:induction false} SeenScopeIsFolded(rows: seq<Observation>, scope: Text)
    requires exists k :: 0 <= k < |rows| && ObservationScope(rows[k]) == scope
    ensures ScopeIndex(FoldRows(rows), scope) < |FoldRows(rows)|
    decreases |rows|
  {
    hide ObservationScope;
    var n, before := |rows| - 1, FoldRows(rows[..|rows| - 1]);
    var i := ScopeIndex(before, ObservationScope(rows[n]));
    if i < |before| { FoldPairKeepsScope(before[i], rows[n]); }
    if ObservationScope(rows[n]) == scope {
      assert ObservationScope(FoldRows(rows)[i]) == scope;
    } else {
      SeenScopeIsFolded(rows[..n], scope);
      var j := ScopeIndex(before, scope);
      assert ObservationScope(FoldRows(rows)[j]) == scope;
    }
  }

  lemma {:induction false} FoldedScopeIsSeen(rows: seq<Observation>, m: nat)
    requires m < |FoldRows(rows)|
    ensures exists k :: 0 <= k < |rows| && ObservationScope(rows[k]) == ObservationScope(FoldRows(rows)[m])
    decreases |rows|
  {
    hide ObservationScope;
    var n, before := |rows| - 1, FoldRows(rows[..|rows| - 1]);
    var i := ScopeIndex(before, ObservationScope(rows[n]));
    if i < |before| { FoldPairKeepsScope(before[i], rows[n]); }
    if m < |before| {
      FoldedScopeIsSeen(rows[..n], m);
      var k :| 0 <= k < n && ObservationScope(rows[..n][k]) == ObservationScope(before[m]);
      assert rows[k] == rows[..n][k];
    }
  }

  /** The only announcement of its participant, instrument and source. */
  ghost predicate Lone(rows: seq<Observation>, k: nat) {
    k < |rows| && forall j :: 0 <= j < |rows| && j != k ==> ObservationScope(rows[j]) != ObservationScope(rows[k])
  }

  lemma LoneBefore(rows: seq<Observation>, k: nat)
    requires Lone(rows, k) && k < |rows| - 1
    ensures Lone(rows[..|rows| - 1], k)
  {
    hide ObservationScope;
  }

  lemma LoneStill(rows: seq<Observation>, k: nat)
    requires rows != [] && Lone(rows[..|rows| - 1], k)
    requires ObservationScope(rows[k]) != ObservationScope(rows[|rows| - 1])
    ensures Lone(rows, k)
  {
    hide ObservationScope;
    forall j | 0 <= j < |rows| - 1 ensures rows[j] == rows[..|rows| - 1][j] {}
  }

  /** Folding leaves a lone announcement as it is. */
  lemma {:induction false} FoldingKeepsLoneRows(rows: seq<Observation>, k: nat)
    requires Lone(rows, k)
    ensures rows[k] in FoldRows(rows)
    decreases |rows|
  {
    hide ObservationScope, FoldPair;
    var n, before := |rows| - 1, FoldRows(rows[..|rows| - 1]);
    var i := ScopeIndex(before, ObservationScope(rows[n]));
    if k < n {
      LoneBefore(rows, k);
      FoldingKeepsLoneRows(rows[..n], k);
      var m :| 0 <= m < |before| && before[m] == rows[k];
      assert FoldRows(rows)[m] == rows[k];
    } else if i < |before| {
      FoldedScopeIsSeen(rows[..n], i);
    }
  }

  /** A folded row that still has an announcement id is a lone announcement. */
  lemma {:induction false} FoldedIdsAreOfLoneRows(rows: seq<Observation>, m: nat)
    requires m < |FoldRows(rows)| && FoldRows(rows)[m].observationId.Some?
    ensures exists k :: 0 <= k < |rows| && Lone(rows, k) && rows[k] == FoldRows(rows)[m]
    decreases |rows|
  {
    hide ObservationScope, Lone;
    var n, before := |rows| - 1, FoldRows(rows[..|rows| - 1]);
    var i := ScopeIndex(before, ObservationScope(rows[n]));
    FoldingSeparatesScopes(rows[..n]);
    if m < |before| {
      FoldedIdsAreOfLoneRows(rows[..n], m);
      var k :| 0 <= k < n && Lone(rows[..n], k) && rows[..n][k] == before[m];
      LoneStill(rows, k);
    } else {
      forall k | 0 <= k < n ensures ObservationScope(rows[k]) != ObservationScope(rows[n]) {
        assert rows[k] == rows[..n][k];
        if ObservationScope(rows[k]) == ObservationScope(rows[n]) {
          SeenScopeIsFolded(rows[..n], ObservationScope(rows[n]));
        }
      }
      LastIsLone(rows);
    }
  }

  lemma LastIsLone(rows: seq<Observation>)
    requires rows != []
    requires forall k :: 0 <= k < |rows| - 1 ==> ObservationScope(rows[k]) != ObservationScope(rows[|rows| - 1])
    ensures Lone(rows, |rows| - 1)
  {
    hide ObservationScope;
  }

  /** After a fold, a row has an announcement id exactly when it is a lone announcement that had it. */
  lemma FoldingDropsIdsOfMerged(rows: seq<Observation>, row: Observation)
    ensures row.observationId.Some? ==>
      (row in Fold(rows) <==> exists k :: 0 <= k < |rows| && Lone(rows, k) && rows[k] == row)
  {
    hide Lone, FoldRows, StableSort, ObservationScope;
    SortedRowsAreRows(FoldRows(rows), ObservationOrder);
    if row.observationId.Some? && row in Fold(rows) {
      var m :| 0 <= m < |FoldRows(rows)| && FoldRows(rows)[m] == row;
      FoldedIdsAreOfLoneRows(rows, m);
    }
    forall k | 0 <= k < |rows| && Lone(rows, k) && rows[k] == row ensures row in Fold(rows) {
      FoldingKeepsLoneRows(rows, k);
    }
  }

  lemma {:induction false} UnseenScopeCount(rows: seq<Observation>, scope: Text)
    requires ScopeIndex(FoldRows(rows), scope) == |FoldRows(rows)|
    ensures ScopeCount(rows, scope) == 0
    decreases |rows|
  {
    hide ObservationScope, FoldRows;
    if exists k :: 0 <= k < |rows| && ObservationScope(rows[k]) == scope { SeenScopeIsFolded(rows, scope); }
    AbsentScopeCount(rows, scope);
  }

  lemma {:induction false} AbsentScopeCount(rows: seq<Observation>, scope: Text)
    requires forall k :: 0 <= k < |rows| ==> ObservationScope(rows[k]) != scope
    ensures ScopeCount(rows, scope) == 0
    decreases |rows|
  {
    if rows != [] { AbsentScopeCount(rows[..|rows| - 1], scope); }
  }

  /** Some scope of this view row holds more announcements than a counter can. */
  ghost predicate Overflows(rows: seq<Observation>, q: Query, key: Text) {
    exists k :: 0 <= k < |rows| && Picks(q, key, rows[k]) && ScopeCount(rows, ObservationScope(rows[k])) > MAX_SAFE
  }

  lemma OverflowStep(rows: seq<Observation>, q: Query, key: Text)
    requires rows != []
    ensures var n := |rows| - 1;
      Overflows(rows, q, key) <==>
        Overflows(rows[..n], q, key) ||
        (Picks(q, key, rows[n]) && ScopeCount(rows, ObservationScope(rows[n])) > MAX_SAFE)
  {
    hide ObservationScope, Picks;
    var n := |rows| - 1;
    var front, last := rows[..n], rows[n];
    if Overflows(front, q, key) {
      var k :| 0 <= k < |front| && Picks(q, key, front[k]) && ScopeCount(front, ObservationScope(front[k])) > MAX_SAFE;
      assert rows[k] == front[k];
    }
    if Overflows(rows, q, key) {
      var k :| 0 <= k < |rows| && Picks(q, key, rows[k]) && ScopeCount(rows, ObservationScope(rows[k])) > MAX_SAFE;
      if k < n {
        assert front[k] == rows[k];
        if ObservationScope(rows[k]) == ObservationScope(last) { PickIsAboutScope(q, key, rows[k], last); }
      }
    }
  }

  /** What the last row adds to a folded count: all of itself unless its scope overflows. */
  lemma FoldedCountStep(rows: seq<Observation>, q: Query, key: Text)
    requires rows != []
    ensures var n := |rows| - 1;
      var added := CountIn(FoldRows(rows), q, key) - CountIn(FoldRows(rows[..n]), q, key);
      if !Picks(q, key, rows[n]) then added == 0
      else added <= rows[n].observations
           && (added == rows[n].observations <==> ScopeCount(rows, ObservationScope(rows[n])) <= MAX_SAFE)
  {
    hide ObservationScope, Picks, FoldPair, CountIn;
    var n, before := |rows| - 1, FoldRows(rows[..|rows| - 1]);
    var scope := ObservationScope(rows[n]);
    var i := ScopeIndex(before, scope);
    if i < |before| {
      CountAfterUpdate(before, i, rows[n], q, key);
      FoldedRowCount(rows[..n], i);
      assert FoldRows(rows) == before[i := FoldPair(before[i], rows[n])];
    } else {
      FactsAppend(before, rows[n], q, key);
      UnseenScopeCount(rows[..n], scope);
      assert FoldRows(rows) == before + [rows[n]];
    }
  }

  /** Folding never raises a row's count, and lowers it exactly when one of its scopes overflows. */
  lemma {:induction false} FoldedCount(rows: seq<Observation>, q: Query, key: Text)
    ensures CountIn(FoldRows(rows), q, key) <= CountIn(rows, q, key)
    ensures CountIn(FoldRows(rows), q, key) == CountIn(rows, q, key) <==> !Overflows(rows, q, key)
    decreases |rows|
  {
    hide ObservationScope, Picks, FoldPair, Overflows, FoldRows, ScopeCount;
    if rows == [] {
      NoRowsNoOverflow(q, key);
      NothingFolded();
    } else {
      FoldedCount(rows[..|rows| - 1], q, key);
      OverflowStep(rows, q, key);
      FoldedCountStep(rows, q, key);
    }
  }

  lemma NothingFolded()
    ensures FoldRows([]) == []
  {}

  lemma NoRowsNoOverflow(q: Query, key: Text)
    ensures !Overflows([], q, key)
  {}

  // ------------------------------------------------- the order of rows is moot

  lemma {:induction false} InsertKeepsTotals(
      sorted: seq<Observation>, row: Observation, rank: Observation -> Rank, q: Query, key: Text)
    ensures FactsIn(Insert(sorted, row, rank), q, key) == FactsIn(sorted + [row], q, key)
    ensures CountIn(Insert(sorted, row, rank), q, key) == CountIn(sorted + [row], q, key)
    decreases |sorted|
  {
    hide Picks, JoinFacts, FactsOf, Before;
    var n := |sorted|;
    if n > 0 && Before(rank(row), rank(sorted[n - 1])) {
      var front, last := sorted[..n - 1], sorted[n - 1];
      InsertKeepsTotals(front, row, rank, q, key);
      FactsAppend(Insert(front, row, rank), last, q, key);
      FactsAppend(front, row, q, key);
      FactsAppend(front, last, q, key);
      FactsAppend(sorted, row, q, key);
      assert sorted == front + [last];
      JoinFactsLaws(FactsIn(front, q, key), FactsOf(row), FactsOf(last));
    }
  }

  lemma {:induction false} SortKeepsTotals(rows: seq<Observation>, rank: Observation -> Rank, q: Query, key: Text)
    ensures FactsIn(StableSort(rows, rank), q, key) == FactsIn(rows, q, key)
    ensures CountIn(StableSort(rows, rank), q, key) == CountIn(rows, q, key)
    decreases |rows|
  {
    hide Picks, JoinFacts, FactsOf, Insert;
    if rows != [] {
      var n := |rows| - 1;
      SortKeepsTotals(rows[..n], rank, q, key);
      InsertKeepsTotals(StableSort(rows[..n], rank), rows[n], rank, q, key);
      FactsAppend(StableSort(rows[..n], rank), rows[n], q, key);
    }
  }

  /** A row whose scope no other row has is all that its scope counts. */
  lemma {:induction false} OnlyRowOfScope(rows: seq<Observation>, k: nat)
    requires DistinctScopes(rows) && k < |rows|
    ensures ScopeCount(rows, ObservationScope(rows[k])) == rows[k].observations
    decreases |rows|
  {
    hide ObservationScope;
    var n := |rows| - 1;
    if k < n {
      OnlyRowOfScope(rows[..n], k);
    } else {
      AbsentScopeCount(rows[..n], ObservationScope(rows[k]));
    }
  }

  /** Folding keeps what each scope counts, up to the largest exact count. */
  lemma FoldScopeCount(rows: seq<Observation>, scope: Text)
    ensures ScopeCount(Fold(rows), scope) == Saturate(0, ScopeCount(rows, scope))
  {
    hide ObservationScope, FoldRows, StableSort, ScopeCount;
    var folded, sorted := FoldRows(rows), Fold(rows);
    FoldingSeparatesScopes(rows);
    SortedRowsAreRows(folded, ObservationOrder);
    SameRowsSameKeys(sorted, folded, ObservationScope);
    if k :| 0 <= k < |sorted| && ObservationScope(sorted[k]) == scope {
      OnlyRowOfScope(sorted, k);
      assert sorted[k] in folded;
      var j :| 0 <= j < |folded| && folded[j] == sorted[k];
      FoldedRowCount(rows, j);
    } else {
      AbsentScopeCount(sorted, scope);
      assert forall row :: row in folded ==> ObservationScope(row) != scope;
      UnseenScopeCount(rows, scope);
    }
  }

  // ------------------------------------------------------------- the views

  datatype Participant = Participant(
    network: Label, address: Label, firstObservedAt: Safe, lastObservedAt: Safe, observationCount: nat,
    compactedObservations: nat, sources: seq<Text>, instruments: seq<Instrument>)

  datatype InstrumentRecord = InstrumentRecord(
    network: Label, pair: Instrument, participantCount: nat, firstObservedAt: Safe, lastObservedAt: Safe,
    sources: seq<Text>)

  function KeyOfParticipant(p: Participant): Text { ParticipantKey(p.network, p.address) }

  function KeyOfInstrument(r: InstrumentRecord): Text { InstrumentKey(r.network, r.pair) }

  ghost predicate Appears(rows: seq<Observation>, q: Query, key: Text) {
    exists k :: 0 <= k < |rows| && Picks(q, key, rows[k])
  }

  ghost predicate ListsPairs(listed: seq<Instrument>, pairs: set<Instrument>) {
    && KeysAscend(listed, PairKey)
    && (forall p :: p in listed ==> p in pairs)
    && (forall p :: p in pairs ==> p in listed)
  }

  /** A participant row says exactly what the observations of that participant amount to. */
  ghost predicate Describes(p: Participant, rows: seq<Observation>, q: Query) {
    var f := FactsIn(rows, q, KeyOfParticipant(p));
    && f.Facts?
    && p.firstObservedAt == f.first && p.lastObservedAt == f.last && p.sources == SortedSet(f.sources)
    && ListsPairs(p.instruments, f.instruments)
    && p.observationCount == CountIn(rows, q, KeyOfParticipant(p))
    && p.compactedObservations == CompactedIn(rows, q, KeyOfParticipant(p))
  }

  /** One row for each participant the query matches, in key order. */
  ghost predicate IsParticipantView(view: seq<Participant>, rows: seq<Observation>, q: Query) {
    && KeysAscend(view, KeyOfParticipant)
    && (forall p :: p in view ==> Describes(p, rows, q))
    && (forall key :: Appears(rows, q, key) ==> key in KeySet(view, KeyOfParticipant))
  }

  ghost predicate DescribesInstrument(r: InstrumentRecord, rows: seq<Observation>, q: Query) {
    var f := FactsIn(rows, q, KeyOfInstrument(r));
    && f.Facts?
    && r.firstObservedAt == f.first && r.lastObservedAt == f.last && r.sources == SortedSet(f.sources)
    && r.participantCount == |f.addresses|
  }

  ghost predicate IsInstrumentView(view: seq<InstrumentRecord>, rows: seq<Observation>, q: Query) {
    && KeysAscend(view, KeyOfInstrument)
    && (forall r :: r in view ==> DescribesInstrument(r, rows, q))
    && (forall key :: Appears(rows, q, key) ==> key in KeySet(view, KeyOfInstrument))
  }

  lemma {:induction false} AppearsIffFacts(rows: seq<Observation>, q: Query, key: Text)
    ensures Appears(rows, q, key) <==> FactsIn(rows, q, key).Facts?
    decreases |rows|
  {
    hide Picks;
    if rows != [] {
      var n := |rows| - 1;
      AppearsIffFacts(rows[..n], q, key);
      if Appears(rows[..n], q, key) {
        var k :| 0 <= k < n && Picks(q, key, rows[..n][k]);
        assert Picks(q, key, rows[k]);
      }
      if Appears(rows, q, key) {
        var k :| 0 <= k < |rows| && Picks(q, key, rows[k]);
        if k < n { assert rows[..n][k] == rows[k]; }
      }
    }
  }

  /** A query shows a participant exactly when some announcement of its network and instrument names it. */
  lemma ParticipantsShownAreExact(
      view: seq<Participant>, rows: seq<Observation>, network: Option<Label>, instrument: Option<Instrument>,
      n: Label, address: Label)
    requires IsParticipantView(view, rows, ParticipantQuery(network, instrument))
    ensures (exists p :: p in view && p.network == n && p.address == address) <==>
      (exists k :: 0 <= k < |rows| && rows[k].network == n && rows[k].address == address
                   && network in {None, Some(n)} && (instrument.None? || rows[k].instrument == instrument))
  {
    hide KeysAscend, ParticipantKey, FactsIn, CountIn, CompactedIn, ListsPairs;
    var q: Query := ParticipantQuery(network, instrument);
    if k :| 0 <= k < |rows| && rows[k].network == n && rows[k].address == address
            && network in {None, Some(n)} && (instrument.None? || rows[k].instrument == instrument) {
      assert Picks(q, ParticipantKey(n, address), rows[k]);
      assert Appears(rows, q, ParticipantKey(n, address));
      var i :| 0 <= i < |view| && KeyOfParticipant(view[i]) == ParticipantKey(n, address);
      ParticipantKeyIsInjective(view[i].network, view[i].address, n, address);
    }
    if p :| p in view && p.network == n && p.address == address {
      AppearsIffFacts(rows, q, KeyOfParticipant(p));
      var k :| 0 <= k < |rows| && Picks(q, KeyOfParticipant(p), rows[k]);
      ParticipantKeyIsInjective(rows[k].network, rows[k].address, n, address);
    }
  }

  /** And an instrument exactly when some announcement of its network and legs is about it. */
  lemma InstrumentsShownAreExact(
      view: seq<InstrumentRecord>, rows: seq<Observation>, network: Option<Label>, base: Option<AssetName>,
      quote: Option<AssetName>, n: Label, pair: Instrument)
    requires IsInstrumentView(view, rows, InstrumentQuery(network, base, quote))
    ensures (exists r :: r in view && r.network == n && r.pair == pair) <==>
      (exists k :: 0 <= k < |rows| && rows[k].network == n && rows[k].instrument == Some(pair)
                   && network in {None, Some(n)} && base in {None, Some(pair.base)} &&
                        quote in {None, Some(pair.quote)})
  {
    hide KeysAscend, InstrumentKey, FactsIn;
    var q: Query := InstrumentQuery(network, base, quote);
    if k :| 0 <= k < |rows| && rows[k].network == n && rows[k].instrument == Some(pair)
            && network in {None, Some(n)} && base in {None, Some(pair.base)} && quote in {None, Some(pair.quote)} {
      assert Picks(q, InstrumentKey(n, pair), rows[k]);
      assert Appears(rows, q, InstrumentKey(n, pair));
      var i :| 0 <= i < |view| && KeyOfInstrument(view[i]) == InstrumentKey(n, pair);
      InstrumentKeyIsInjective(view[i].network, view[i].pair, n, pair);
    }
    if r :| r in view && r.network == n && r.pair == pair {
      AppearsIffFacts(rows, q, KeyOfInstrument(r));
      var k :| 0 <= k < |rows| && Picks(q, KeyOfInstrument(r), rows[k]);
      InstrumentKeyIsInjective(rows[k].network, rows[k].instrument.value, n, pair);
    }
  }

  /** The view without the one field folding is allowed to change. */
  function Visible(p: Participant): Participant { p.(compactedObservations := 0) }

  function VisibleRows(view: seq<Participant>): seq<Participant> {
    seq(|view|, i requires 0 <= i < |view| => Visible(view[i]))
  }

  lemma ParticipantKeyIsInjective(network: Label, address: Label, network': Label, address': Label)
    requires ParticipantKey(network, address) == ParticipantKey(network', address')
    ensures network == network' && address == address'
  {
    hide Join, Split;
    var p, p': seq<Text> := [network, address], [network', address'];
    SplitJoin(NUL, p);
    SplitJoin(NUL, p');
    assert p == p';
    assert p[0] == p'[0] && p[1] == p'[1];
  }

  lemma InstrumentKeyIsInjective(network: Label, pair: Instrument, network': Label, pair': Instrument)
    requires InstrumentKey(network, pair) == InstrumentKey(network', pair')
    ensures network == network' && pair == pair'
  {
    hide Join, Split;
    var p, p': seq<Text> := [network, pair.base, pair.quote], [network', pair'.base, pair'.quote];
    SplitJoin(NUL, p);
    SplitJoin(NUL, p');
    assert p == p';
    assert p[0] == p'[0] && p[1] == p'[1] && p[2] == p'[2];
  }

  /** Two descriptions of one participant, over rows with the same facts, differ at most in the counts. */
  lemma DescriptionsAgree(a: Participant, b: Participant, rows: seq<Observation>, rows': seq<Observation>, q: Query)
    requires KeyOfParticipant(a) == KeyOfParticipant(b) && Describes(a, rows, q) && Describes(b, rows', q)
    requires FactsIn(rows, q, KeyOfParticipant(a)) == FactsIn(rows', q, KeyOfParticipant(a))
    ensures Visible(a).(observationCount := 0) == Visible(b).(observationCount := 0)
    ensures a.observationCount == CountIn(rows, q, KeyOfParticipant(a)) &&
      b.observationCount == CountIn(rows', q, KeyOfParticipant(a))
  {
    hide FactsIn, CountIn, CompactedIn, ParticipantKey, PairKey, KeysAscend;
    ParticipantKeyIsInjective(a.network, a.address, b.network, b.address);
    AscendingRowsUnique(a.instruments, b.instruments, PairKey);
  }

  lemma ViewKeys(view: seq<Participant>, rows: seq<Observation>, q: Query)
    requires IsParticipantView(view, rows, q)
    ensures forall key :: key in KeySet(view, KeyOfParticipant) <==> FactsIn(rows, q, key).Facts?
  {
    hide FactsIn, CountIn, CompactedIn, ParticipantKey, KeysAscend, Appears, ListsPairs;
    forall key ensures key in KeySet(view, KeyOfParticipant) <==> FactsIn(rows, q, key).Facts? {
      AppearsIffFacts(rows, q, key);
      if key in KeySet(view, KeyOfParticipant) {
        var i :| 0 <= i < |view| && KeyOfParticipant(view[i]) == key;
        assert view[i] in view;
      }
    }
  }

  lemma InstrumentViewKeys(view: seq<InstrumentRecord>, rows: seq<Observation>, q: Query)
    requires IsInstrumentView(view, rows, q)
    ensures forall key :: key in KeySet(view, KeyOfInstrument) <==> FactsIn(rows, q, key).Facts?
  {
    hide FactsIn, InstrumentKey, KeysAscend, Appears;
    forall key ensures key in KeySet(view, KeyOfInstrument) <==> FactsIn(rows, q, key).Facts? {
      AppearsIffFacts(rows, q, key);
      if key in KeySet(view, KeyOfInstrument) {
        var i :| 0 <= i < |view| && KeyOfInstrument(view[i]) == key;
        assert view[i] in view;
      }
    }
  }

  lemma FoldKeepsTotals(rows: seq<Observation>, q: Query, key: Text)
    ensures FactsIn(Fold(rows), q, key) == FactsIn(rows, q, key)
    ensures CountIn(Fold(rows), q, key) <= CountIn(rows, q, key)
    ensures CountIn(Fold(rows), q, key) == CountIn(rows, q, key) <==> !Overflows(rows, q, key)
  {
    hide FoldRows, StableSort, Overflows;
    FoldedFacts(rows, q, key);
    FoldedCount(rows, q, key);
    SortKeepsTotals(FoldRows(rows), ObservationOrder, q, key);
  }

  /**
   * Folding the log moves no row of a participant page: same participants, times, sources and
   * instruments. The count a row shows is the same exactly when none of that row's scopes
   * holds more announcements than a counter can.
   */
  lemma FoldingKeepsParticipantRows(
      rows: seq<Observation>, q: Query, view: seq<Participant>, folded: seq<Participant>, i: nat)
    requires IsParticipantView(view, rows, q) && IsParticipantView(folded, Fold(rows), q)
    ensures |view| == |folded|
    ensures i < |view| ==>
      && KeyOfParticipant(view[i]) == KeyOfParticipant(folded[i])
      && Visible(view[i]).(observationCount := 0) == Visible(folded[i]).(observationCount := 0)
      && folded[i].observationCount <= view[i].observationCount
      && (Visible(view[i]) == Visible(folded[i]) <==> !Overflows(rows, q, KeyOfParticipant(view[i])))
  {
    hide FactsIn, CountIn, CompactedIn, ParticipantKey, KeysAscend, Fold, Describes, Overflows, KeySet, Appears;
    ViewKeys(view, rows, q);
    ViewKeys(folded, Fold(rows), q);
    forall key ensures FactsIn(Fold(rows), q, key) == FactsIn(rows, q, key) { FoldKeepsTotals(rows, q, key); }
    SameKeysSamePlaces(view, folded, KeyOfParticipant, KeyOfParticipant);
    assert KeyList(view, KeyOfParticipant) == KeyList(folded, KeyOfParticipant);
    if i < |view| {
      assert KeyList(view, KeyOfParticipant)[i] == KeyList(folded, KeyOfParticipant)[i];
      assert view[i] in view && folded[i] in folded;
      DescriptionsAgree(view[i], folded[i], rows, Fold(rows), q);
      FoldKeepsTotals(rows, q, KeyOfParticipant(view[i]));
    }
  }

  /** No scope holds more announcements than a counter can. */
  ghost predicate NoScopeOverflows(rows: seq<Observation>) {
    forall k :: 0 <= k < |rows| ==> ScopeCount(rows, ObservationScope(rows[k])) <= MAX_SAFE
  }

  lemma NoScopeNoRow(rows: seq<Observation>, q: Query, key: Text)
    requires NoScopeOverflows(rows)
    ensures !Overflows(rows, q, key)
  {
    hide ObservationScope, Picks, ScopeCount;
  }

  /** While no scope overflows, no participant query can tell the folded log from the full one. */
  lemma FoldingIsInvisible(rows: seq<Observation>, q: Query, view: seq<Participant>, folded: seq<Participant>)
    requires IsParticipantView(view, rows, q) && IsParticipantView(folded, Fold(rows), q) && NoScopeOverflows(rows)
    ensures VisibleRows(view) == VisibleRows(folded)
  {
    hide IsParticipantView, NoScopeOverflows, Fold, Visible, ParticipantKey;
    FoldingKeepsParticipantRows(rows, q, view, folded, 0);
    forall i | 0 <= i < |view| ensures Visible(view[i]) == Visible(folded[i]) {
      FoldingKeepsParticipantRows(rows, q, view, folded, i);
      NoScopeNoRow(rows, q, KeyOfParticipant(view[i]));
    }
  }

  /** On the unrestricted page that condition is exact: the page shows every overflow. */
  lemma FoldingIsInvisibleExactlyWithoutOverflow(
      rows: seq<Observation>, view: seq<Participant>, folded: seq<Participant>)
    requires IsParticipantView(view, rows, ParticipantQuery(None, None))
    requires IsParticipantView(folded, Fold(rows), ParticipantQuery(None, None))
    ensures VisibleRows(view) == VisibleRows(folded) <==> NoScopeOverflows(rows)
  {
    hide Fold, ParticipantKey, ObservationScope, ScopeCount, FactsIn, CountIn, CompactedIn, Describes;
    hide KeysAscend, KeySet;
    var q: Query := ParticipantQuery(None, None);
    if NoScopeOverflows(rows) {
      FoldingIsInvisible(rows, q, view, folded);
    } else {
      var k :| 0 <= k < |rows| && ScopeCount(rows, ObservationScope(rows[k])) > MAX_SAFE;
      var key := ParticipantKey(rows[k].network, rows[k].address);
      assert Picks(q, key, rows[k]);
      assert Appears(rows, q, key) && Overflows(rows, q, key);
      var i :| 0 <= i < |view| && KeyOfParticipant(view[i]) == key;
      FoldingKeepsParticipantRows(rows, q, view, folded, i);
      assert VisibleRows(view)[i] != VisibleRows(folded)[i];
    }
  }

  lemma InstrumentDescriptionsAgree(
      a: InstrumentRecord, b: InstrumentRecord, rows: seq<Observation>, rows': seq<Observation>, q: Query)
    requires KeyOfInstrument(a) == KeyOfInstrument(b) && DescribesInstrument(a, rows, q) &&
      DescribesInstrument(b, rows', q)
    requires FactsIn(rows, q, KeyOfInstrument(a)) == FactsIn(rows', q, KeyOfInstrument(a))
    ensures a == b
  {
    hide FactsIn, InstrumentKey;
    InstrumentKeyIsInjective(a.network, a.pair, b.network, b.pair);
  }

  /** Observations that amount to the same facts give one instrument page. */
  lemma SameFactsSameInstruments(
      rows: seq<Observation>, rows': seq<Observation>, q: Query,
      view: seq<InstrumentRecord>, view': seq<InstrumentRecord>)
    requires IsInstrumentView(view, rows, q) && IsInstrumentView(view', rows', q)
    requires forall key :: FactsIn(rows, q, key) == FactsIn(rows', q, key)
    ensures view == view'
  {
    hide FactsIn, InstrumentKey, KeysAscend, DescribesInstrument, KeySet, Appears;
    InstrumentViewKeys(view, rows, q);
    InstrumentViewKeys(view', rows', q);
    SameKeysSamePlaces(view, view', KeyOfInstrument, KeyOfInstrument);
    var keys, keys' := KeyList(view, KeyOfInstrument), KeyList(view', KeyOfInstrument);
    assert |view| == |keys| == |keys'| == |view'|;
    forall i | 0 <= i < |view| ensures view[i] == view'[i] {
      assert keys[i] == keys'[i];
      assert view[i] in view && view'[i] in view';
      InstrumentDescriptionsAgree(view[i], view'[i], rows, rows', q);
    }
  }

  /** Observations that amount to the same facts and counts give one participant page. */
  lemma SameTotalsSameParticipants(
      rows: seq<Observation>, rows': seq<Observation>, q: Query, view: seq<Participant>, view': seq<Participant>)
    requires IsParticipantView(view, rows, q) && IsParticipantView(view', rows', q)
    requires forall key :: FactsIn(rows, q, key) == FactsIn(rows', q, key)
    requires forall key :: CountIn(rows, q, key) == CountIn(rows', q, key)
    ensures VisibleRows(view) == VisibleRows(view')
  {
    hide FactsIn, CountIn, CompactedIn, ParticipantKey, KeysAscend, Describes, KeySet, Appears;
    ViewKeys(view, rows, q);
    ViewKeys(view', rows', q);
    SameKeysSamePlaces(view, view', KeyOfParticipant, KeyOfParticipant);
    var keys, keys' := KeyList(view, KeyOfParticipant), KeyList(view', KeyOfParticipant);
    assert |view| == |keys| == |keys'| == |view'|;
    forall i | 0 <= i < |view| ensures Visible(view[i]) == Visible(view'[i]) {
      assert keys[i] == keys'[i];
      assert view[i] in view && view'[i] in view';
      DescriptionsAgree(view[i], view'[i], rows, rows', q);
    }
  }

  /** No instrument query can tell the folded log from the full one, overflow or not. */
  lemma FoldingKeepsInstruments(
      rows: seq<Observation>, q: Query, view: seq<InstrumentRecord>, folded: seq<InstrumentRecord>)
    requires IsInstrumentView(view, rows, q) && IsInstrumentView(folded, Fold(rows), q)
    ensures view == folded
  {
    hide FactsIn, CountIn, Fold, IsInstrumentView, Overflows;
    forall key ensures FactsIn(rows, q, key) == FactsIn(Fold(rows), q, key) { FoldKeepsTotals(rows, q, key); }
    SameFactsSameInstruments(rows, Fold(rows), q, view, folded);
  }

  // ---------------------------------------------------- computing the views

  function PickedRows(rows: seq<Observation>, q: Query, key: Text): seq<Observation> {
    if rows == [] then []
    else
      var n := |rows| - 1;
      PickedRows(rows[..n], q, key) + (if Picks(q, key, rows[n]) then [rows[n]] else [])
  }

  lemma {:induction false} PickedRowsTotals(rows: seq<Observation>, q: Query, key: Text)
    ensures var picked := PickedRows(rows, q, key);
      && FactsIn(picked, q, key) == FactsIn(rows, q, key)
      && CountIn(picked, q, key) == CountIn(rows, q, key)
      && CompactedIn(picked, q, key) == CompactedIn(rows, q, key)
    decreases |rows|
  {
    hide Picks, JoinFacts, FactsOf, FactsIn, CountIn, CompactedIn;
    if rows != [] {
      var n := |rows| - 1;
      PickedRowsTotals(rows[..n], q, key);
      FactsAppend(rows[..n], rows[n], q, key);
      FactsAppend(PickedRows(rows[..n], q, key), rows[n], q, key);
      assert rows == rows[..n] + [rows[n]];
      assert PickedRows(rows[..n], q, key) + [] == PickedRows(rows[..n], q, key);
    } else {
      assert PickedRows(rows, q, key) == rows;
    }
  }

  lemma {:induction false} PickedRowsArePicked(rows: seq<Observation>, q: Query, key: Text)
    ensures var picked := PickedRows(rows, q, key);
      && (forall i :: 0 <= i < |picked| ==> Picks(q, key, picked[i]))
      && (picked != [] <==> FactsIn(rows, q, key).Facts?)
    decreases |rows|
  {
    hide Picks;
    if rows != [] { PickedRowsArePicked(rows[..|rows| - 1], q, key); }
  }

  lemma PickedTotals(rows: seq<Observation>, q: Query, key: Text)
    ensures var picked := PickedRows(rows, q, key);
      && FactsIn(picked, q, key) == FactsIn(rows, q, key)
      && CountIn(picked, q, key) == CountIn(rows, q, key)
      && CompactedIn(picked, q, key) == CompactedIn(rows, q, key)
      && (forall i :: 0 <= i < |picked| ==> Picks(q, key, picked[i]))
      && (picked != [] <==> Appears(rows, q, key))
  {
    hide *;
    PickedRowsTotals(rows, q, key);
    PickedRowsArePicked(rows, q, key);
    AppearsIffFacts(rows, q, key);
  }

  /** A map from pair keys to pairs holds exactly these pairs. */
  ghost predicate HoldsPairs(m: map<Text, Instrument>, pairs: set<Instrument>) {
    && (forall k :: k in m ==> m[k] in pairs && PairKey(m[k]) == k)
    && (forall p :: p in pairs ==> PairKey(p) in m)
  }

  lemma PairKeyIsInjective(a: Instrument, b: Instrument)
    requires PairKey(a) == PairKey(b)
    ensures a == b
  {
    hide Join, Split;
    var p, q: seq<Text> := [a.base, a.quote], [b.base, b.quote];
    SplitJoin(NUL, p);
    SplitJoin(NUL, q);
    assert p == q;
    assert p[0] == q[0] && p[1] == q[1];
  }

  lemma HoldingOneMore(m: map<Text, Instrument>, pairs: set<Instrument>, pair: Instrument)
    requires HoldsPairs(m, pairs)
    ensures HoldsPairs(m[PairKey(pair) := pair], pairs + {pair})
  {
    hide PairKey;
  }

  lemma ListedByKey(m: map<Text, Instrument>, pairs: set<Instrument>, keys: seq<Text>)
    requires HoldsPairs(m, pairs) && keys == SortedSet(m.Keys)
    ensures forall i :: 0 <= i < |keys| ==> keys[i] in m && PairKey(m[keys[i]]) == keys[i] && m[keys[i]] in pairs
    ensures forall p :: p in pairs ==>
      exists i :: 0 <= i < |keys| && keys[i] == PairKey(p) && keys[i] in m && m[keys[i]] == p
  {
    hide PairKey, SortedSet, StrictlySorted;
    forall i | 0 <= i < |keys| ensures keys[i] in m { assert keys[i] in keys; }
    forall p | p in pairs
      ensures exists i :: 0 <= i < |keys| && keys[i] == PairKey(p) && keys[i] in m && m[keys[i]] == p {
      assert PairKey(p) in keys;
      var i :| 0 <= i < |keys| && keys[i] == PairKey(p);
      PairKeyIsInjective(m[keys[i]], p);
    }
  }

  lemma HeldPairsAreListed(m: map<Text, Instrument>, pairs: set<Instrument>)
    requires HoldsPairs(m, pairs)
    ensures ListsPairs(ListByKey(m, SortedSet(m.Keys)), pairs)
  {
    hide PairKey, Less, SortedSet, HoldsPairs;
    var keys := SortedSet(m.Keys);
    ListedByKey(m, pairs, keys);
    var listed := ListByKey(m, keys);
    forall p | p in pairs ensures p in listed {
      var i :| 0 <= i < |keys| && keys[i] == PairKey(p) && keys[i] in m && m[keys[i]] == p;
      assert listed[i] in listed;
    }
  }

  lemma {:induction false} SourcesAreCollected(rows: seq<Observation>, q: Query, key: Text)
    requires rows != [] && forall i :: 0 <= i < |rows| ==> Picks(q, key, rows[i])
    ensures var f := FactsIn(rows, q, key);
      f.Facts? && f.sources == (set i | 0 <= i < |rows| :: rows[i].source) &&
      f.addresses == (set i | 0 <= i < |rows| :: rows[i].address)
    decreases |rows|
  {
    hide Picks;
    var n := |rows| - 1;
    var front := rows[..n];
    assert (set i | 0 <= i < |rows| :: rows[i].source) == (set i | 0 <= i < n :: front[i].source) + {rows[n].source};
    assert (set i | 0 <= i < |rows| :: rows[i].address) == (set i | 0 <= i < n :: front[i].address) + {rows[n].address};
    if n > 0 { SourcesAreCollected(front, q, key); }
  }

  /** One participant's observations, as the view groups them. */
  datatype Group = Group(rows: seq<Observation>, instruments: map<Text, Instrument>)

  ghost predicate GroupFits(g: Group, rows: seq<Observation>, q: Query, key: Text) {
    && g.rows == PickedRows(rows, q, key) && g.rows != []
    && FactsIn(rows, q, key).Facts? && HoldsPairs(g.instruments, FactsIn(rows, q, key).instruments)
  }

  ghost predicate GroupsFit(grouped: map<Text, Group>, rows: seq<Observation>, q: Query) {
    && (forall key :: key in grouped ==> GroupFits(grouped[key], rows, q, key))
    && (forall key :: Appears(rows, q, key) ==> key in grouped)
  }

  function GroupedWith(grouped: map<Text, Group>, key: Text, row: Observation): Group {
    var g := if key in grouped then grouped[key] else Group([], map[]);
    Group(g.rows + [row],
          if row.instrument.Some? then g.instruments[PairKey(row.instrument.value) := row.instrument.value]
          else g.instruments)
  }

  lemma GroupGrows(grouped: map<Text, Group>, rows: seq<Observation>, q: Query, row: Observation)
    requires GroupsFit(grouped, rows, q) && Matches(q, row)
    ensures GroupFits(GroupedWith(grouped, GroupKey(q, row), row), rows + [row], q, GroupKey(q, row))
  {
    hide HoldsPairs, PairKey, GroupKey, Appears;
    var key := GroupKey(q, row);
    assert (rows + [row])[..|rows|] == rows;
    PickedTotals(rows, q, key);
    AppearsIffFacts(rows, q, key);
    NoPairs();
    var g := if key in grouped then grouped[key] else Group([], map[]);
    var pairs := if key in grouped then FactsIn(rows, q, key).instruments else {};
    if row.instrument.Some? { HoldingOneMore(g.instruments, pairs, row.instrument.value); }
    assert pairs + {} == pairs;
    assert Picks(q, key, row) && FactsIn(rows + [row], q, key) == JoinFacts(FactsIn(rows, q, key), FactsOf(row));
    assert FactsIn(rows + [row], q, key).instruments == pairs + FactsOf(row).instruments;
  }

  lemma NoPairs()
    ensures HoldsPairs(map[], {})
  {}

  lemma OtherGroupsStay(grouped: map<Text, Group>, rows: seq<Observation>, q: Query, row: Observation, key: Text)
    requires !Picks(q, key, row)
    ensures key in grouped && GroupFits(grouped[key], rows, q, key) ==> GroupFits(grouped[key], rows + [row], q, key)
    ensures Appears(rows + [row], q, key) ==> Appears(rows, q, key)
  {
    hide Picks, HoldsPairs;
    assert (rows + [row])[..|rows|] == rows;
    assert PickedRows(rows + [row], q, key) == PickedRows(rows, q, key) + [];
    if Appears(rows + [row], q, key) {
      var k :| 0 <= k < |rows + [row]| && Picks(q, key, (rows + [row])[k]);
      assert rows[k] == (rows + [row])[k];
    }
  }

  lemma GroupsGrow(grouped: map<Text, Group>, rows: seq<Observation>, q: Query, row: Observation)
    requires GroupsFit(grouped, rows, q)
    ensures !Matches(q, row) ==> GroupsFit(grouped, rows + [row], q)
    ensures Matches(q, row) ==>
      GroupsFit(grouped[GroupKey(q, row) := GroupedWith(grouped, GroupKey(q, row), row)], rows + [row], q)
  {
    hide GroupFits, GroupedWith, Appears, GroupKey, Matches;
    forall key | !Picks(q, key, row)
      ensures key in grouped ==> GroupFits(grouped[key], rows + [row], q, key)
      ensures Appears(rows + [row], q, key) ==> key in grouped
    {
      OtherGroupsStay(grouped, rows, q, row, key);
    }
    if Matches(q, row) { GroupGrows(grouped, rows, q, row); }
  }

  lemma NothingAppears(q: Query)
    ensures forall key :: !Appears([], q, key)
  {}

  /** Summarises one non-empty group. */
  method Summarise(g: Group, q: Query, key: Text) returns (p: Participant)
    requires g.rows != [] && forall i :: 0 <= i < |g.rows| ==> Picks(q, key, g.rows[i])
    requires q.ParticipantQuery? && FactsIn(g.rows, q, key).Facts? &&
      HoldsPairs(g.instruments, FactsIn(g.rows, q, key).instruments)
    ensures KeyOfParticipant(p) == key && Describes(p, g.rows, q)
  {
    hide HoldsPairs, PairKey, ParticipantKey, ListsPairs, Picks, Describes, SortedSet;
    var rows := g.rows;
    var first := rows[0];
    var firstObservedAt, lastObservedAt, observationCount, compactedObservations :=
        first.firstObservedAt, first.observedAt, 0, 0;
    for n := 0 to |rows|
      invariant n > 0 ==>
        var f := FactsIn(rows[..n], q, key); f.Facts? && f.first == firstObservedAt && f.last == lastObservedAt
      invariant n == 0 ==> firstObservedAt == first.firstObservedAt && lastObservedAt == first.observedAt
      invariant observationCount == CountIn(rows[..n], q, key)
      invariant compactedObservations == CompactedIn(rows[..n], q, key)
    {
      var row := rows[n];
      assert rows[..n + 1][..n] == rows[..n];
      firstObservedAt := Min(firstObservedAt, row.firstObservedAt);
      lastObservedAt := Max(lastObservedAt, row.observedAt);
      observationCount := observationCount + row.observations;
      if row.observationId.None? { compactedObservations := compactedObservations + row.observations; }
    }
    assert rows[..|rows|] == rows;
    p := Participant(first.network, first.address, firstObservedAt, lastObservedAt, observationCount,
                     compactedObservations,
                     SortedSet(set i | 0 <= i < |rows| :: rows[i].source),
                     ListByKey(g.instruments, SortedSet(g.instruments.Keys)));
    SummaryDescribes(p, g, q, key);
  }

  lemma SummaryDescribes(p: Participant, g: Group, q: Query, key: Text)
    requires g.rows != [] && forall i :: 0 <= i < |g.rows| ==> Picks(q, key, g.rows[i])
    requires q.ParticipantQuery? && FactsIn(g.rows, q, key).Facts? &&
      HoldsPairs(g.instruments, FactsIn(g.rows, q, key).instruments)
    requires p.network == g.rows[0].network && p.address == g.rows[0].address
    requires p.firstObservedAt == FactsIn(g.rows, q, key).first && p.lastObservedAt == FactsIn(g.rows, q, key).last
    requires p.observationCount == CountIn(g.rows, q, key) && p.compactedObservations == CompactedIn(g.rows, q, key)
    requires p.sources == SortedSet(set i | 0 <= i < |g.rows| :: g.rows[i].source)
    requires p.instruments == ListByKey(g.instruments, SortedSet(g.instruments.Keys))
    ensures KeyOfParticipant(p) == key && Describes(p, g.rows, q)
  {
    hide HoldsPairs, PairKey, ParticipantKey, ListsPairs, SortedSet, FactsIn, CountIn, CompactedIn;
    SourcesAreCollected(g.rows, q, key);
    HeldPairsAreListed(g.instruments, FactsIn(g.rows, q, key).instruments);
    assert Picks(q, key, g.rows[0]);
  }

  lemma DescribesWhole(p: Participant, rows: seq<Observation>, q: Query)
    requires Describes(p, PickedRows(rows, q, KeyOfParticipant(p)), q)
    ensures Describes(p, rows, q)
  {
    hide FactsIn, CountIn, CompactedIn, ParticipantKey, ListsPairs;
    PickedTotals(rows, q, KeyOfParticipant(p));
  }

  /** The first loop of both views: rows by group key, with the pairs each group names. */
  method GroupRows(stored: seq<Observation>, q: Query) returns (grouped: map<Text, Group>)
    ensures GroupsFit(grouped, stored, q)
  {
    hide GroupFits, Appears, ParticipantKey, InstrumentKey;
    grouped := map[];
    NothingAppears(q);
    for n := 0 to |stored|
      invariant GroupsFit(grouped, stored[..n], q)
    {
      var row := stored[n];
      GroupsGrow(grouped, stored[..n], q, row);
      assert stored[..n + 1] == stored[..n] + [row];
      if !Matches(q, row) { continue; }
      var key := GroupKey(q, row);
      grouped := grouped[key := GroupedWith(grouped, key, row)];
    }
    assert stored[..|stored|] == stored;
  }

  method SummariseFitting(g: Group, stored: seq<Observation>, q: Query, key: Text) returns (p: Participant)
    requires q.ParticipantQuery? && GroupFits(g, stored, q, key)
    ensures KeyOfParticipant(p) == key && Describes(p, stored, q)
  {
    hide FactsIn, CountIn, CompactedIn, ParticipantKey, HoldsPairs, Describes;
    PickedTotals(stored, q, key);
    p := Summarise(g, q, key);
    DescribesWhole(p, stored, q);
  }

  method ParticipantView(stored: seq<Observation>, q: Query) returns (view: seq<Participant>)
    requires q.ParticipantQuery?
    ensures IsParticipantView(view, stored, q)
  {
    hide GroupFits, Appears, Describes, ParticipantKey, Less;
    var grouped := GroupRows(stored, q);
    view := [];
    var keys := SortedSet(grouped.Keys);
    for n := 0 to |keys|
      invariant |view| == n
      invariant forall i :: 0 <= i < n ==> KeyOfParticipant(view[i]) == keys[i] && Describes(view[i], stored, q)
    {
      assert keys[n] in keys;
      var p := SummariseFitting(grouped[keys[n]], stored, q, keys[n]);
      view := view + [p];
    }
    forall key | Appears(stored, q, key) ensures key in KeySet(view, KeyOfParticipant) {
      assert key in keys;
      var i :| 0 <= i < |keys| && keys[i] == key;
      assert KeyOfParticipant(view[i]) == key;
    }
  }

  /** Summarises one instrument's observations. */
  method SummariseInstrument(g: Group, stored: seq<Observation>, q: Query, key: Text) returns (r: InstrumentRecord)
    requires q.InstrumentQuery? && GroupFits(g, stored, q, key)
    ensures KeyOfInstrument(r) == key && DescribesInstrument(r, stored, q)
  {
    hide InstrumentKey, HoldsPairs, PickedRows;
    var rows := g.rows;
    PickedTotals(stored, q, key);
    SourcesAreCollected(rows, q, key);
    var first := rows[0];
    assert Picks(q, key, first);
    var firstObservedAt, lastObservedAt := first.firstObservedAt, first.observedAt;
    for n := 0 to |rows|
      invariant n > 0 ==>
        var f := FactsIn(rows[..n], q, key); f.Facts? && f.first == firstObservedAt && f.last == lastObservedAt
      invariant n == 0 ==> firstObservedAt == first.firstObservedAt && lastObservedAt == first.observedAt
    {
      assert rows[..n + 1][..n] == rows[..n];
      firstObservedAt := Min(firstObservedAt, rows[n].firstObservedAt);
      lastObservedAt := Max(lastObservedAt, rows[n].observedAt);
    }
    assert rows[..|rows|] == rows;
    r := InstrumentRecord(first.network, first.instrument.value, |set i | 0 <= i < |rows| :: rows[i].address|,
                          firstObservedAt, lastObservedAt, SortedSet(set i | 0 <= i < |rows| :: rows[i].source));
  }

  method InstrumentView(stored: seq<Observation>, q: Query) returns (view: seq<InstrumentRecord>)
    requires q.InstrumentQuery?
    ensures IsInstrumentView(view, stored, q)
  {
    hide GroupFits, Appears, DescribesInstrument, InstrumentKey, Less;
    var grouped := GroupRows(stored, q);
    view := [];
    var keys := SortedSet(grouped.Keys);
    for n := 0 to |keys|
      invariant |view| == n
      invariant forall i :: 0 <= i < n ==>
        KeyOfInstrument(view[i]) == keys[i] && DescribesInstrument(view[i], stored, q)
    {
      assert keys[n] in keys;
      var r := SummariseInstrument(grouped[keys[n]], stored, q, keys[n]);
      view := view + [r];
    }
    forall key | Appears(stored, q, key) ensures key in KeySet(view, KeyOfInstrument) {
      assert key in keys;
      var i :| 0 <= i < |keys| && keys[i] == key;
      assert KeyOfInstrument(view[i]) == key;
    }
  }

  /** Observations determine the whole participant view. */
  lemma ParticipantViewIsUnique(a: seq<Participant>, b: seq<Participant>, rows: seq<Observation>, q: Query)
    requires IsParticipantView(a, rows, q) && IsParticipantView(b, rows, q)
    ensures a == b
  {
    hide FactsIn, CountIn, CompactedIn, ParticipantKey, KeysAscend, Describes, KeySet, Appears;
    ViewKeys(a, rows, q);
    ViewKeys(b, rows, q);
    SameKeysSamePlaces(a, b, KeyOfParticipant, KeyOfParticipant);
    var keys, keys' := KeyList(a, KeyOfParticipant), KeyList(b, KeyOfParticipant);
    assert |a| == |keys| == |keys'| == |b|;
    forall i | 0 <= i < |a| ensures a[i] == b[i] {
      assert keys[i] == keys'[i];
      assert a[i] in a && b[i] in b;
      DescriptionsAgree(a[i], b[i], rows, rows, q);
      SameCompacted(a[i], b[i], rows, q);
    }
  }

  lemma SameCompacted(a: Participant, b: Participant, rows: seq<Observation>, q: Query)
    requires Describes(a, rows, q) && Describes(b, rows, q) && KeyOfParticipant(a) == KeyOfParticipant(b)
    ensures a.compactedObservations == b.compactedObservations && a.observationCount == b.observationCount
  {
    hide FactsIn, CountIn, CompactedIn, ParticipantKey;
  }

  lemma InstrumentViewIsUnique(a: seq<InstrumentRecord>, b: seq<InstrumentRecord>, rows: seq<Observation>, q: Query)
    requires IsInstrumentView(a, rows, q) && IsInstrumentView(b, rows, q)
    ensures a == b
  {
    hide FactsIn, InstrumentKey, KeysAscend, DescribesInstrument, KeySet, Appears;
    InstrumentViewKeys(a, rows, q);
    InstrumentViewKeys(b, rows, q);
    SameKeysSamePlaces(a, b, KeyOfInstrument, KeyOfInstrument);
    var keys, keys' := KeyList(a, KeyOfInstrument), KeyList(b, KeyOfInstrument);
    assert |a| == |keys| == |keys'| == |b|;
    forall i | 0 <= i < |a| ensures a[i] == b[i] {
      assert keys[i] == keys'[i];
      assert a[i] in a && b[i] in b;
      InstrumentDescriptionsAgree(a[i], b[i], rows, rows, q);
    }
  }

  lemma JoinedLengths(a: Text, b: Text, c: Text)
    ensures |Join(NUL, [a, b])| == |a| + 1 + |b| && |Join(NUL, [a, b, c])| == |a| + |b| + |c| + 2
  {
    assert [a, b][1..] == [b] && [a, b, c][1..] == [b, c] && [b, c][1..] == [c];
    assert Join(NUL, [b, c]) == b + [NUL] + c;
  }
}
