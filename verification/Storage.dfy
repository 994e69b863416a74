/** packages/market/src/storage.ts: a commit is brought back inside its retention, folding before evicting. */
module Storage {
  import opened Texts
  import opened Outcomes
  import opened Ordering
  import opened Envelopes

  function Max(a: Safe, b: Safe): Safe { if a < b then b else a }

  function Min(a: Safe, b: Safe): Safe { if a < b then a else b }

  function Saturate(value: Safe, added: nat): Safe {
    if value > MAX_SAFE - added then MAX_SAFE else value + added
  }

  // -------------------------------------------------------------- folding

  /** One row for two announcements of one scope. */
  function FoldPair(previous: Observation, current: Observation): Observation {
    previous.(observedAt := Max(previous.observedAt, current.observedAt),
              firstObservedAt := Min(previous.firstObservedAt, current.firstObservedAt),
              observations := Saturate(previous.observations, current.observations),
              observationId := None)
  }

  /** Where a map filled in insertion order holds a scope; its size when it does not. */
  function ScopeIndex(folded: seq<Observation>, scope: Text): (i: nat)
    ensures i <= |folded|
    ensures i < |folded| ==> ObservationScope(folded[i]) == scope
    ensures forall k :: 0 <= k < i ==> ObservationScope(folded[k]) != scope
  {
    if folded == [] || ObservationScope(folded[0]) == scope then 0 else 1 + ScopeIndex(folded[1..], scope)
  }

  function FoldInto(folded: seq<Observation>, row: Observation): seq<Observation> {
    var i := ScopeIndex(folded, ObservationScope(row));
    if i < |folded| then folded[i := FoldPair(folded[i], row)] else folded + [row]
  }

  function FoldRows(rows: seq<Observation>): seq<Observation> {
    if rows == [] then [] else FoldInto(FoldRows(rows[..|rows| - 1]), rows[|rows| - 1])
  }

  /** Every announcement of one participant, instrument and source as one row, in key order. */
  function Fold(rows: seq<Observation>): seq<Observation> { StableSort(FoldRows(rows), ObservationOrder) }

  method FoldObservations(rows: seq<Observation>) returns (r: seq<Observation>)
    ensures r == Fold(rows)
  {
    var folded: seq<Observation> := [];
    for n := 0 to |rows|
      invariant folded == FoldRows(rows[..n])
    {
      var current := rows[n];
      var key := ObservationScope(current);
      var i := ScopeIndex(folded, key);
      assert rows[..n + 1][..n] == rows[..n];
      if i == |folded| {
        folded := folded + [current];
      } else {
        var previous := folded[i];
        folded := folded[i := previous.(
          observedAt := Max(previous.observedAt, current.observedAt),
          firstObservedAt := Min(previous.firstObservedAt, current.firstObservedAt),
          observations := Saturate(previous.observations, current.observations),
          observationId := None)];
      }
    }
    assert rows[..|rows|] == rows;
    r := StableSort(folded, ObservationOrder);
  }

  ghost predicate DistinctScopes(rows: seq<Observation>) { DistinctKeys(rows, ObservationScope) }

  lemma {:induction false} FoldingSeparatesScopes(rows: seq<Observation>)
    ensures DistinctScopes(FoldRows(rows)) && |FoldRows(rows)| <= |rows|
    decreases |rows|
  {
    hide ObservationScope;
    if rows != [] {
      var before, row := FoldRows(rows[..|rows| - 1]), rows[|rows| - 1];
      FoldingSeparatesScopes(rows[..|rows| - 1]);
      var i := ScopeIndex(before, ObservationScope(row));
      if i < |before| { FoldPairKeepsScope(before[i], row); }
    }
  }

  lemma FoldPairKeepsScope(previous: Observation, current: Observation)
    ensures ObservationScope(FoldPair(previous, current)) == ObservationScope(previous)
  {}

  /** Rows of different scopes have different keys. */
  lemma DistinctScopesHaveDistinctKeys(rows: seq<Observation>)
    requires DistinctScopes(rows)
    ensures DistinctKeys(rows, ObservationKey)
  {
    hide ObservationScope;
    forall i, j | 0 <= i < j < |rows| ensures ObservationKey(rows[i]) != ObservationKey(rows[j]) {
      if ObservationKey(rows[i]) == ObservationKey(rows[j]) { KeyDeterminesScope(rows[i], rows[j]); }
    }
  }

  lemma KeyDeterminesScope(a: Observation, b: Observation)
    requires ObservationKey(a) == ObservationKey(b)
    ensures ObservationScope(a) == ObservationScope(b) && a.observationId == b.observationId
  {
    hide Join, Split;
    var f, g := KeyParts(a), KeyParts(b);
    KeyIsJoined(a);
    KeyIsJoined(b);
    SplitJoin(NUL, f);
    SplitJoin(NUL, g);
    assert f == g;
    assert f[0] == g[0] && f[1] == g[1] && f[2] == g[2] && f[3] == g[3] && f[4] == g[4] && f[5] == g[5];
  }

  function KeyParts(row: Observation): (p: seq<Text>)
    ensures p != [] && forall x :: x in p ==> NUL !in x
  {
    [row.network, row.address, BaseOf(row.instrument, []), QuoteOf(row.instrument, []), row.source,
     if row.observationId.Some? then row.observationId.value else []]
  }

  lemma KeyIsJoined(row: Observation)
    ensures ObservationKey(row) == Join(NUL, KeyParts(row))
  {
    var p := KeyParts(row);
    JoinAppend(NUL, p[..5], p[5]);
    assert p[..5] + [p[5]] == p;
    assert p[..5] == [p[0], p[1], p[2], p[3], p[4]];
  }

  lemma {:induction false} JoinAppend(sep: CodeUnit, parts: seq<Text>, last: Text)
    requires parts != []
    ensures Join(sep, parts + [last]) == Join(sep, parts) + [sep] + last
    decreases |parts|
  {
    var all := parts + [last];
    if |parts| == 1 {
      assert all[1..] == [last];
    } else {
      JoinAppend(sep, parts[1..], last);
      assert all[1..] == parts[1..] + [last];
    }
  }

  lemma FoldKeys(rows: seq<Observation>)
    ensures DistinctKeys(Fold(rows), ObservationKey) && |Fold(rows)| <= |rows|
  {
    hide StableSort, FoldRows, ObservationKey, ObservationOrder, DistinctKeys;
    FoldingSeparatesScopes(rows);
    DistinctScopesHaveDistinctKeys(FoldRows(rows));
    SortedRowsAreRows(FoldRows(rows), ObservationOrder);
    SameRowsSameKeys(Fold(rows), FoldRows(rows), ObservationKey);
  }

  // ----------------------------------------------------------- compaction

  function KeptObservations(rows: seq<Observation>, most: nat): seq<Observation> {
    if |rows| <= most then rows else Survivors(Fold(rows), most, ObservationAge, ObservationKey)
  }

  function KeptOffers(rows: seq<Offer>, most: nat): seq<Offer> { Survivors(rows, most, OfferAge, OfferKey) }

  function KeptCheckpoints(rows: seq<Checkpoint>, most: nat): seq<Checkpoint> {
    Survivors(rows, most, CheckpointAge, CheckpointKey)
  }

  function KeptQuarantine(rows: seq<Rejected>, most: nat): seq<Rejected> {
    if |rows| <= most then rows else rows[|rows| - most..]
  }

  /** How many rows an eviction down to `most` is asked to take. */
  function Excess(size: nat, most: nat): nat { if size > most then size - most else 0 }

  /** What one compaction adds to the counters. */
  function CompactedReport(candidate: Envelope, retention: Retention): Report {
    var r, full := candidate.retention, |candidate.observations| > retention.maxObservations;
    var folded := if full then |candidate.observations| - |Fold(candidate.observations)| else 0;
    Report(
      if full then (FoldKeys(candidate.observations); Saturate(r.foldedObservations, folded)) else r.foldedObservations,
      if full then Saturate(r.droppedObservations, Excess(|Fold(candidate.observations)|, retention.maxObservations))
      else r.droppedObservations,
      Saturate(r.droppedOffers, Excess(|candidate.offers|, retention.maxOffers)),
      Saturate(r.droppedCheckpoints, Excess(|candidate.checkpoints|, retention.maxCheckpoints)),
      Saturate(r.droppedQuarantine, Excess(|candidate.quarantine|, retention.maxQuarantine)))
  }

  /** Brings a candidate inside its retention under the revision it will be committed as. */
  function Compact(candidate: Envelope, retention: Retention, revision: nat): Envelope {
    candidate.(
      revision := revision,
      catalogRevision := if |candidate.observations| > retention.maxObservations then revision
                         else candidate.catalogRevision,
      offerRevision := if |candidate.offers| > retention.maxOffers then revision else candidate.offerRevision,
      observations := KeptObservations(candidate.observations, retention.maxObservations),
      offers := KeptOffers(candidate.offers, retention.maxOffers),
      checkpoints := KeptCheckpoints(candidate.checkpoints, retention.maxCheckpoints),
      quarantine := KeptQuarantine(candidate.quarantine, retention.maxQuarantine),
      retention := CompactedReport(candidate, retention))
  }

  /** Every table holds one row a key. */
  ghost predicate UniqueKeys(e: Envelope) {
    && DistinctKeys(e.observations, ObservationKey)
    && DistinctKeys(e.offers, OfferKey)
    && DistinctKeys(e.checkpoints, CheckpointKey)
  }

  ghost predicate Within(e: Envelope, retention: Retention) {
    && |e.observations| <= retention.maxObservations && |e.offers| <= retention.maxOffers
    && |e.checkpoints| <= retention.maxCheckpoints && |e.quarantine| <= retention.maxQuarantine
  }

  lemma KeptObservationsBound(rows: seq<Observation>, most: nat)
    requires DistinctKeys(rows, ObservationKey)
    ensures var kept := KeptObservations(rows, most);
      DistinctKeys(kept, ObservationKey) && |kept| <= most && (|rows| <= most ==> kept == rows)
    ensures |rows| > most ==>
      |Fold(rows)| <= |rows| && |KeptObservations(rows, most)| == |Fold(rows)| - Excess(|Fold(rows)|, most)
  {
    hide Fold, Survivors, ObservationKey, ObservationAge, DistinctKeys, KeySet;
    if |rows| > most {
      FoldKeys(rows);
      EvictionReachesItsBound(Fold(rows), most, ObservationAge, ObservationKey);
    }
  }

  /** Every table ends within its bound, and keys stay unique. */
  lemma CompactionReachesEveryBound(candidate: Envelope, retention: Retention, revision: nat)
    requires UniqueKeys(candidate)
    ensures var after := Compact(candidate, retention, revision);
      && UniqueKeys(after) && Within(after, retention)
      && (Within(candidate, retention) ==> after == candidate.(revision := revision))
      && (forall row :: row in after.offers ==> row in candidate.offers)
      && (forall row :: row in after.checkpoints ==> row in candidate.checkpoints)
      && (KeysAscend(candidate.offers, OfferKey) ==> KeysAscend(after.offers, OfferKey))
      && (KeysAscend(candidate.checkpoints, CheckpointKey) ==> KeysAscend(after.checkpoints, CheckpointKey))
  {
    hide KeptObservations, Survivors, Fold, ObservationKey, OfferKey, CheckpointKey, OfferAge, CheckpointAge;
    hide DistinctKeys, KeysAscend, KeySet;
    KeptObservationsBound(candidate.observations, retention.maxObservations);
    EvictionReachesItsBound(candidate.offers, retention.maxOffers, OfferAge, OfferKey);
    EvictionReachesItsBound(candidate.checkpoints, retention.maxCheckpoints, CheckpointAge, CheckpointKey);
    if Within(candidate, retention) { RoomyCompaction(candidate, retention, revision); }
  }

  lemma RoomyCompaction(candidate: Envelope, retention: Retention, revision: nat)
    requires Within(candidate, retention)
    ensures Compact(candidate, retention, revision) == candidate.(revision := revision)
  {
    hide Fold, StableSort, Without, KeySet;
  }

  /** What a counter shows of `n` rows: all of them, up to the greatest number it can hold. */
  function Shown(n: nat): Safe { if n > MAX_SAFE then MAX_SAFE else n }

  /** How many rows merging the scopes of a full table takes away. */
  function FoldedAway(rows: seq<Observation>, most: nat): int {
    if |rows| > most then |rows| - |Fold(rows)| else 0
  }

  /**
   * Nothing leaves unreported: rows before are rows after plus what the counters count, table
   * by table, and a counter stops only at the greatest number it can hold.
   */
  lemma CompactionConservesRows(candidate: Envelope, retention: Retention, revision: nat)
    requires UniqueKeys(candidate)
    ensures var before, after := candidate.retention, Compact(candidate, retention, revision).retention;
      var kept := Compact(candidate, retention, revision);
      var folded := FoldedAway(candidate.observations, retention.maxObservations);
      && 0 <= folded <= |candidate.observations| - |kept.observations|
      && after.foldedObservations == Shown(before.foldedObservations + folded)
      && after.droppedObservations
           == Shown(before.droppedObservations + (|candidate.observations| - |kept.observations| - folded))
      && |kept.offers| <= |candidate.offers|
      && after.droppedOffers == Shown(before.droppedOffers + (|candidate.offers| - |kept.offers|))
      && |kept.checkpoints| <= |candidate.checkpoints|
      && after.droppedCheckpoints == Shown(before.droppedCheckpoints + (|candidate.checkpoints| - |kept.checkpoints|))
      && |kept.quarantine| <= |candidate.quarantine|
      && after.droppedQuarantine == Shown(before.droppedQuarantine + (|candidate.quarantine| - |kept.quarantine|))
  {
    hide KeptObservations, Survivors, Fold, ObservationKey, OfferKey, CheckpointKey, OfferAge, CheckpointAge;
    hide DistinctKeys, KeysAscend, KeySet;
    KeptObservationsBound(candidate.observations, retention.maxObservations);
    EvictionReachesItsBound(candidate.offers, retention.maxOffers, OfferAge, OfferKey);
    EvictionReachesItsBound(candidate.checkpoints, retention.maxCheckpoints, CheckpointAge, CheckpointKey);
  }

  /** When an offer was settled, or else when it was last reported. */
  function SettledOrSeen(o: Offer): Safe { if o.settledAt.Some? then o.settledAt.value else o.seenAt }

  /**
   * An open offer is evicted only when no settled offer survives. Within a group the least
   * recently observed goes first, then the least recently settled or seen, then the lesser hash.
   */
  lemma OpenOffersLeaveLast(candidate: Envelope, retention: Retention, revision: nat, gone: Offer, kept: Offer)
    requires DistinctKeys(candidate.offers, OfferKey) && gone in candidate.offers
    requires gone !in Compact(candidate, retention, revision).offers
    requires kept in Compact(candidate, retention, revision).offers
    ensures gone.state == Open ==> kept.state == Open
    ensures (gone.state == Open <==> kept.state == Open) ==>
      || gone.lastObservedAt < kept.lastObservedAt
      || (gone.lastObservedAt == kept.lastObservedAt && SettledOrSeen(gone) < SettledOrSeen(kept))
      || (gone.lastObservedAt == kept.lastObservedAt && SettledOrSeen(gone) == SettledOrSeen(kept)
          && (gone.hash == kept.hash || Less(gone.hash, kept.hash)))
  {
    hide Survivors, OfferKey, DistinctKeys, KeptObservations, KeptCheckpoints, KeptQuarantine, CompactedReport;
    EvictionTakesTheFirst(candidate.offers, retention.maxOffers, OfferAge, OfferKey, gone, kept);
    LessTrichotomy(gone.hash, kept.hash);
  }

  /** Of the folded log, the least recently observed rows go first, and at one time the lesser keys. */
  lemma OldestObservationsLeaveFirst(
      candidate: Envelope, retention: Retention, revision: nat, gone: Observation, kept: Observation)
    requires |candidate.observations| > retention.maxObservations && gone in Fold(candidate.observations)
    requires gone !in Compact(candidate, retention, revision).observations
    requires kept in Compact(candidate, retention, revision).observations
    ensures kept in Fold(candidate.observations)
    ensures
      || gone.observedAt < kept.observedAt
      || (gone.observedAt == kept.observedAt && Less(ObservationKey(gone), ObservationKey(kept)))
  {
    hide Survivors, Fold, ObservationKey, DistinctKeys, KeptOffers, KeptCheckpoints, KeptQuarantine, CompactedReport;
    var rows := Fold(candidate.observations);
    FoldKeys(candidate.observations);
    EvictionTakesTheFirst(rows, retention.maxObservations, ObservationAge, ObservationKey, gone, kept);
    EvictionReachesItsBound(rows, retention.maxObservations, ObservationAge, ObservationKey);
    LessTrichotomy(ObservationKey(gone), ObservationKey(kept));
    if ObservationKey(gone) == ObservationKey(kept) { SameKeySameRow(rows, gone, kept, ObservationKey); }
  }

  /** So do the oldest watermarks. */
  lemma OldestCheckpointsLeaveFirst(
      candidate: Envelope, retention: Retention, revision: nat, gone: Checkpoint, kept: Checkpoint)
    requires DistinctKeys(candidate.checkpoints, CheckpointKey) && gone in candidate.checkpoints
    requires gone !in Compact(candidate, retention, revision).checkpoints
    requires kept in Compact(candidate, retention, revision).checkpoints
    ensures
      || gone.observedAt < kept.observedAt
      || (gone.observedAt == kept.observedAt && Less(CheckpointKey(gone), CheckpointKey(kept)))
  {
    hide Survivors, CheckpointKey, DistinctKeys, KeptObservations, KeptOffers, KeptQuarantine, CompactedReport;
    var rows := candidate.checkpoints;
    EvictionTakesTheFirst(rows, retention.maxCheckpoints, CheckpointAge, CheckpointKey, gone, kept);
    EvictionReachesItsBound(rows, retention.maxCheckpoints, CheckpointAge, CheckpointKey);
    LessTrichotomy(CheckpointKey(gone), CheckpointKey(kept));
    if CheckpointKey(gone) == CheckpointKey(kept) { SameKeySameRow(rows, gone, kept, CheckpointKey); }
  }

  /** The diagnostics kept are the latest ones, as many as there is room for. */
  lemma LatestDiagnosticsStay(candidate: Envelope, retention: Retention, revision: nat)
    ensures var all, kept := candidate.quarantine, Compact(candidate, retention, revision).quarantine;
      && |kept| == (if |all| < retention.maxQuarantine then |all| else retention.maxQuarantine)
      && kept == all[|all| - |kept|..]
  {
    hide KeptObservations, KeptOffers, KeptCheckpoints, CompactedReport;
    assert candidate.quarantine[0..] == candidate.quarantine;
  }

  /** A table within its bound is left alone, and so is the revision that stands for it. */
  lemma RoomyTablesAreUntouched(candidate: Envelope, retention: Retention, revision: nat)
    ensures var after := Compact(candidate, retention, revision);
      && after.cursorKey == candidate.cursorKey && after.revision == revision
      && (|candidate.observations| <= retention.maxObservations ==>
            after.observations == candidate.observations && after.catalogRevision == candidate.catalogRevision)
      && (|candidate.offers| <= retention.maxOffers ==>
            after.offers == candidate.offers && after.offerRevision == candidate.offerRevision)
      && (|candidate.checkpoints| <= retention.maxCheckpoints ==> after.checkpoints == candidate.checkpoints)
      && (|candidate.quarantine| <= retention.maxQuarantine ==> after.quarantine == candidate.quarantine)
  {
    hide Fold, StableSort, Without, KeySet, CompactedReport;
  }

  /** Observations or offers that change in a compaction carry the new revision. */
  lemma CompactionMarksWhatItMoves(candidate: Envelope, retention: Retention, revision: nat)
    ensures var after := Compact(candidate, retention, revision);
      && (after.observations != candidate.observations ==> after.catalogRevision == revision)
      && (after.offers != candidate.offers ==> after.offerRevision == revision)
      && (after.catalogRevision == revision || after.catalogRevision == candidate.catalogRevision)
      && (after.offerRevision == revision || after.offerRevision == candidate.offerRevision)
  {
    hide Fold, Without, KeySet, CompactedReport, StableSort;
  }
}
