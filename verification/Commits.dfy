/**
 * What one write does to an envelope.
 *
 * `announce` in packages/market/src/catalog.ts appends a discovery row, unless its id is
 * known; `materialize` in packages/market/src/store.ts merges a page of reported offers,
 * moves one watermark and keeps diagnostics. The commit around both, in
 * packages/market/src/storage.ts, compacts the result under the next revision and refuses
 * what it could not load again.
 */
module Commits {
  import opened Texts
  import opened Outcomes
  import opened Ordering
  import opened Envelopes
  import opened Storage
  import opened Reconcile
  import opened Watermarks

  const MAX_PAGE_ROWS: nat := 256

  datatype Refusal = ObservationConflict | BadRow | BadStorage | StorageConflict

  // ------------------------------------------------------------ announcing

  /** A fresh announcement: one observation, with its own id. */
  predicate IsAnnouncement(row: Observation) {
    row.observations == 1 && row.firstObservedAt == row.observedAt && row.observationId.Some?
  }

  predicate SameId(candidate: Observation, row: Observation) {
    && candidate.observationId.Some? && candidate.network == row.network && candidate.source == row.source
    && candidate.observationId == row.observationId
  }

  function IdIndex(rows: seq<Observation>, row: Observation): (i: nat)
    ensures i <= |rows|
    ensures i < |rows| ==> SameId(rows[i], row)
    ensures forall k :: 0 <= k < i ==> !SameId(rows[k], row)
  {
    if rows == [] || SameId(rows[0], row) then 0 else 1 + IdIndex(rows[1..], row)
  }

  /** A repeated id must repeat its facts; a new one is appended under a new catalog revision. */
  function AnnounceChange(current: Envelope, row: Observation): Result<(Envelope, Answer), Refusal> {
    var i := IdIndex(current.observations, row);
    if i < |current.observations| then
      if current.observations[i] == row then Ok((current, Announced(false))) else Err(ObservationConflict)
    else
      Ok((current.(catalogRevision := current.catalogRevision + 1, observations := current.observations + [row]),
          Announced(true)))
  }

  // --------------------------------------------------------- materializing

  datatype Page = Page(offers: seq<Offer>, checkpoint: Checkpoint, rejected: seq<Rejected>)

  /** A page the store accepts: bounded, of well-formed reports, all from its checkpoint's source and scope. */
  predicate PageFits(page: Page) {
    && |page.offers| <= MAX_PAGE_ROWS && |page.rejected| <= MAX_PAGE_ROWS
    && forall o :: o in page.offers ==>
         && IsReport(o) && o.network == page.checkpoint.network && page.checkpoint.source in o.sources
         && (page.checkpoint.instrument.Some? ==>
               o.giveAsset == page.checkpoint.instrument.value.base &&
               o.wantAsset == page.checkpoint.instrument.value.quote)
  }

  /** The state of the merge loop: rows by key, diagnostics, and the receipt's counters. */
  datatype Merging = Merging(
    records: map<Text, Offer>, quarantine: seq<Rejected>, inserted: nat, updated: nat, same: nat, conflicts: nat)

  function RejectedFor(reason: Text, offer: Offer, checkpoint: Checkpoint): Rejected {
    Rejected(offer.network, checkpoint.source, checkpoint.account, checkpoint.observedAt, reason + offer.hash)
  }

  function MergeOne(m: Merging, offer: Offer, checkpoint: Checkpoint): Merging {
    var key := OfferKey(offer);
    if key !in m.records then m.(records := m.records[key := offer], inserted := m.inserted + 1)
    else match ReconcileOffer(m.records[key], offer)
         case Conflict =>
           m.(conflicts := m.conflicts + 1,
              quarantine := m.quarantine + [RejectedFor(Ascii("immutable-conflict:"), offer, checkpoint)])
         case Overflow =>
           m.(conflicts := m.conflicts + 1,
              quarantine := m.quarantine + [RejectedFor(Ascii("provenance-overflow:"), offer, checkpoint)])
         case Merged(row, changed) =>
           m.(records := m.records[key := row],
              updated := m.updated + (if changed then 1 else 0), same := m.same + (if changed then 0 else 1))
  }

  function MergePage(m: Merging, offers: seq<Offer>, checkpoint: Checkpoint): Merging {
    if offers == [] then m
    else MergeOne(MergePage(m, offers[..|offers| - 1], checkpoint), offers[|offers| - 1], checkpoint)
  }

  /** The loop of `materialize`. */
  method MergeOffers(start: Merging, offers: seq<Offer>, checkpoint: Checkpoint) returns (m: Merging)
    ensures m == MergePage(start, offers, checkpoint)
  {
    hide ReconcileOffer, OfferKey;
    var records, quarantine := start.records, start.quarantine;
    var inserted, updated, same, conflicts := start.inserted, start.updated, start.same, start.conflicts;
    for n := 0 to |offers|
      invariant Merging(records, quarantine, inserted, updated, same, conflicts)
        == MergePage(start, offers[..n], checkpoint)
    {
      var offer := offers[n];
      var key := OfferKey(offer);
      assert offers[..n + 1][..n] == offers[..n];
      if key !in records {
        records := records[key := offer];
        inserted := inserted + 1;
      } else {
        match ReconcileOffer(records[key], offer) {
          case Conflict =>
            conflicts := conflicts + 1;
            quarantine := quarantine + [RejectedFor(Ascii("immutable-conflict:"), offer, checkpoint)];
          case Overflow =>
            conflicts := conflicts + 1;
            quarantine := quarantine + [RejectedFor(Ascii("provenance-overflow:"), offer, checkpoint)];
          case Merged(row, changed) =>
            records := records[key := row];
            if changed { updated := updated + 1; } else { same := same + 1; }
        }
      }
    }
    assert offers[..|offers|] == offers;
    m := Merging(records, quarantine, inserted, updated, same, conflicts);
  }

  /** `new Map(rows.map((row) => [key(row), row]))`. */
  function Records(rows: seq<Offer>): map<Text, Offer> {
    if rows == [] then map[] else Records(rows[..|rows| - 1])[OfferKey(rows[|rows| - 1]) := rows[|rows| - 1]]
  }

  /** `[...records.values()].sort(...)` by key. */
  function Listing(records: map<Text, Offer>): (r: seq<Offer>)
    ensures |r| == |records.Keys|
  {
    ListByKey(records, SortedSet(records.Keys))
  }

  function KeyIndex(rows: seq<Checkpoint>, key: Text): (i: nat)
    ensures i <= |rows|
    ensures i < |rows| ==> CheckpointKey(rows[i]) == key
    ensures forall k :: 0 <= k < i ==> CheckpointKey(rows[k]) != key
  {
    if rows == [] || CheckpointKey(rows[0]) == key then 0 else 1 + KeyIndex(rows[1..], key)
  }

  /** Replaces the watermark of its scope by a greater one, or adds it. */
  function Submit(rows: seq<Checkpoint>, checkpoint: Checkpoint): seq<Checkpoint> {
    var i := KeyIndex(rows, CheckpointKey(checkpoint));
    if i == |rows| then rows + [checkpoint]
    else if CompareCheckpoint(checkpoint, rows[i]) > 0 then rows[i := checkpoint]
    else rows
  }

  datatype Receipt = Receipt(inserted: nat, updated: nat, same: nat, conflicts: nat, quarantined: nat)

  datatype Answer = Announced(inserted: bool) | Materialized(receipt: Receipt)

  function MergeInto(current: Envelope, page: Page): Merging {
    MergePage(Merging(Records(current.offers), current.quarantine, 0, 0, 0, 0), page.offers, page.checkpoint)
  }

  function MaterializeChange(current: Envelope, page: Page): (Envelope, Answer) {
    var m := MergeInto(current, page);
    (current.(offerRevision := current.offerRevision + (if m.inserted > 0 || m.updated > 0 then 1 else 0),
              offers := Listing(m.records),
              checkpoints := StableSort(Submit(current.checkpoints, page.checkpoint), CheckpointPlace),
              quarantine := m.quarantine + page.rejected),
     Materialized(Receipt(m.inserted, m.updated, m.same, m.conflicts, |page.rejected| + m.conflicts)))
  }

  // ------------------------------------------------------------ committing

  datatype Write = Announce(row: Observation) | Materialize(page: Page)

  /** What both entry points check before storage is touched. */
  predicate Admissible(w: Write) {
    match w
    case Announce(row) => IsAnnouncement(row)
    case Materialize(page) => PageFits(page)
  }

  function Change(w: Write, current: Envelope): Result<(Envelope, Answer), Refusal> {
    match w
    case Announce(row) => AnnounceChange(current, row)
    case Materialize(page) => Ok(MaterializeChange(current, page))
  }

  /** The envelope a write would replace `current` with, already compacted and validated. */
  function Commit(w: Write, retention: Retention, current: Envelope): Result<(Envelope, Answer), Refusal> {
    match Change(w, current)
    case Err(refusal) => Err(refusal)
    case Ok(changed) =>
      if current.revision + 1 > MAX_SAFE then Err(BadStorage)
      else Ok((Compact(changed.0, retention, current.revision + 1), changed.1))
  }

  // ------------------------------------------------------------ invariants

  /** What every stored envelope satisfies. */
  ghost predicate EnvelopeInv(e: Envelope) {
    && e.catalogRevision <= e.revision <= MAX_SAFE && e.offerRevision <= e.revision
    && DistinctKeys(e.observations, ObservationKey)
    && KeysAscend(e.offers, OfferKey)
    && DistinctKeys(e.checkpoints, CheckpointKey)
    && (forall o :: o in e.offers ==> IsStored(o))
  }

  lemma EmptyEnvelopeFits(cursorKey: Text)
    ensures EnvelopeInv(EmptyEnvelope(cursorKey))
    ensures var e := EmptyEnvelope(cursorKey);
      && e.revision == e.catalogRevision == e.offerRevision == 0 && e.cursorKey == cursorKey
      && e.observations == [] && e.offers == [] && e.checkpoints == [] && e.quarantine == []
      && e.retention.foldedObservations == e.retention.droppedObservations == e.retention.droppedOffers
         == e.retention.droppedCheckpoints == e.retention.droppedQuarantine == 0
  {}

  /** Rows filed under their own keys, all well formed. */
  ghost predicate RecordsFit(records: map<Text, Offer>) {
    forall k :: k in records ==> OfferKey(records[k]) == k && IsStored(records[k])
  }

  lemma {:induction false} RecordsHoldRows(rows: seq<Offer>)
    requires forall o :: o in rows ==> IsStored(o)
    ensures RecordsFit(Records(rows)) && Records(rows).Keys == KeySet(rows, OfferKey)
    decreases |rows|
  {
    hide OfferKey, IsStored, KeySet;
    if rows != [] {
      var n := |rows| - 1;
      assert rows == rows[..n] + [rows[n]];
      assert rows[n] in rows && forall o :: o in rows[..n] ==> o in rows;
      RecordsHoldRows(rows[..n]);
      KeySetAppend(rows[..n], rows[n], OfferKey);
    }
  }

  lemma {:induction false} RecordsFindRows(rows: seq<Offer>, i: nat)
    requires DistinctKeys(rows, OfferKey) && i < |rows|
    ensures OfferKey(rows[i]) in Records(rows) && Records(rows)[OfferKey(rows[i])] == rows[i]
    decreases |rows|
  {
    hide OfferKey;
    var n := |rows| - 1;
    if i < n { RecordsFindRows(rows[..n], i); }
  }

  lemma RecordsAreFiled(rows: seq<Offer>)
    requires DistinctKeys(rows, OfferKey) && forall o :: o in rows ==> IsStored(o)
    ensures RecordsFit(Records(rows))
    ensures Records(rows).Keys == KeySet(rows, OfferKey)
    ensures forall i :: 0 <= i < |rows| ==>
      OfferKey(rows[i]) in Records(rows) && Records(rows)[OfferKey(rows[i])] == rows[i]
  {
    hide *;
    RecordsHoldRows(rows);
    forall i | 0 <= i < |rows|
      ensures OfferKey(rows[i]) in Records(rows) && Records(rows)[OfferKey(rows[i])] == rows[i] {
      RecordsFindRows(rows, i);
    }
  }

  lemma ListingIsSorted(records: map<Text, Offer>)
    requires RecordsFit(records)
    ensures KeysAscend(Listing(records), OfferKey)
    ensures forall o :: o in Listing(records) ==> IsStored(o)
    ensures forall k :: k in records ==> records[k] in Listing(records)
  {
    hide OfferKey, IsStored, Less, SortedSet;
    var keys, rows := SortedSet(records.Keys), Listing(records);
    forall i | 0 <= i < |rows| ensures keys[i] in records && rows[i] == records[keys[i]] { assert keys[i] in keys; }
    forall k | k in records ensures records[k] in rows {
      assert k in keys;
      var i :| 0 <= i < |keys| && keys[i] == k;
      assert rows[i] == records[k];
    }
  }

  /** Listing the records of an ordered table gives the table back. */
  lemma ListingOfRecords(rows: seq<Offer>)
    requires KeysAscend(rows, OfferKey) && forall o :: o in rows ==> IsStored(o)
    ensures Listing(Records(rows)) == rows
  {
    hide OfferKey, IsStored, Records, KeysAscend;
    AscendingKeysAreDistinct(rows, OfferKey);
    RecordsAreFiled(rows);
    ListingIsSorted(Records(rows));
    var listed := Listing(Records(rows));
    forall o | o in rows ensures o in listed {
      var i :| 0 <= i < |rows| && rows[i] == o;
      assert Records(rows)[OfferKey(rows[i])] in listed;
    }
    forall o | o in listed ensures o in rows { ListedIsRecorded(Records(rows), rows, o); }
    AscendingRowsUnique(listed, rows, OfferKey);
  }

  lemma ListedIsRecorded(records: map<Text, Offer>, rows: seq<Offer>, o: Offer)
    requires records.Keys == KeySet(rows, OfferKey)
    requires forall i :: 0 <= i < |rows| ==> OfferKey(rows[i]) in records && records[OfferKey(rows[i])] == rows[i]
    requires o in Listing(records)
    ensures o in rows
  {
    hide OfferKey, SortedSet;
    var keys := SortedSet(records.Keys);
    var i :| 0 <= i < |keys| && Listing(records)[i] == o;
    assert keys[i] in keys;
    assert keys[i] in KeySet(rows, OfferKey);
    var j :| 0 <= j < |rows| && OfferKey(rows[j]) == keys[i];
  }

  lemma MergeOneKeepsRecords(m: Merging, offer: Offer, checkpoint: Checkpoint)
    requires RecordsFit(m.records) && IsReport(offer)
    ensures var after := MergeOne(m, offer, checkpoint);
      && RecordsFit(after.records)
      && m.inserted + m.updated <= after.inserted + after.updated
      && (after.inserted + after.updated == m.inserted + m.updated ==> SameButTimes(m.records, after.records))
  {
    hide OfferKey, IsStored, ReconcileOffer, Timeless;
    var key := OfferKey(offer);
    if key !in m.records {
      ReportIsStored(offer);
    } else if ReconcileOffer(m.records[key], offer).Merged? {
      MergeKeepsStored(m.records[key], offer);
      ChangedIsExact(m.records[key], offer);
    }
  }

  /** The same rows, up to the two observation times a silent merge may move. */
  ghost predicate SameButTimes(a: map<Text, Offer>, b: map<Text, Offer>) {
    a.Keys == b.Keys && forall k :: k in a && k in b ==> Timeless(a[k]) == Timeless(b[k])
  }

  lemma {:induction false} MergePageKeepsRecords(m: Merging, offers: seq<Offer>, checkpoint: Checkpoint)
    requires RecordsFit(m.records) && forall o :: o in offers ==> IsReport(o)
    ensures var after := MergePage(m, offers, checkpoint);
      && RecordsFit(after.records)
      && m.inserted + m.updated <= after.inserted + after.updated
      && (after.inserted + after.updated == m.inserted + m.updated ==> SameButTimes(m.records, after.records))
    decreases |offers|
  {
    hide RecordsFit, MergeOne, IsReport, Timeless;
    if offers != [] {
      var n := |offers| - 1;
      assert forall o :: o in offers[..n] ==> o in offers;
      assert offers[n] in offers;
      MergePageKeepsRecords(m, offers[..n], checkpoint);
      MergeOneKeepsRecords(MergePage(m, offers[..n], checkpoint), offers[n], checkpoint);
    }
  }

  /** Rows side by side, equal but for the two observation times. */
  ghost predicate SameVisible(a: seq<Offer>, b: seq<Offer>) {
    |a| == |b| && forall i :: 0 <= i < |a| ==> Timeless(a[i]) == Timeless(b[i])
  }

  lemma ListingsSideBySide(a: map<Text, Offer>, b: map<Text, Offer>)
    requires SameButTimes(a, b)
    ensures SameVisible(Listing(a), Listing(b))
  {
    hide Timeless, SortedSet;
    var keys := SortedSet(a.Keys);
    assert keys == SortedSet(b.Keys);
    forall i | 0 <= i < |keys| ensures Timeless(Listing(a)[i]) == Timeless(Listing(b)[i]) { assert keys[i] in keys; }
  }

  lemma {:induction false} SubmitKeepsKeys(rows: seq<Checkpoint>, checkpoint: Checkpoint)
    requires DistinctKeys(rows, CheckpointKey)
    ensures DistinctKeys(StableSort(Submit(rows, checkpoint), CheckpointPlace), CheckpointKey)
  {
    hide CheckpointKey, CompareCheckpoint, StableSort;
    var sorted := StableSort(Submit(rows, checkpoint), CheckpointPlace);
    SortedRowsAreRows(Submit(rows, checkpoint), CheckpointPlace);
    SameRowsSameKeys(sorted, Submit(rows, checkpoint), CheckpointKey);
  }

  lemma SameKeySameId(a: Observation, b: Observation)
    requires ObservationKey(a) == ObservationKey(b) && b.observationId.Some?
    ensures SameId(a, b)
  {
    hide ObservationKey, ObservationScope;
    KeyDeterminesScope(a, b);
    ScopeIsInjective(a, b);
  }

  lemma AnnounceKeepsKeys(current: Envelope, row: Observation)
    requires DistinctKeys(current.observations, ObservationKey) && IsAnnouncement(row)
    requires IdIndex(current.observations, row) == |current.observations|
    ensures DistinctKeys(current.observations + [row], ObservationKey)
  {
    hide ObservationKey, IdIndex;
    var rows := current.observations;
    forall i | 0 <= i < |rows| ensures ObservationKey(rows[i]) != ObservationKey(row) {
      if ObservationKey(rows[i]) == ObservationKey(row) {
        SameKeySameId(rows[i], row);
      }
    }
  }

  lemma AnnounceFacts(current: Envelope, row: Observation)
    requires EnvelopeInv(current) && IsAnnouncement(row) && AnnounceChange(current, row).Ok?
    ensures var next := AnnounceChange(current, row).value.0;
      && next.offers == current.offers && next.checkpoints == current.checkpoints
      && next.revision == current.revision && next.cursorKey == current.cursorKey
      && next.offerRevision == current.offerRevision
      && DistinctKeys(next.observations, ObservationKey)
      && current.catalogRevision <= next.catalogRevision <= current.revision + 1
      && (next.catalogRevision == current.catalogRevision ==> next.observations == current.observations)
  {
    hide ObservationKey, DistinctKeys, KeysAscend;
    if IdIndex(current.observations, row) == |current.observations| { AnnounceKeepsKeys(current, row); }
  }

  lemma MaterializeFacts(current: Envelope, page: Page)
    requires EnvelopeInv(current) && PageFits(page)
    ensures var next := MaterializeChange(current, page).0;
      && next.observations == current.observations && next.catalogRevision == current.catalogRevision
      && next.revision == current.revision && next.cursorKey == current.cursorKey
      && current.offerRevision <= next.offerRevision <= current.revision + 1
      && KeysAscend(next.offers, OfferKey) && DistinctKeys(next.checkpoints, CheckpointKey)
      && (forall o :: o in next.offers ==> IsStored(o))
      && (next.offerRevision == current.offerRevision ==> SameVisible(current.offers, next.offers))
  {
    hide ObservationKey, OfferKey, CheckpointKey, KeysAscend, DistinctKeys, Records, MergePage, Submit;
    hide StableSort, IsStored, IsReport, SameVisible, Listing, RecordsFit;
    var m := MergeInto(current, page);
    AscendingKeysAreDistinct(current.offers, OfferKey);
    RecordsHoldRows(current.offers);
    MergePageKeepsRecords(Merging(Records(current.offers), current.quarantine, 0, 0, 0, 0), page.offers,
        page.checkpoint);
    ListingIsSorted(m.records);
    SubmitKeepsKeys(current.checkpoints, page.checkpoint);
    if m.inserted + m.updated == 0 {
      ListingsSideBySide(Records(current.offers), m.records);
      ListingOfRecords(current.offers);
    }
  }

  /** What any change function may do to the envelope it was given. */
  ghost predicate ChangeFits(current: Envelope, next: Envelope) {
    && next.revision == current.revision && next.cursorKey == current.cursorKey
    && UniqueKeys(next) && KeysAscend(next.offers, OfferKey) && (forall o :: o in next.offers ==> IsStored(o))
    && current.catalogRevision <= next.catalogRevision <= current.revision + 1
    && current.offerRevision <= next.offerRevision <= current.revision + 1
    && (next.catalogRevision == current.catalogRevision ==> next.observations == current.observations)
    && (next.offerRevision == current.offerRevision ==> SameVisible(current.offers, next.offers))
  }

  lemma ChangeFacts(w: Write, current: Envelope)
    requires EnvelopeInv(current) && Admissible(w) && Change(w, current).Ok?
    ensures ChangeFits(current, Change(w, current).value.0)
  {
    hide ObservationKey, OfferKey, CheckpointKey, KeysAscend, DistinctKeys, AnnounceChange, MaterializeChange;
    hide IsStored, PageFits, IsAnnouncement;
    AscendingKeysAreDistinct(current.offers, OfferKey);
    match w
    case Announce(row) => AnnounceFacts(current, row);
    case Materialize(page) =>
      MaterializeFacts(current, page);
      AscendingKeysAreDistinct(Change(w, current).value.0.offers, OfferKey);
  }

  /** One commit, as a reader of the two envelopes sees it. */
  ghost predicate CommitFits(current: Envelope, after: Envelope, retention: Retention) {
    && after.revision == current.revision + 1 <= MAX_SAFE && after.cursorKey == current.cursorKey
    && EnvelopeInv(after) && Within(after, retention)
    && current.catalogRevision <= after.catalogRevision && current.offerRevision <= after.offerRevision
    && (after.catalogRevision == current.catalogRevision ==> after.observations == current.observations)
    && (after.offerRevision == current.offerRevision ==> SameVisible(current.offers, after.offers))
  }

  /**
   * A commit raises the revision by one, stays inside its retention, and raises the catalog or
   * offer revision above every earlier one whenever it changes what that revision stands for.
   */
  lemma CommitIsFit(w: Write, retention: Retention, current: Envelope)
    requires EnvelopeInv(current) && Admissible(w) && Commit(w, retention, current).Ok?
    ensures CommitFits(current, Commit(w, retention, current).value.0, retention)
  {
    hide Change, Compact, ObservationKey, OfferKey, CheckpointKey, KeysAscend, DistinctKeys, SameVisible;
    hide Within, Admissible, IsStored;
    ChangeFacts(w, current);
    var next := Change(w, current).value.0;
    CompactionReachesEveryBound(next, retention, current.revision + 1);
    CompactionMarksWhatItMoves(next, retention, current.revision + 1);
    CompactedFields(next, retention, current.revision + 1);
  }

  lemma CompactedFields(candidate: Envelope, retention: Retention, revision: nat)
    ensures Compact(candidate, retention, revision).revision == revision
    ensures Compact(candidate, retention, revision).cursorKey == candidate.cursorKey
  {}

  // ------------------------------------------------- one row through a commit

  function RowAt(e: Envelope, key: Text): Option<Offer> {
    var records := Records(e.offers);
    if key in records then Some(records[key]) else None
  }

  /** The reports about one offer among those a write brings. */
  function ReportsAbout(offers: seq<Offer>, key: Text): seq<Offer> {
    if offers == [] then []
    else
      var n := |offers| - 1;
      ReportsAbout(offers[..n], key) + (if OfferKey(offers[n]) == key then [offers[n]] else [])
  }

  function ReportsIn(w: Write, key: Text): seq<Offer> {
    if w.Materialize? then ReportsAbout(w.page.offers, key) else []
  }

  function Lookup(records: map<Text, Offer>, key: Text): Option<Offer> {
    if key in records then Some(records[key]) else None
  }

  /** The merge loop treats every key on its own. */
  lemma {:induction false} MergePageByKey(m: Merging, offers: seq<Offer>, checkpoint: Checkpoint, key: Text)
    ensures Lookup(MergePage(m, offers, checkpoint).records, key)
      == AfterAll(Lookup(m.records, key), ReportsAbout(offers, key))
    decreases |offers|
  {
    hide OfferKey, ReconcileOffer;
    if offers != [] {
      var n := |offers| - 1;
      MergePageByKey(m, offers[..n], checkpoint, key);
      var about := ReportsAbout(offers[..n], key);
      if OfferKey(offers[n]) == key {
        assert (about + [offers[n]])[..|about|] == about;
      } else {
        assert about + [] == about;
      }
    }
  }

  /** Whether a write's commit evicts offers. */
  predicate EvictsOffers(w: Write, retention: Retention, current: Envelope) {
    Change(w, current).Ok? && |Change(w, current).value.0.offers| > retention.maxOffers
  }

  lemma ListingPlaces(records: map<Text, Offer>)
    requires RecordsFit(records)
    ensures var rows := Listing(records);
      && (forall i :: 0 <= i < |rows| ==> OfferKey(rows[i]) in records && rows[i] == records[OfferKey(rows[i])])
      && (forall k :: k in records ==> exists i :: 0 <= i < |rows| && OfferKey(rows[i]) == k)
  {
    hide OfferKey, IsStored, SortedSet, RecordsFit, StrictlySorted;
    var rows, keys := Listing(records), SortedSet(records.Keys);
    forall i | 0 <= i < |rows|
      ensures keys[i] in records && rows[i] == records[keys[i]] && OfferKey(rows[i]) == keys[i] {
      assert keys[i] in keys;
      FiledUnderOwnKey(records, keys[i]);
    }
    forall k | k in records ensures exists i :: 0 <= i < |rows| && OfferKey(rows[i]) == k {
      assert k in keys;
      var i :| 0 <= i < |keys| && keys[i] == k;
    }
  }

  lemma RecordsOfListing(records: map<Text, Offer>)
    requires RecordsFit(records)
    ensures Records(Listing(records)) == records
  {
    hide *;
    var rows := Listing(records);
    ListingIsSorted(records);
    ListingPlaces(records);
    AscendingKeysAreDistinct(rows, OfferKey);
    RecordsAreFiled(rows);
    assert Records(rows).Keys == records.Keys by {
      forall k ensures k in KeySet(rows, OfferKey) <==> k in records {}
    }
    forall k | k in records ensures Records(rows)[k] == records[k] {
      var i :| 0 <= i < |rows| && OfferKey(rows[i]) == k;
    }
  }

  lemma FiledUnderOwnKey(records: map<Text, Offer>, key: Text)
    requires RecordsFit(records) && key in records
    ensures OfferKey(records[key]) == key
  {}

  /** Unless it evicts, a commit takes each row through exactly the reports about it. */
  lemma CommitOnRow(w: Write, retention: Retention, current: Envelope, key: Text)
    requires EnvelopeInv(current) && Admissible(w) && Commit(w, retention, current).Ok? &&
      !EvictsOffers(w, retention, current)
    ensures RowAt(Commit(w, retention, current).value.0, key) == AfterAll(RowAt(current, key), ReportsIn(w, key))
  {
    hide ObservationKey, OfferKey, CheckpointKey, KeysAscend, DistinctKeys, Records, Listing, MergePage;
    hide IsStored, IsReport, AfterAll, KeptObservations, KeptCheckpoints, KeptQuarantine, CompactedReport;
    hide StableSort, Submit, KeySet, Without;
    match w
    case Announce(row) => NothingReported(RowAt(current, key));
    case Materialize(page) =>
      var start := Merging(Records(current.offers), current.quarantine, 0, 0, 0, 0);
      AscendingKeysAreDistinct(current.offers, OfferKey);
      RecordsHoldRows(current.offers);
      MergePageKeepsRecords(start, page.offers, page.checkpoint);
      RecordsOfListing(MergePage(start, page.offers, page.checkpoint).records);
      MergePageByKey(start, page.offers, page.checkpoint, key);
  }

  lemma NothingReported(row: Option<Offer>)
    ensures AfterAll(row, []) == row
  {}

  // ------------------------------------------- one watermark through a commit

  function Watermark(rows: seq<Checkpoint>, key: Text): Option<Checkpoint> {
    var i := KeyIndex(rows, key);
    if i < |rows| then Some(rows[i]) else None
  }

  function WatermarkAt(e: Envelope, key: Text): Option<Checkpoint> { Watermark(e.checkpoints, key) }

  function SubmissionsIn(w: Write, key: Text): seq<Checkpoint> {
    if w.Materialize? && CheckpointKey(w.page.checkpoint) == key then [w.page.checkpoint] else []
  }

  predicate EvictsCheckpoints(w: Write, retention: Retention, current: Envelope) {
    Change(w, current).Ok? && |Change(w, current).value.0.checkpoints| > retention.maxCheckpoints
  }

  lemma WatermarkIsMember(rows: seq<Checkpoint>, key: Text, c: Checkpoint)
    requires DistinctKeys(rows, CheckpointKey)
    ensures Watermark(rows, key) == Some(c) <==> c in rows && CheckpointKey(c) == key
  {
    hide CheckpointKey;
    var i := KeyIndex(rows, key);
    if i < |rows| { assert rows[i] in rows; }
    if c in rows && CheckpointKey(c) == key { var k :| 0 <= k < |rows| && rows[k] == c; }
  }

  lemma SameRowsSameWatermark(a: seq<Checkpoint>, b: seq<Checkpoint>, key: Text)
    requires DistinctKeys(a, CheckpointKey) && DistinctKeys(b, CheckpointKey) && forall c :: c in a <==> c in b
    ensures Watermark(a, key) == Watermark(b, key)
  {
    hide CheckpointKey, DistinctKeys, Watermark;
    match Watermark(a, key) {
      case Some(c) =>
        WatermarkIsMember(a, key, c);
        WatermarkIsMember(b, key, c);
      case None =>
        match Watermark(b, key) {
          case Some(c) =>
            WatermarkIsMember(a, key, c);
            WatermarkIsMember(b, key, c);
          case None =>
        }
    }
  }

  lemma OnlyIndex(rows: seq<Checkpoint>, key: Text, i: nat)
    requires DistinctKeys(rows, CheckpointKey) && i < |rows| && CheckpointKey(rows[i]) == key
    ensures KeyIndex(rows, key) == i
  {
    hide CheckpointKey;
    assert KeyIndex(rows, key) <= i;
  }

  lemma SubmitOnWatermark(rows: seq<Checkpoint>, checkpoint: Checkpoint, key: Text)
    requires DistinctKeys(rows, CheckpointKey)
    ensures DistinctKeys(Submit(rows, checkpoint), CheckpointKey)
    ensures Watermark(Submit(rows, checkpoint), key)
         == if key == CheckpointKey(checkpoint) then Some(Advanced(Watermark(rows, key), checkpoint))
            else Watermark(rows, key)
  {
    hide CheckpointKey, CompareCheckpoint;
    var after := Submit(rows, checkpoint);
    var i, j := KeyIndex(rows, CheckpointKey(checkpoint)), KeyIndex(rows, key);
    assert DistinctKeys(after, CheckpointKey) && forall n :: 0 <= n < |rows| ==>
        CheckpointKey(after[n]) == CheckpointKey(rows[n]);
    if key == CheckpointKey(checkpoint) {
      OnlyIndex(after, key, i);
    } else if j < |rows| {
      OnlyIndex(after, key, j);
    }
  }

  /** Unless it evicts, a commit moves each watermark by exactly the checkpoints submitted for it. */
  lemma CommitOnWatermark(w: Write, retention: Retention, current: Envelope, key: Text)
    requires EnvelopeInv(current) && Admissible(w) && Commit(w, retention, current).Ok? &&
      !EvictsCheckpoints(w, retention, current)
    ensures WatermarkAt(Commit(w, retention, current).value.0, key)
      == AdvancedAll(WatermarkAt(current, key), SubmissionsIn(w, key))
  {
    hide ObservationKey, OfferKey, CheckpointKey, KeysAscend, DistinctKeys, MergeInto, Listing, IsStored;
    hide IsReport, KeptObservations, KeptOffers, KeptQuarantine, CompactedReport, StableSort, Submit, KeySet;
    hide Without, Advanced, Watermark;
    match w
    case Announce(row) =>
    case Materialize(page) =>
      var submitted := Submit(current.checkpoints, page.checkpoint);
      SubmitOnWatermark(current.checkpoints, page.checkpoint, key);
      SubmitKeepsKeys(current.checkpoints, page.checkpoint);
      SortedRowsAreRows(submitted, CheckpointPlace);
      SameRowsSameWatermark(StableSort(submitted, CheckpointPlace), submitted, key);
  }
}
