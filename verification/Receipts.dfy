/** packages/market/src/store.ts and catalog.ts: what a write's answer says, and what it did to the rows. */
module Receipts {
  import opened Texts
  import opened Outcomes
  import opened Ordering
  import opened Envelopes
  import opened Reconcile
  import opened Watermarks
  import opened Commits

  // ------------------------------------------------------- one report of a page

  /** Everything but the conflict count and the diagnostics is as before. */
  ghost predicate OnlyDiagnosed(before: Merging, after: Merging) {
    && after.records == before.records && after.inserted == before.inserted && after.updated == before.updated
    && after.same == before.same && after.conflicts == before.conflicts + 1
  }

  /** One more diagnostic, which names the report, its page's account, and the reason. */
  ghost predicate Diagnoses(before: Merging, after: Merging, reason: Text, offer: Offer, checkpoint: Checkpoint) {
    after.quarantine == before.quarantine
      + [Rejected(offer.network, checkpoint.source, checkpoint.account, checkpoint.observedAt, reason + offer.hash)]
  }

  /** The first report under its key becomes the row. */
  lemma NewReportIsInserted(m: Merging, offer: Offer, checkpoint: Checkpoint)
    requires OfferKey(offer) !in m.records
    ensures MergeOne(m, offer, checkpoint)
         == m.(records := m.records[OfferKey(offer) := offer], inserted := m.inserted + 1)
  {
    hide OfferKey, ReconcileOffer;
  }

  /** A report with other terms, or of another settlement, leaves the row alone and is diagnosed. */
  lemma ConflictIsQuarantined(m: Merging, offer: Offer, checkpoint: Checkpoint)
    requires OfferKey(offer) in m.records
    requires !SameTerms(m.records[OfferKey(offer)], offer) || SettledOtherwise(m.records[OfferKey(offer)], offer)
    ensures var after := MergeOne(m, offer, checkpoint);
      OnlyDiagnosed(m, after) && Diagnoses(m, after, Ascii("immutable-conflict:"), offer, checkpoint)
  {
    hide OfferKey, ReconcileOffer, SameTerms, SettledOtherwise;
    ReconcilesExactly(m.records[OfferKey(offer)], offer);
  }

  /** So is a report that would take a row past 32 sources. */
  lemma OverflowIsQuarantined(m: Merging, offer: Offer, checkpoint: Checkpoint)
    requires OfferKey(offer) in m.records
    requires SameTerms(m.records[OfferKey(offer)], offer) && !SettledOtherwise(m.records[OfferKey(offer)], offer)
    requires |Elements(m.records[OfferKey(offer)].sources) + Elements(offer.sources)| > 32
    ensures var after := MergeOne(m, offer, checkpoint);
      OnlyDiagnosed(m, after) && Diagnoses(m, after, Ascii("provenance-overflow:"), offer, checkpoint)
  {
    hide OfferKey, ReconcileOffer, SameTerms, SettledOtherwise;
    ReconcilesExactly(m.records[OfferKey(offer)], offer);
  }

  /**
   * Any other report is merged into its row and no other, and counted as an update exactly when
   * it changes more of the row than its two observation times.
   */
  lemma AgreeingReportIsMerged(m: Merging, offer: Offer, checkpoint: Checkpoint)
    requires OfferKey(offer) in m.records && IsStored(m.records[OfferKey(offer)]) && IsReport(offer)
    requires SameTerms(m.records[OfferKey(offer)], offer) && !SettledOtherwise(m.records[OfferKey(offer)], offer)
    requires |Elements(m.records[OfferKey(offer)].sources) + Elements(offer.sources)| <= 32
    ensures var key, after := OfferKey(offer), MergeOne(m, offer, checkpoint);
      && ReconcileOffer(m.records[key], offer).Merged?
      && after.records == m.records[key := ReconcileOffer(m.records[key], offer).row]
      && after.quarantine == m.quarantine && after.conflicts == m.conflicts && after.inserted == m.inserted
      && (if Timeless(after.records[key]) != Timeless(m.records[key])
          then after.updated == m.updated + 1 && after.same == m.same
          else after.updated == m.updated && after.same == m.same + 1)
  {
    hide OfferKey, ReconcileOffer, SameTerms, SettledOtherwise, Timeless, IsStored, IsReport;
    var row := m.records[OfferKey(offer)];
    ReconcilesExactly(row, offer);
    ChangedIsExact(row, offer);
  }

  // --------------------------------------------------------------- whole pages

  function KeysOf(offers: seq<Offer>): (keys: set<Text>)
    ensures forall o :: o in offers ==> OfferKey(o) in keys
  {
    set o | o in offers :: OfferKey(o)
  }

  /**
   * Between two states of the merge loop each of `reports` reports, under the keys `keys`, was
   * counted once: inserted as often as there are keys the table did not have, conflicting as
   * often as a diagnostic was added, and updated or unchanged otherwise.
   */
  ghost predicate Counts(m: Merging, after: Merging, keys: set<Text>, reports: nat) {
    && after.records.Keys == m.records.Keys + keys
    && after.inserted - m.inserted == |keys - m.records.Keys|
    && (after.inserted - m.inserted) + (after.updated - m.updated)
       + (after.same - m.same) + (after.conflicts - m.conflicts) == reports
    && m.updated <= after.updated && m.same <= after.same && m.conflicts <= after.conflicts
    && |after.quarantine| - |m.quarantine| == after.conflicts - m.conflicts
    && m.quarantine <= after.quarantine
  }

  lemma ReportIsCounted(m: Merging, offer: Offer, checkpoint: Checkpoint)
    ensures Counts(m, MergeOne(m, offer, checkpoint), {OfferKey(offer)}, 1)
  {
    hide OfferKey, ReconcileOffer, RejectedFor;
    OneKey(m.records.Keys, OfferKey(offer));
  }

  lemma OneKey(known: set<Text>, key: Text)
    ensures |{key} - known| == if key in known then 0 else 1
  {
    assert {key} - known == if key in known then {} else {key};
  }

  lemma CountsAddUp(a: Merging, b: Merging, c: Merging, keys: set<Text>, key: Text, reports: nat)
    requires Counts(a, b, keys, reports) && Counts(b, c, {key}, 1)
    ensures Counts(a, c, keys + {key}, reports + 1)
  {
    OneMoreOf(a.records.Keys, keys, key);
  }

  lemma OneMoreOf(known: set<Text>, keys: set<Text>, key: Text)
    ensures |(keys + {key}) - known| == |keys - known| + |{key} - (known + keys)|
    ensures (known + keys) + {key} == known + (keys + {key})
  {
    if key in known + keys {
      assert {key} - (known + keys) == {};
      assert (keys + {key}) - known == keys - known;
    } else {
      assert {key} - (known + keys) == {key};
      assert (keys + {key}) - known == (keys - known) + {key};
    }
  }

  lemma {:induction false} PageIsCounted(m: Merging, offers: seq<Offer>, checkpoint: Checkpoint)
    ensures Counts(m, MergePage(m, offers, checkpoint), KeysOf(offers), |offers|)
    decreases |offers|
  {
    hide OfferKey, MergeOne, KeysOf, Counts;
    if offers == [] {
      NothingIsCounted(m);
    } else {
      var n := |offers| - 1;
      var before := MergePage(m, offers[..n], checkpoint);
      PageIsCounted(m, offers[..n], checkpoint);
      ReportIsCounted(before, offers[n], checkpoint);
      CountsAddUp(m, before, MergeOne(before, offers[n], checkpoint), KeysOf(offers[..n]), OfferKey(offers[n]), n);
      OneMoreKey(offers);
    }
  }

  lemma NothingIsCounted(m: Merging)
    ensures Counts(m, m, KeysOf([]), 0)
  {
    assert {} - m.records.Keys == {};
  }

  lemma OneMoreKey(offers: seq<Offer>)
    requires offers != []
    ensures KeysOf(offers) == KeysOf(offers[..|offers| - 1]) + {OfferKey(offers[|offers| - 1])}
  {
    hide OfferKey;
    assert offers == offers[..|offers| - 1] + [offers[|offers| - 1]];
  }

  /**
   * The receipt of a page is exact, and the table, diagnostics and offer revision it leaves
   * are those it accounts for: the revision rises exactly when something was inserted or updated.
   */
  lemma ReceiptIsExact(current: Envelope, page: Page)
    requires EnvelopeInv(current) && PageFits(page)
    ensures var (next, answer) := MaterializeChange(current, page);
      && answer.Materialized?
      && var r := answer.receipt;
      && r.inserted == |KeysOf(page.offers) - KeySet(current.offers, OfferKey)|
      && r.inserted + r.updated + r.same + r.conflicts == |page.offers|
      && r.quarantined == r.conflicts + |page.rejected|
      && |next.quarantine| == |current.quarantine| + r.quarantined
      && current.quarantine <= next.quarantine
      && next.quarantine[|next.quarantine| - |page.rejected|..] == page.rejected
      && next.offerRevision == current.offerRevision + (if r.inserted + r.updated > 0 then 1 else 0)
      && KeySet(next.offers, OfferKey) == KeySet(current.offers, OfferKey) + KeysOf(page.offers)
  {
    hide OfferKey, ReconcileOffer, StableSort, Submit, KeysAscend, DistinctKeys, MergePage, Records, Listing;
    hide IsStored, IsReport, KeySet, KeysOf;
    AscendingKeysAreDistinct(current.offers, OfferKey);
    RecordsHoldRows(current.offers);
    var start := Merging(Records(current.offers), current.quarantine, 0, 0, 0, 0);
    var m := MergePage(start, page.offers, page.checkpoint);
    PageIsCounted(start, page.offers, page.checkpoint);
    MergePageKeepsRecords(start, page.offers, page.checkpoint);
    ListingKeys(m.records);
  }

  lemma ListingKeys(records: map<Text, Offer>)
    requires RecordsFit(records)
    ensures KeySet(Listing(records), OfferKey) == records.Keys
  {
    hide OfferKey, IsStored, SortedSet;
    var keys, rows := SortedSet(records.Keys), Listing(records);
    forall i | 0 <= i < |rows| ensures keys[i] in records && rows[i] == records[keys[i]] { assert keys[i] in keys; }
    forall k | k in records.Keys ensures k in KeySet(rows, OfferKey) {
      assert k in keys;
      var i :| 0 <= i < |keys| && keys[i] == k;
      assert OfferKey(rows[i]) == k;
    }
  }

  /** Each watermark moves to the submitted one or stays, and other scopes' watermarks stay. */
  lemma OneScopeMoves(current: Envelope, page: Page, other: Checkpoint)
    requires EnvelopeInv(current) && CheckpointKey(other) != CheckpointKey(page.checkpoint)
    ensures other in MaterializeChange(current, page).0.checkpoints <==> other in current.checkpoints
  {
    hide CheckpointKey, CompareCheckpoint, MergeInto, Listing, StableSort, KeysAscend, DistinctKeys, IsStored;
    var rows, submitted := current.checkpoints, Submit(current.checkpoints, page.checkpoint);
    SortedRowsAreRows(submitted, CheckpointPlace);
    if other in rows {
      var i :| 0 <= i < |rows| && rows[i] == other;
      assert submitted[i] == other;
    }
  }

  /** What a settlement says agrees with the state it is of. */
  ghost predicate SettledAsItSays(o: Offer) {
    && (o.acceptedBy.Some? <==> o.state == Accepted)
    && (o.settledBy.Some? <==> o.state != Open) && (o.settledAt.Some? <==> o.state != Open)
  }

  /**
   * A page is let in exactly when it has at most 256 offers and 256 rejections, and each offer
   * is of the page's network, seen by the page's source alone and once, settled as it says, and
   * of the page's instrument when it has one.
   */
  lemma PagesAreLetInExactly(page: Page)
    ensures Admissible(Materialize(page)) <==>
      && |page.offers| <= 256 && |page.rejected| <= 256
      && forall o :: o in page.offers ==>
           && o.network == page.checkpoint.network && o.sources == [page.checkpoint.source]
           && o.firstObservedAt == o.lastObservedAt && SettledAsItSays(o)
           && page.checkpoint.instrument in {None, Some(Instrument(o.giveAsset, o.wantAsset))}
  {
    forall o: Offer
      ensures IsReport(o) && page.checkpoint.source in o.sources
         <==> o.sources == [page.checkpoint.source] && o.firstObservedAt == o.lastObservedAt && SettledAsItSays(o)
    {}
  }

  // ------------------------------------------------------------ announcements

  /** An announcement is let in exactly as one sighting of its own, with an id. */
  lemma AnnouncementsAreLetInExactly(row: Observation)
    ensures Admissible(Announce(row)) <==>
      row == row.(observations := 1, firstObservedAt := row.observedAt) && row.observationId != None
  {}

  /** A stored announcement under the network, source and id of another. */
  ghost predicate Reuses(stored: Observation, row: Observation) {
    && stored.observationId.Some? && stored.observationId == row.observationId
    && stored.network == row.network && stored.source == row.source
  }

  /**
   * A fresh id is appended under the next catalog revision. A reused one changes nothing: it is
   * refused when the stored facts differ, and answered as known when they are the same.
   */
  lemma AnnouncementIsExact(current: Envelope, row: Observation)
    requires IsAnnouncement(row)
    ensures (forall stored :: stored in current.observations ==> !Reuses(stored, row)) ==>
      AnnounceChange(current, row)
        == Ok((current.(catalogRevision := current.catalogRevision + 1, observations := current.observations + [row]),
               Announced(true)))
    ensures forall stored :: stored in current.observations && Reuses(stored, row) ==>
      AnnounceChange(current, row) in {Err(ObservationConflict), Ok((current, Announced(false)))}
    ensures AnnounceChange(current, row) == Err(ObservationConflict) ==>
      exists stored :: stored in current.observations && Reuses(stored, row) && stored != row
    ensures AnnounceChange(current, row) == Ok((current, Announced(false))) ==> row in current.observations
  {
    var rows := current.observations;
    var i := IdIndex(rows, row);
    if i < |rows| { assert rows[i] in rows && Reuses(rows[i], row); }
    forall stored | stored in rows && Reuses(stored, row) ensures i < |rows| {
      var k :| 0 <= k < |rows| && rows[k] == stored;
      assert SameId(rows[k], row);
    }
  }
}
