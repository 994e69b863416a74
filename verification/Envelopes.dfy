/**
 * packages/market/src/storage.ts: the rows and the versioned envelope that holds them.
 *
 * Field types carry what validation has already established: labels are non-empty, bounded
 * and printable, times and counts are numbers a double holds exactly, and an instrument is
 * either whole or absent. Keys are the source's own: fields joined by NUL, which no field
 * contains, so equal keys are equal fields.
 *
 * Ranks say in which order an eviction takes rows; the eviction comparator itself is here
 * too, and is shown to be the order of its ranks.
 */
module Envelopes {
  import opened Texts
  import opened Outcomes
  import opened Ordering
  import opened Decimals

  const MAX_SAFE: nat := 9007199254740991
  const STAR: CodeUnit := 42

  /** A whole number a double holds exactly: times, heights, counts. */
  type Safe = n: nat | n <= MAX_SAFE

  /** How many announcements a row stands for. */
  type Count = n: nat | 1 <= n <= MAX_SAFE witness 1

  /** A printable, bounded, non-empty field; NUL is what keys are joined with. */
  type Label = t: Text | 0 < |t| <= 128 && NUL !in t witness [65]

  type ObservationId = t: Text | 0 < |t| <= 256 && NUL !in t witness [65]

  /** A canonical asset id; `*` stands for "no asset" in keys and is not one of its characters. */
  type AssetName = t: Text | 0 < |t| <= 128 && NUL !in t && STAR !in t witness [65]

  datatype Instrument = Instrument(base: AssetName, quote: AssetName)

  datatype Observation = Observation(
    network: Label, address: Label, source: Label,
    observedAt: Safe, firstObservedAt: Safe, observations: Count,
    observationId: Option<ObservationId>, instrument: Option<Instrument>)

  datatype OfferState = Open | Accepted | Cancelled

  datatype Offer = Offer(
    network: Label, hash: Label, author: Label,
    giveAsset: AssetName, giveRaw: Text, wantAsset: AssetName, wantRaw: Text,
    counterparty: Option<Text>, state: OfferState, acceptedBy: Option<Text>, settledBy: Option<Text>,
    height: Safe, seenAt: Safe, settledAt: Option<Safe>,
    sources: seq<Text>, firstObservedAt: Safe, lastObservedAt: Safe)

  datatype StopReason =
    | Exhausted | AccountLimit | RequestLimit | ResultLimit | ByteLimit | PageLimit | ScanLimit
    | Deadline | Aborted | ProviderError | UnsupportedPagination

  datatype Checkpoint = Checkpoint(
    network: Label, source: Label, account: Label, adapterVersion: Safe, generation: Safe,
    instrument: Option<Instrument>, observedAt: Safe,
    newestHash: Option<Text>, providerCursor: Option<Text>, exhausted: bool, stopReason: StopReason)

  datatype Rejected = Rejected(network: Text, source: Text, account: Text, observedAt: Safe, reason: Text)

  datatype Report = Report(
    foldedObservations: Safe, droppedObservations: Safe, droppedOffers: Safe, droppedCheckpoints: Safe,
    droppedQuarantine: Safe)

  datatype Envelope = Envelope(
    revision: nat, catalogRevision: nat, offerRevision: nat, cursorKey: Text,
    observations: seq<Observation>, offers: seq<Offer>, checkpoints: seq<Checkpoint>, quarantine: seq<Rejected>,
    retention: Report)

  type Bound = n: nat | 1 <= n witness 1

  datatype Retention = Retention(maxObservations: Bound, maxOffers: Bound, maxCheckpoints: Bound, maxQuarantine: Bound)

  function EmptyEnvelope(cursorKey: Text): Envelope {
    Envelope(0, 0, 0, cursorKey, [], [], [], [], Report(0, 0, 0, 0, 0))
  }

  // ----------------------------------------------------------------- keys

  function BaseOf(i: Option<Instrument>, none: Text): Text { if i.Some? then i.value.base else none }

  function QuoteOf(i: Option<Instrument>, none: Text): Text { if i.Some? then i.value.quote else none }

  function ObservationScope(row: Observation): Text {
    Join(NUL, [row.network, row.address, BaseOf(row.instrument, []), QuoteOf(row.instrument, []), row.source])
  }

  function ObservationKey(row: Observation): Text {
    ObservationScope(row) + [NUL] + (if row.observationId.Some? then row.observationId.value else [])
  }

  function OfferKey(row: Offer): Text { Join(NUL, [row.network, row.hash]) }

  function CheckpointKey(row: Checkpoint): Text {
    Join(NUL, [row.network, row.source, Digits(row.adapterVersion), row.account,
               BaseOf(row.instrument, [STAR]), QuoteOf(row.instrument, [STAR])])
  }

  /** Equal scopes are about one participant, instrument and source. */
  lemma ScopeIsInjective(a: Observation, b: Observation)
    requires ObservationScope(a) == ObservationScope(b)
    ensures a.network == b.network && a.address == b.address && a.source == b.source && a.instrument == b.instrument
  {
    hide Join, Split;
    var p := [a.network, a.address, BaseOf(a.instrument, []), QuoteOf(a.instrument, []), a.source];
    var q := [b.network, b.address, BaseOf(b.instrument, []), QuoteOf(b.instrument, []), b.source];
    SplitJoin(NUL, p);
    SplitJoin(NUL, q);
    assert p == q;
    assert p[0] == q[0] && p[1] == q[1] && p[2] == q[2] && p[3] == q[3] && p[4] == q[4];
  }

  lemma CheckpointKeyIsInjective(a: Checkpoint, b: Checkpoint)
    requires CheckpointKey(a) == CheckpointKey(b)
    ensures a.network == b.network && a.source == b.source && a.account == b.account
    ensures a.adapterVersion == b.adapterVersion && a.instrument == b.instrument
  {
    hide Join, Split, Digits;
    var p := [a.network, a.source, Digits(a.adapterVersion), a.account, BaseOf(a.instrument, [STAR]),
        QuoteOf(a.instrument, [STAR])];
    var q := [b.network, b.source, Digits(b.adapterVersion), b.account, BaseOf(b.instrument, [STAR]),
        QuoteOf(b.instrument, [STAR])];
    DigitsRoundTrip(a.adapterVersion);
    DigitsRoundTrip(b.adapterVersion);
    SplitJoin(NUL, p);
    SplitJoin(NUL, q);
    assert p == q;
    assert p[0] == q[0] && p[1] == q[1] && p[2] == q[2] && p[3] == q[3] && p[4] == q[4] && p[5] == q[5];
    assert STAR in [STAR];
  }

  // ------------------------------------------------------------ ranks

  function ObservationOrder(row: Observation): Rank { Rank(0, 0, 0, ObservationKey(row)) }

  /** Observation eviction: oldest first, then by key. */
  function ObservationAge(row: Observation): Rank { Rank(row.observedAt, 0, 0, ObservationKey(row)) }

  function CheckpointAge(row: Checkpoint): Rank { Rank(row.observedAt, 0, 0, CheckpointKey(row)) }

  function CheckpointPlace(row: Checkpoint): Rank { Rank(0, 0, 0, CheckpointKey(row)) }

  /** Offer eviction: settled before open, then least recently observed, then least recently settled or seen. */
  function OfferAge(row: Offer): Rank {
    Rank(if row.state == Open then 1 else 0, row.lastObservedAt, row.settledAt.GetOr(row.seenAt), row.hash)
  }

  /** The comparator itself, as packages/market/src/storage.ts writes it. */
  function CompareOfferEviction(left: Offer, right: Offer): int {
    var leftOpen, rightOpen := if left.state == Open then 1 else 0, if right.state == Open then 1 else 0;
    if leftOpen != rightOpen then leftOpen - rightOpen
    else if left.lastObservedAt != right.lastObservedAt then left.lastObservedAt - right.lastObservedAt
    else
      var leftAt, rightAt := left.settledAt.GetOr(left.seenAt), right.settledAt.GetOr(right.seenAt);
      if leftAt != rightAt then leftAt - rightAt else CompareText(left.hash, right.hash)
  }

  /** The comparator is the order of the ranks, so it is a total preorder: only rows of equal rank tie. */
  lemma EvictionComparatorRanks(left: Offer, right: Offer)
    ensures CompareOfferEviction(left, right) < 0 <==> Before(OfferAge(left), OfferAge(right))
    ensures CompareOfferEviction(left, right) > 0 <==> Before(OfferAge(right), OfferAge(left))
    ensures CompareOfferEviction(left, right) == 0 <==> OfferAge(left) == OfferAge(right)
  {
    hide Less;
    LessTrichotomy(left.hash, right.hash);
  }
}
