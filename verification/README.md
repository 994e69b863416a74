# Market, claim and wire proofs

A Dafny model of the parts of the Kei SDK in which state, interleaving, exact arithmetic or
byte layout carry the weight: the versioned market store and its page cursors, Merkle commits
for drops, the block wire layout, exact market arithmetic, and the bounded concurrency and
claim stores around them. Each component is modelled in the form its source has (classes and
loops where the source updates things in place, functions where it computes) and its laws are
proved over all inputs, runs or reachable states.

`dafny verify dfyconfig.toml` checks the whole project.

## How it is laid out

- `Basics.dfy`: texts as UTF-16 code units with JavaScript's string order, optional values,
  decimal digit text, JSON quoting, and sorting and eviction by rank.
- `Amount.dfy`, `Printed.dfy`, `Instrument.dfy`, `Kei.dfy`: decimal amounts, amounts given as numbers, price
  products and top-up mints.
- `Hex.dfy`, `Merkle.dfy`, `Tree.dfy`, `Drops.dfy`: hashing, proofs, commits and drop tables.
- `Wire.dfy`, `WireExact.dfy`: the block preimage, a decoder for it, and every byte's place.
- `Envelopes.dfy`, `Storage.dfy`, `Reconcile.dfy`, `Watermarks.dfy`, `Commits.dfy`,
  `Receipts.dfy`, `MarketStorage.dfy`, `History.dfy`, `Retries.dfy`, `Clears.dfy`: the versioned store,
  from one row up to every
  interleaving of its writers, and what clearing it does to them.
- `Views.dfy`, `Cursors.dfy`, `Paging.dfy`, `Readers.dfy`, `Following.dfy`, `Discovery.dfy`: what readers
  derive and page through, one page, one reading or one whole run at a time.
- `Ratios.dfy`, `Candles.dfy`, `Series.dfy`, `StoredHistory.dfy`: exact prices and candles.
- `Coverage.dfy`, `Lanes.dfy`, `Walk.dfy`: walks over many accounts and what they could not see.
- `CacheParts.dfy`, `AssetCache.dfy`, `Lookups.dfy`: the hand-off gate, the memory, the in-flight table, and
  what a lookup answers.
- `ClaimRecords.dfy`, `ClaimStores.dfy`: the memory and browser claim stores.

## What is assumed

Nothing is assumed of the world beyond parameters. The hash, the cursor signature, the wallet
signature check, an address's public key, a row's serialised size and the locale's string order
are function parameters. Where a proof needs a hash to tell inputs apart, the hypothesis names
the finite set of byte strings actually hashed, so it can be met. Writers, lanes and lookups are
step systems whose steps are what the source does between two awaits; a run is any sequence of
enabled steps.

## Where the code and its documentation part

Each of these is proved, with the exact condition under which the promise holds.

- Reports of one offer converge to one stored row in every order, grouping and repetition if and
  only if they name at most 32 sources; beyond that, whoever is heard first stays
  (`Reconcile.ConvergesExactlyWithinTheSourceLimit`).
- The folded discovery log is indistinguishable from the full one if and only if no participant,
  instrument and source together hold more than 2^53 - 1 announcements
  (`Views.FoldingIsInvisibleExactlyWithoutOverflow`).
- Equal offer revisions mean equal offer rows except for the first and last observation times,
  which a silent merge may move although pages show them
  (`Reconcile.SilentMergeIsInvisibleExactlyInsideTheWindow`).
- History is linear while nothing is cleared. Across a clear, a call that loaded since the last clear, or
  loaded nothing, swaps only onto what it loaded (`History.NoLostWriteSinceLastClear`). Any other call
  that holds a load can still swap over a success it never saw if and only if its change commits onto
  the envelope it holds and the cell is below that envelope's revision, or at it with another envelope;
  with further clears to come, if and only if its change commits (`Clears.AHeldLoadCanOverwriteExactly`). A whole run that loses
  a write is `Clears.AClearCanLoseAWrite`.
- Slots of the asset cache are given in arrival order, as the gate's comment says, but requests need not
  begin in it: they do so in every run if and only if the cache has at most one slot
  (`AssetCache.RequestsBeginInOrderExactlyWithOneSlot`); the default is eight.
- Merging one coverage gives it back exactly when it is already in canonical order, and an empty
  merge is neutral only for scopes of no accounts.
- The two claim stores answer alike exactly on agreeable requests: the memory store ignores
  authorities and takes a negative list limit as counting from the end
  (`ClaimRecords.RunsAgreeExactlyWhenAgreeable`).
- A preimage leaves out a state block's subtype, the case of a symbol, decimals beyond one byte
  and a zero counterparty, and nothing else (`Wire.SamePreimageExactlyWhenSameCanonicalBody`).

## Model

| member | source | states |
|---|---|---|
| MarketStorage.MemoryStorage.CompareAndSwap | packages/market/src/storage.ts:229-233 | the cell is replaced exactly when its revision is the expected one, and otherwise untouched |
| MarketStorage.UpdateEnvelope | packages/market/src/storage.ts:260-298 | the retry loop ends as the attempts from the first say, with the other writers' work between its own steps |
| MarketStorage.AttemptsEnd | packages/market/src/storage.ts:269-297 | a write commits through its first winning attempt and only then; a conflict means eight losses and a cell holding what others left |
| Retries.AtMostEightSwaps | packages/market/src/storage.ts:269-297 | over every run a call takes at most eight swaps, and gives up with a conflict only after all eight |
| Retries.SwapSucceedsExactly | packages/market/src/storage.ts:276-297 | a swap succeeds exactly when the change is accepted and the loaded revision still stands; otherwise the store is untouched and the call loads again, until its eighth |
| History.HistoryIsLinear | packages/market/src/storage.ts:260-298 | over every interleaving of an uncleared store each success applied its change exactly once to the envelope the previous success left, as the next revision, and the cell is the last |
| History.RevisionsIdentifySnapshots | packages/market/src/storage.ts:273-297 | revision counts commits; catalog and offer revision never fall nor pass it; equal ones mean equal observations, or equal offer rows up to observation times |
| History.NoLostWriteSinceLastClear | packages/market/src/storage.ts:229-236 | clears included, a call that loaded since the last clear, or loaded nothing, only swaps onto what it loaded |
| Clears.AHeldLoadCanOverwriteExactly | packages/market/src/storage.ts:229-236 | in every reachable state, a call that holds a load can yet swap over a success it never saw if and only if its change commits onto the envelope it holds and the cell is below that envelope's revision, or at it with another envelope, and then it loaded before a clear; with more clears to come, if and only if its change commits |
| Clears.AClearCanLoseAWrite | packages/market/src/storage.ts:229-236 | a concrete run in which all calls succeed and a write made after a clear is lost |
| History.LoadsAreOneHistory | packages/market/src/storage.ts:247-258 | envelopes loaded at successive moments of any uncleared run satisfy what readers rely on |
| History.RunsConverge | packages/market/src/store.ts:251-307 | two runs that bring the same compatible reports of one offer, of at most 32 sources and without eviction, end with the same row, the join of the reports |
| History.WatermarkEndsGreatest | packages/market/src/store.ts:287-295 | over every run without eviction a scope's watermark ends as the latest checkpoint committed for it, by time, then generation, then order text |
| Commits.CommitIsFit | packages/market/src/storage.ts:270-290 | every commit raises the revision by one, keeps unique keys, stays within its retention, and raises the catalog or offer revision whenever it changes what that revision stands for |
| Commits.CommitOnRow | packages/market/src/store.ts:243-307 | unless it evicts, a commit takes each row through exactly the reports about it |
| Commits.CommitOnWatermark | packages/market/src/store.ts:287-302 | unless it evicts, a commit moves each watermark by exactly the checkpoints submitted for its scope |
| Commits.MergeOffers | packages/market/src/store.ts:251-283 | the merge loop inserts, updates, counts and quarantines as the merge of the page's reports in order |
| Receipts.NewReportIsInserted | packages/market/src/store.ts:251-256 | the first report under its key becomes the row and is counted as inserted |
| Receipts.ConflictIsQuarantined | packages/market/src/store.ts:258-267 | a report with other terms or another settlement leaves every row alone, adds one conflict, and one diagnostic that names it |
| Receipts.OverflowIsQuarantined | packages/market/src/store.ts:268-276 | so does a report that would take a row past 32 sources |
| Receipts.AgreeingReportIsMerged | packages/market/src/store.ts:277-282 | any other report changes its own row only, and counts as an update exactly when more than the observation times change |
| Receipts.ReceiptIsExact | packages/market/src/store.ts:244-307 | the receipt counts every report of a page once, inserted as often as there are new keys, quarantined as often as diagnostics were added, and the offer revision rises exactly when something was inserted or updated |
| Receipts.OneScopeMoves | packages/market/src/store.ts:287-295 | a page leaves every watermark of another scope as it was |
| Receipts.PagesAreLetInExactly | packages/market/src/store.ts:229-241 | a page is let in exactly when it is bounded and each offer is of its network, its source and its instrument, with a settlement that agrees with its state |
| Commits.MergePageByKey | packages/market/src/store.ts:251-283 | the merge loop treats every offer key on its own |
| Commits.MergePageKeepsRecords | packages/market/src/store.ts:251-300 | records stay filed under their own keys, and a page that inserted and updated nothing moved nothing but observation times |
| Commits.AnnounceKeepsKeys | packages/market/src/catalog.ts:127-153 | appending an announcement whose id is not yet known keeps observation keys unique |
| Receipts.AnnouncementIsExact | packages/market/src/catalog.ts:127-153 | a fresh id is appended under the next catalog revision; a reused one changes nothing, and is refused only where other facts are stored under it |
| Receipts.AnnouncementsAreLetInExactly | packages/market/src/catalog.ts:438-463 | an announcement is let in exactly as one sighting of its own, with an id |
| Commits.ListingOfRecords | packages/market/src/store.ts:244-301 | listing the records of an ordered table gives the table back |
| Storage.FoldObservations | packages/market/src/storage.ts:410-433 | the map-filling loop computes the fold |
| Storage.CompactionReachesEveryBound | packages/market/src/storage.ts:339-408 | with unique keys every table ends within its bound, keys stay unique and ordered, and a candidate already within bounds is untouched |
| Storage.CompactionConservesRows | packages/market/src/storage.ts:349-396 | rows before are rows after plus what the folded and dropped counters count, table by table, each counter exact up to the greatest number it can hold |
| Storage.OpenOffersLeaveLast | packages/market/src/storage.ts:370-378 | an open offer is evicted only when no settled one survives, and within a group the least recently observed goes first, then the least recently settled or seen, then the lesser hash |
| Storage.OldestObservationsLeaveFirst | packages/market/src/storage.ts:349-362 | of the folded log, an evicted row was observed no later than any kept one, and at one time has the lesser key |
| Storage.OldestCheckpointsLeaveFirst | packages/market/src/storage.ts:380-389 | the same for watermarks |
| Storage.LatestDiagnosticsStay | packages/market/src/storage.ts:391-396 | the diagnostics kept are the most recent end of the list, as many as there is room for |
| Storage.RoomyTablesAreUntouched | packages/market/src/storage.ts:349-396 | a table within its bound stays as it is, and so does the revision that stands for it |
| Views.FoldingDropsIdsOfMerged | packages/market/src/storage.ts:410-433 | a folded row has an announcement id exactly when it is the only announcement of its scope and had one |
| Storage.CompactionMarksWhatItMoves | packages/market/src/storage.ts:364-378 | observations or offers that change in a compaction carry the new revision |
| Envelopes.EvictionComparatorRanks | packages/market/src/storage.ts:440-449 | the eviction comparator is the order of its ranks, and ties only on equal ranks |
| Envelopes.ScopeIsInjective | packages/market/src/storage.ts:492-494 | equal observation scopes are about one participant, instrument and source |
| Envelopes.CheckpointKeyIsInjective | packages/market/src/store.ts:789-791 | equal checkpoint keys are about one network, source, version, account and instrument |
| Ordering.SortIsRankedPermutation | packages/market/src/storage.ts:356-358 | sorting rearranges rows into rank order |
| Ordering.EvictionReachesItsBound | packages/market/src/storage.ts:371-375 | sort, slice, set and filter together keep exactly as many rows as the bound allows |
| Ordering.EvictionTakesTheFirst | packages/market/src/storage.ts:371-375 | what is evicted never ranks after what stays |
| Views.FoldingKeepsParticipantRows | packages/market/src/catalog.ts:227-275 | folding leaves participants, times, sources and instruments of every page unchanged, and each count unchanged exactly when none of that row's scopes overflows a counter |
| Views.FoldingIsInvisible | packages/market/src/storage.ts:410-433 | without counter overflow no participant query tells the folded log from the full one |
| Views.FoldingIsInvisibleExactlyWithoutOverflow | packages/market/src/storage.ts:410-433 | on the unrestricted page that condition is exact |
| Views.FoldingKeepsInstruments | packages/market/src/catalog.ts:277-313 | no instrument query tells the folded log from the full one |
| Discovery.ParticipantPagesShowEveryAnnouncement | packages/market/src/catalog.ts:227-275 | over every uncleared run that dropped no observation and filled no counter, participant pages show what all announcements committed amount to, however often the log was folded |
| Discovery.InstrumentPagesShowEveryAnnouncement | packages/market/src/catalog.ts:277-313 | so do instrument pages, full counters or not |
| Views.ParticipantView | packages/market/src/catalog.ts:227-275 | the grouping loops produce one row per matching participant, in key order, saying exactly what its observations amount to |
| Views.InstrumentView | packages/market/src/catalog.ts:277-313 | the same for instruments, with distinct participants counted |
| Views.GroupRows | packages/market/src/catalog.ts:231-249 | the grouping loop files every matching row, and only those, under its key |
| Views.ParticipantViewIsUnique | packages/market/src/catalog.ts:250-274 | observations determine the whole participant view |
| Views.InstrumentViewIsUnique | packages/market/src/catalog.ts:293-312 | observations determine the whole instrument view |
| Views.ParticipantsShownAreExact | packages/market/src/catalog.ts:227-249 | a participant is shown exactly when an announcement of the network and instrument asked for names it |
| Views.InstrumentsShownAreExact | packages/market/src/catalog.ts:277-292 | an instrument is shown exactly when an announcement of the network and legs asked for is about it |
| Reconcile.MergeKeepsStored | packages/market/src/store.ts:613-659 | merging keeps a row well formed and under its key, and a settled row keeps its settlement for good |
| Reconcile.ReconcilesExactly | packages/market/src/store.ts:613-643 | for any row and report: a conflict if and only if they differ in network, hash, author, either leg, counterparty or height, or are settled differently; an overflow if and only if they would name more than 32 sources; a merge otherwise |
| Reconcile.MergedRowIsExact | packages/market/src/store.ts:630-658 | a merged row keeps the terms of both, takes the settlement of whichever is settled, names the sources of both once each in order, and the outermost of their times |
| Reconcile.ChangedIsExact | packages/market/src/store.ts:647-649 | the change flag is exact about everything but the two observation times |
| Reconcile.SilentMergeIsInvisibleExactlyInsideTheWindow | packages/market/src/store.ts:647-658 | an unchanged merge leaves the very same row exactly when the report falls inside the row's observation window |
| Reconcile.MergeIsJoin | packages/market/src/store.ts:630-658 | merging one more compatible report is the join of one more: settled if any is, first and last the least and greatest, seen and settled times the greatest |
| Reconcile.JoinIsUnique | packages/market/src/store.ts:613-659 | a set of reports amounts to one row only |
| Reconcile.ReportsJoin | packages/market/src/store.ts:251-283 | compatible reports of at most 32 sources end as their join in whatever order they came |
| Reconcile.ConvergesExactlyWithinTheSourceLimit | packages/market/src/store.ts:642-643 | compatible reports end as one row in every order, grouping and repetition if and only if they name at most 32 sources |
| Watermarks.CheckpointsAreTotallyOrdered | packages/market/src/store.ts:842-855 | the comparison is positive exactly for the checkpoint made later, then of the later generation, then with the greater order text, and only equal checkpoints of one scope compare equal |
| Watermarks.OrderTextIsInjective | packages/market/src/store.ts:848-855 | the JSON text that breaks ties determines the four facts in it |
| Watermarks.OrderTextIsJson | packages/market/src/store.ts:848-855 | the tie-breaking text is the JSON of the four facts in their order |
| Watermarks.WatermarkIsGreatest | packages/market/src/store.ts:287-295 | after any submissions of one scope the watermark is the one made latest, of those of the latest generation, of those with the greatest order text |
| Watermarks.WatermarksConverge | packages/market/src/store.ts:287-295 | the same submissions in any order or repetition leave the same watermark |
| Json.QuotedIsInjective | packages/market/src/store.ts:848-855 | quoted texts, lone surrogates and escapes included, can be told apart whatever follows them |
| Json.EscapesAreExact | packages/market/src/store.ts:848-855 | quotes, backslashes and five controls have short escapes, other controls and lone surrogates long ones, and nothing else is escaped |
| Json.Hex4IsExact | packages/market/src/catalog.ts:384-386 | a code unit is four lower-case digits, most significant first |
| Cursors.EncodeKey | packages/market/src/catalog.ts:384-389 | the encoding loop spells each code unit as four hexadecimal digits |
| Cursors.DecodeKey | packages/market/src/catalog.ts:411-418 | the decoding loop reads four digits a code unit |
| Cursors.KeyRoundTrip | packages/market/src/catalog.ts:384-418 | a key survives the trip into hexadecimal and back |
| Cursors.CatalogCursorRoundTrip | packages/market/src/catalog.ts:363-389 | a catalog cursor gives its key back exactly while its revision stands, is stale under any other, and is refused only for a key no row has |
| Cursors.CatalogCursorAcceptedExactlyWhenSigned | packages/market/src/catalog.ts:363-382 | the texts accepted for a query and revision are exactly those signed for them |
| Cursors.CatalogCursorText | packages/market/src/catalog.ts:384-389 | a catalog cursor spells its kind, revision, scope and key in their places |
| Cursors.StoreCursorAcceptedExactlyWhenSigned | packages/market/src/store.ts:805-819 | the texts accepted for a page kind, query and revision are exactly those signed for them |
| Cursors.StoreCursorText | packages/market/src/store.ts:797-803 | an offer or trade cursor spells its kind, revision, scope and key in their places |
| Cursors.CatalogCursorIsBoundToItsQuery | packages/market/src/catalog.ts:366-368 | a cursor of another page kind or query is refused |
| Cursors.StoreCursorRoundTrip | packages/market/src/store.ts:798-819 | the same for offer and trade cursors, whose key may not be empty |
| Cursors.StoreCursorIsBoundToItsQuery | packages/market/src/store.ts:805-810 | an offer cursor is never a trade cursor, nor another query's |
| Cursors.TradeKeyOrder | packages/market/src/store.ts:761-767 | the text order of trade keys is the order of times, then of hashes, and equal keys are equal pairs |
| Paging.ReadPage | packages/market/src/catalog.ts:315-361 | the page loop returns the longest run of remaining rows within both budgets, or refuses a single row above them |
| Paging.PageMovesOn | packages/market/src/catalog.ts:330-360 | a page starts where the last one ended, stays within both budgets, and leaves a cursor exactly when rows remain |
| Paging.PagesEnumerateExactly | packages/market/src/catalog.ts:315-361 | following cursors from the first page ends and yields every row once and in order, exactly when no single row is above the byte budget |
| Paging.ReadingIsExact | packages/market/src/store.ts:326-358 | the same when each page comes from another snapshot with the same keys, in at most one page a key |
| Readers.RowsAreInOrder | packages/market/src/store.ts:317-326 | a query's rows are the matching ones, each once, in the query's order |
| Readers.OfferRowsAreExact | packages/market/src/store.ts:317-326 | an offer page shows exactly the stored offers of its network and of the assets and state it asks for |
| Readers.TradeRowsAreExact | packages/market/src/store.ts:368-381 | a trade page shows exactly the accepted offers between its two assets, either way round, settled within its span |
| Readers.TradesStandInTimeOrder | packages/market/src/store.ts:382-383 | trades stand by settlement time, then hash, in the direction asked for |
| Readers.PageCursorsNameTheirKind | packages/market/src/store.ts:347-356 | a page leaves a cursor of its own kind, for its last row, under the revision it was read at |
| Readers.SameVisibleSameKeys | packages/market/src/store.ts:362-383 | envelopes whose rows differ only in observation times page through the same keys, for offers and for trades in either order |
| Readers.StoreReadersSeeOneSnapshot | packages/market/src/store.ts:311-421 | whatever commits in between, an offer or trade reader whose requests all went through read one snapshot, each row once and in order, complete exactly when no cursor is left |
| Readers.ServedRowsAreVisible | packages/market/src/store.ts:337-345 | each row a later page shows is a row of the first snapshot, but for its two observation times |
| Readers.NextRequestIsStaleExactlyAfterAChange | packages/market/src/store.ts:805-819 | the cursor just issued is refused as stale exactly when a commit raised the offer revision; otherwise only the byte budget can refuse |
| Readers.ParticipantReadersSeeOneRoster | packages/market/src/catalog.ts:157-166 | the same for participant pages under interleaved announcements |
| Readers.InstrumentReadersSeeOneList | packages/market/src/catalog.ts:168-177 | the same for instrument pages |
| Following.FollowingStoreCursorsIsExact | packages/market/src/store.ts:311-421 | handing each signed cursor text back, from none, ends within one request a row with exactly the matching rows in order, or with the byte-budget refusal exactly when a single row is above it; for offers and for trades in either order |
| Following.FollowingParticipantCursorsIsExact | packages/market/src/catalog.ts:157-166 | the same for the participant view |
| Following.FollowingInstrumentCursorsIsExact | packages/market/src/catalog.ts:168-177 | the same for the instrument view |
| Merkle.VerifyProof | packages/core/src/merkle.ts:69-78 | the loop accepts exactly well-formed proofs of at most 48 siblings whose fold is the root |
| Merkle.LeafInputInjective | packages/core/src/merkle.ts:22-46 | an entitlement's bytes determine recipient, asset and amount |
| Merkle.LeafInputLayout | packages/core/src/merkle.ts:22-53 | a leaf is its tag, the key, the asset and sixteen big-endian bytes of amount; a salt is its own tag and the salt |
| Merkle.LeafHashIsExact | packages/core/src/merkle.ts:22-46 | a leaf is refused exactly for an asset that is not hexadecimal or an amount that does not fit |
| Merkle.CombineCommutes | packages/core/src/merkle.ts:64-67 | a pair hashes alike in either order |
| Merkle.NodeInputLayout | packages/core/src/merkle.ts:64-67 | a node is its tag, the child with the lesser text, then the other |
| Merkle.NodeInputChildren | packages/core/src/merkle.ts:64-67 | equal node inputs have the same children |
| Merkle.FoldFirst | packages/core/src/merkle.ts:69-78 | folding from the leaf end and from the root end agree |
| Tree.BuildLayers | packages/claims/src/tree.ts:103-113 | the layer loop builds the tree, duplicating an odd last node |
| Tree.NextLayerPairs | packages/claims/src/tree.ts:104-113 | each node stands for the pair below it, the last of an odd layer for itself twice |
| Tree.PathTo | packages/claims/src/tree.ts:120-130 | the path loop extracts the siblings of one leaf |
| Tree.BuildCommit | packages/claims/src/tree.ts:79-154 | the whole builder: merged amounts, sorted recipients, salt leaf, root and total, or the first refusal |
| Tree.PathLength | packages/claims/src/tree.ts:103-130 | a path is the base-two logarithm of the leaf count, rounded up |
| Tree.PathFoldsToRoot | packages/claims/src/tree.ts:120-130 | every leaf folds up its own path to the root, odd layers included |
| Tree.PathIsAccepted | packages/core/src/merkle.ts:69-78 | up to 2^48 leaves the verifier accepts every leaf with its path |
| Tree.MergingConservesTotal | packages/claims/src/tree.ts:85-118 | recipients' amounts add up to the entries' amounts |
| Tree.MergedExactlyWhenPayable | packages/claims/src/tree.ts:85-94 | a batch is merged exactly when every entry names an address and a positive amount with no more decimals than the asset has |
| Tree.MergedAmountsAreExact | packages/claims/src/tree.ts:85-94 | then each recipient, and nobody else, is owed the sum of its own entries |
| Tree.CommitIsLaidOut | packages/claims/src/tree.ts:96-118 | the leaves are the recipients in address order, each once with what it is owed, and then the salt |
| Tree.CommitIsComplete | packages/claims/src/tree.ts:132-151 | every recipient's proof and the salt's are accepted and as long as the tree is high |
| Tree.AcceptedInputIsCommitted | packages/core/src/merkle.ts:69-78 | an accepted leaf is one of the batch's own |
| Tree.EntitlementIsSound | packages/claims/src/tree.ts:85-130 | an accepted entitlement is a recipient in the batch with exactly its merged amount and asset |
| Tree.SaltIsSound | packages/core/src/merkle.ts:48-53 | an accepted salt leaf is the batch's own salt |
| Drops.BindingIsSound | packages/economy/src/drops.ts:275-281 | a root binds one digest and nonce: an award that passes names them and is owed exactly what it says |
| Drops.DropSaltLayout | packages/economy/src/drops.ts:275-281 | the salt hashes the domain text, the digest and the nonce, in that order |
| Drops.CheckIsExact | packages/economy/src/drops.ts:321-369 | an award passes exactly when it names this table and digest and its root proves both the salt and the amount, and each refusal means what it says |
| Drops.HonestAwardPasses | packages/economy/src/drops.ts:339-369 | the batch's own proofs, table and nonce pass the check |
| Wire.PreimageRoundTrip | packages/core/src/wire.ts:372-378 | a decoder that checks every field recovers the canonical body of every encodable block from its preimage |
| WireExact.DecodingIsExact | packages/core/src/wire.ts:172-378 | the decoder reads a canonical body from exactly the bytes the encoder writes for it and refuses all others, so preimages and canonical bodies match one to one |
| WireExact.AssetLayout | packages/core/src/wire.ts:172-340 | every field of an asset block by byte position, for each of the eleven operations, with zeros wherever one has nothing to say |
| WireExact.IssueIdStandsInItsBytes | packages/core/src/wire.ts:172-195 | bytes 177 to 208 of an issue block are the hash of issuer and normalised symbol |
| WireExact.StateLayout | packages/core/src/wire.ts:310-322 | every field of a state block by byte position |
| Wire.SymbolIsRaised | packages/core/src/blocks.ts:239-248 | one to twenty letters, digits and hyphens, no hyphen first, are accepted in either case and between blanks, and come out raised and trimmed |
| Wire.AcceptedSymbolIsWritable | packages/core/src/blocks.ts:239-248 | and nothing else is accepted |
| Wire.SamePreimageExactlyWhenSameCanonicalBody | packages/core/src/wire.ts:172-340 | two encodable bodies hash the same bytes exactly when they have the same canonical form |
| Wire.CanonicalEncodesAlike | packages/core/src/wire.ts:172-340 | what is not canonical about a body is not in its bytes |
| Wire.StateAndAssetNeverCollide | packages/core/src/wire.ts:310-340 | no state block hashes the bytes of an asset block |
| Wire.PayloadFits | packages/core/src/wire.ts:149-161 | no payload outgrows its two-byte length |
| Wire.WideDecimalsAreLost | packages/core/src/wire.ts:122-125 | 256 decimal places encode as none |
| Wire.OpReadsBack | packages/core/src/wire.ts:172-308 | each of the eleven operations is recovered from its five fields, in canonical form |
| Hex.BigintToBytes | packages/core/src/hex.ts:25-35 | the loop writes the big-endian bytes, and refuses a negative amount or one that does not fit |
| Hex.HexToBytes | packages/core/src/hex.ts:11-16 | the loop reads exactly the bytes the text spells, or refuses |
| Hex.BytesToHex | packages/core/src/hex.ts:18-23 | the loop spells every byte in upper case |
| Hex.Concat | packages/core/src/hex.ts:41-50 | the buffer holds all parts in order |
| Hex.FromToHex | packages/core/src/hex.ts:11-23 | bytes printed as hexadecimal read back |
| Hex.HexIsUpperCase | packages/core/src/hex.ts:18-23 | each byte is two upper-case digits, the high one first |
| Hex.NibblesAreExact | packages/core/src/hex.ts:5-16 | the sixteen digits are read in either case, and nothing else is |
| Hex.BigEndianInjective | packages/core/src/hex.ts:25-35 | numbers that fit have distinct bytes |
| Ratios.Gcd | packages/market/src/stored-history.ts:458-467 | the loop computes the recursive greatest common divisor |
| Ratios.GcdIsGreatest | packages/market/src/stored-history.ts:458-467 | the result divides both numbers and every common divisor divides it |
| Ratios.ReduceIsCanonical | packages/market/src/stored-history.ts:447-456 | reduction keeps the value and leaves coprime parts over a positive denominator |
| Ratios.EqualExactlyWhenReducedAlike | packages/market/src/stored-history.ts:447-472 | ratios compare equal exactly when they reduce to the same ratio |
| Ratios.CompareIsTheOrderOfValues | packages/market/src/stored-history.ts:469-472 | over positive denominators the comparison is the order of the real values |
| Ratios.ReducingAgainChangesNothing | packages/market/src/stored-history.ts:430-456 | a reduced price reduces to itself |
| Ratios.SummaryChangesAddUp | packages/market/src/stored-history.ts:474-484 | first plus change is last, and the change ratio times first is the change |
| Ratios.MedianIsInTheMiddle | packages/market/src/stored-history.ts:486-496 | the median is the middle price or exactly halfway between the two, and lies between low and high |
| Ratios.BookOrderIsUnitPriceOrder | packages/market/src/book.ts:242-255 | the book's cross-multiplied order is the order of unit prices; only a zero base has none |
| Ratios.UnitPriceIsQuotePerBase | packages/market/src/stored-history.ts:421-431 | a unit price is worth quote units over base units, each by its own decimals |
| Ratios.BookOrderIsTheOrderOfWorth | packages/market/src/book.ts:238-255 | the book ranks offers by what their prices are worth, offers of no base as worth nothing |
| Ratios.LevelsRankByPrice | packages/market/src/book.ts:273-276 | asks rank cheapest first, bids dearest first, and only equal prices are left to the hashes |
| Candles.CandleStartIsFloor | packages/market/src/series.ts:300-318 | a bucket start is the true floor for negative times too, refused exactly for unsafe times and floors |
| Candles.BucketCandles | packages/market/src/series.ts:369-396 | the bucket loop computes the buckets in start order, or refuses an unplaceable time |
| Candles.BucketsAreAChart | packages/market/src/series.ts:369-396 | buckets strictly ascend, partition the points and add up to them; each opens and closes with its first and last point and spans its prices |
| Candles.ChartFacts | packages/market/src/stored-history.ts:344-381 | a point lies in one candle only, and low, open, close and high stand in order |
| Candles.BucketKeepsTimeOrder | packages/market/src/stored-history.ts:344-368 | a bucket opens with its earliest point and closes with its latest |
| Series.ToCandles | packages/market/src/series.ts:352-432 | the call answers with sparse candles, a dense fill, or the first refusal |
| Series.Fill | packages/market/src/series.ts:412-430 | the fill has the projected length on an even grid, gives the sparse candles back when its empty ones are removed, and repeats the previous close |
| Series.SparseCandlesAreAChart | packages/market/src/series.ts:360-396 | the candles of a series are a chart of the trades it kept |
| Series.KeptAreTheLatest | packages/market/src/series.ts:160-170 | the kept trades are the latest ones, as many as asked for, by time and then by hash |
| Series.BudgetIsExact | packages/market/src/series.ts:281-290 | the candle budget is ten thousand by default and a whole number up to a million |
| StoredHistory.CandlesOf | packages/market/src/stored-history.ts:327-382 | exact candles of one page: refused when a time has no bucket, otherwise a chart of its points |
| StoredHistory.OrderedPoints | packages/market/src/stored-history.ts:279-280 | points are the page rearranged, oldest first and of one time by hash |
| StoredHistory.SummaryOf | packages/market/src/stored-history.ts:384-412 | nothing for an empty page, refused only for a zero first price, otherwise an exact summary |
| StoredHistory.SummaryIsExact | packages/market/src/stored-history.ts:384-412 | first, last, extremes, median and change mean what a reader takes them for, base volume is the sum of base quantities and quote turnover that of quote totals |
| StoredHistory.PageAddsUp | packages/market/src/stored-history.ts:278-291 | a page's candles and its summary count the same trades and volumes, and open and close with the same prices |
| Amount.ToRawIsExact | packages/core/src/amount.ts:74-97 | a well-formed text converts to the raw amount of exactly its value, and is refused exactly when there is none |
| Amount.FormatRoundTrip | packages/core/src/amount.ts:74-106 | formatting raw units and reading them back loses nothing |
| Amount.ToRawRefusesExactly | packages/core/src/amount.ts:74-85 | an amount is refused for its sign exactly when it starts with one, and for its shape exactly when it is no decimal |
| Amount.FormatIsCanonical | packages/core/src/amount.ts:100-106 | raw units are spelled one way, with no trailing fraction zero and no spare leading one |
| DecimalText.ParseReadsDecimals | packages/core/src/amount.ts:80-85 | a plus or none, digits, and perhaps a point and more digits are read as those digits unless there are none |
| DecimalText.ParsedIsWritten | packages/core/src/amount.ts:80-85 | nothing else is read as a decimal |
| DecimalText.TrimIsExact | packages/core/src/amount.ts:75 | trimming takes all white space from both ends and nothing else |
| DecimalText.SpacesAreExact | packages/core/src/amount.ts:75 | the characters trimming takes |
| Printed.ExpandKeepsNumber | packages/core/src/amount.ts:46-68 | writing out a printed number keeps its sign and its magnitude, whether it was printed with an exponent or without |
| Printed.NumberToRawIsExact | packages/core/src/amount.ts:46-97 | an amount given as a number converts to the raw amount of exactly its value, and is refused exactly when it is negative or there is none |
| Instrument.ProductIsExact | packages/market/src/instrument.ts:1206-1245 | the product text denotes exactly units times unit price, spelled one way |
| Instrument.PartsAreExact | packages/market/src/instrument.ts:1222-1245 | a factor is accepted exactly when it is a positive decimal of at most 39 significant digits and 18 places in at most 59 characters, and is then its digits over its places |
| Instrument.ProductIsRefusedExactly | packages/market/src/instrument.ts:1206-1214 | a product is refused exactly when a factor is or when it is past 128 bits |
| Kei.MintIsFloorOfTheWrittenRate | packages/kei/src/kei.ts:621-648 | the mint is the exact floor of payment times the number the rate text denotes, however it is written |
| Kei.MintOfANumberIsExactFloor | packages/kei/src/kei.ts:621-669 | the same for a rate given as a number, exponent notation included; a negative one is refused |
| Kei.RatesAreReadExactly | packages/kei/src/kei.ts:633-648 | a rate is refused for its sign exactly when it starts with one, for its shape exactly when it is no decimal, and is otherwise its digits over its places |
| Kei.SplitPaymentNeverMintsMore | packages/kei/src/kei.ts:621-630 | two parts never mint more than the whole and lose at most one unit |
| Kei.SplittingNeverMintsMore | packages/kei/src/kei.ts:621-630 | no splitting of a payment mints more than the whole |
| CoverageAlgebra.HasNoProblem | packages/market/src/walk.ts:526-604 | the checking loops accept exactly the valid coverages |
| CoverageAlgebra.MergeIsAcceptedExactly | packages/market/src/walk.ts:229-296 | a merge is refused exactly for an invalid part, parts of different scopes, or more failed accounts than asked |
| CoverageAlgebra.MergeIsValidOrRefused | packages/market/src/walk.ts:229-296 | merging valid parts of one scope gives a valid, canonical coverage of exactly what the parts missed, or is refused exactly when more accounts failed than were asked |
| CoverageAlgebra.MergeBlamesExactly | packages/market/src/walk.ts:250-270 | a merge blames an account for a reason exactly when one of its parts does |
| CoverageAlgebra.MergeListsExactly | packages/market/src/walk.ts:277-280 | it lists as truncated or skipped exactly what any part does, and dropped the most any part did |
| CoverageAlgebra.MergeCountsExactly | packages/market/src/walk.ts:279-296 | it reads what it asked less what failed, and is complete exactly when all its parts are and nothing is missing |
| CoverageAlgebra.ReasonsAreJoined | packages/market/src/walk.ts:263-268 | several reasons read as one text, each but the last followed by a semicolon and a space |
| CoverageAlgebra.MergeIgnoresOrderAndRepetition | packages/market/src/walk.ts:229-296 | neither the order of the parts nor repeating them matters |
| CoverageAlgebra.NestingDoesNotMatter | packages/market/src/walk.ts:229-296 | merging in groups, however nested, gives what merging all parts at once gives, exact reasons and refusals included |
| CoverageAlgebra.LoneMergeIsIdentityExactlyWhenCanonical | packages/market/src/walk.ts:229-296 | a lone merge is the identity exactly on canonical coverages |
| CoverageAlgebra.EmptyMergeIsNeutralOnlyForEmptyScopes | packages/market/src/walk.ts:166-176 | an empty merge is neutral only for scopes of no accounts |
| CoverageAlgebra.MergeCoverage | packages/market/src/walk.ts:229-296 | the merging loops compute the merge |
| Lanes.EveryRunIsBounded | packages/market/src/walk.ts:483-512 | over every interleaving at most min(concurrency, n) items are in flight, none is started twice, and runs are bounded |
| Lanes.FinishedRunAnswersInOrder | packages/market/src/walk.ts:483-512 | a finished run started every item once and holds each answer at its own index |
| Lanes.NoDeadlock | packages/market/src/walk.ts:483-512 | a run stops only when all lanes have |
| Lanes.MapConcurrent | packages/market/src/walk.ts:483-512 | under any scheduler the results are the answers in index order |
| Walk.WalkAccounts | packages/market/src/walk.ts:311-395 | the walk reports the answers in request order and the coverage of what it could not see |
| Walk.ReportedCoverageIsValid | packages/market/src/walk.ts:311-395 | the reported coverage passes the coverage check, and is complete exactly when nothing was missed |
| Recency.Memory.Recall | packages/core/src/asset-cache.ts:198-206 | a recalled record moves to the end of the order of use |
| Recency.Memory.Remember | packages/core/src/asset-cache.ts:234-243 | remembering evicts from the front down to the limit |
| Recency.TouchKeepsOrder | packages/core/src/asset-cache.ts:198-206 | touching keeps the records in order of last use |
| Recency.RememberEvictsLeastRecent | packages/core/src/asset-cache.ts:234-243 | what is evicted was used before everything that stays, and no more is evicted than the limit asks |
| Gate.Gate.Take | packages/core/src/asset-cache.ts:119-126 | a task takes a free slot or queues |
| Gate.Gate.Release | packages/core/src/asset-cache.ts:119-130 | a freed slot goes straight to the longest waiting task |
| AssetCache.EveryRunIsSafe | packages/core/src/asset-cache.ts:113-241 | over every interleaving at most limit lookups run, a queued task implies all slots are taken, slots are given in arrival order, one request an asset, a bounded memory, and only the node's own records |
| Lookups.OutcomesAreExact | packages/core/src/asset-cache.ts:208-232 | over every honest run a finished lookup found the record exactly when the node answered one under the asked id, found none exactly when the node knew none, and was rejected exactly for a broken request or another id |
| Lookups.FoundIsRemembered | packages/core/src/asset-cache.ts:224-243 | what a lookup found is in the memory from then on, when there is room for anything |
| Lookups.AskingIsExact | packages/core/src/asset-cache.ts:182-214 | asking for a remembered asset gives its record and starts nothing, for one being asked about waits for that lookup, and otherwise starts exactly one |
| AssetCache.RequestsBeginInOrderExactlyWithOneSlot | packages/core/src/asset-cache.ts:113-130 | every run begins its requests in arrival order if and only if the cache has at most one slot |
| AssetCache.ALaterRequestCanBeginFirst | packages/core/src/asset-cache.ts:119-130 | under every limit of two or more, a run in which a later lookup begins first |
| AssetCache.NothingElseBlocks | packages/core/src/asset-cache.ts:208-232 | in every run an ask may always come, an answer for exactly the lookups asking, a woken lookup may always resume, and an answered one conclude and then close |
| ClaimRecords.StepsAgreeExactlyWhenAgreeable | packages/claims/src/store.ts:64-118 | one request is answered alike by both stores exactly when it is agreeable, and then the records stay alike |
| ClaimRecords.ListsAreExact | packages/claims/src/store.ts:69-71 | both stores list their first roots, as many as asked for; a negative limit counts from the memory store end |
| ClaimRecords.RunsAgreeExactlyWhenAgreeable | packages/claims/src/store.ts:64-376 | whole runs are answered alike if and only if every request is agreeable |
| ClaimRecords.SignedRunsAgree | packages/claims/src/store.ts:64-376 | signed admissions and non-negative limits keep any run observationally equal |
| ClaimRecords.EveryRunIsBounded | packages/claims/src/store.ts:310-343 | every run holds at most 128 records under distinct roots |
| ClaimRecords.AdmittedValuesStand | packages/claims/src/store.ts:324-338 | no admission displaces a different admitted value; only a plain write or removal of that root does |
| ClaimRecords.AdmittedBytesVerify | packages/claims/src/store.ts:301-308 | admitted bytes are returned only under an authority that verifies for them |
| ClaimRecords.AdmissionsWereRequested | packages/claims/src/store.ts:324-367 | every admission in a run was requested with that very authority |
| ClaimStores.MemoryClaimStore.Write | packages/claims/src/store.ts:77-86 | writing follows the memory step and leaves other scopes alone |
| ClaimStores.MemoryClaimStore.Admit | packages/claims/src/store.ts:88-101 | admitting follows the memory step |
| ClaimStores.MemoryClaimStore.Remove | packages/claims/src/store.ts:109-117 | removing follows the memory step |
| ClaimStores.MemoryClaimStore.List | packages/claims/src/store.ts:69-71 | listing follows the memory step |
| ClaimStores.BrowserClaimStore.Write | packages/claims/src/store.ts:310-322 | writing follows the browser step |
| ClaimStores.BrowserClaimStore.Admit | packages/claims/src/store.ts:324-367 | the two writes and read-backs of an admission amount to one browser step |
| ClaimStores.BrowserClaimStore.Remove | packages/claims/src/store.ts:369-376 | removing follows the browser step |
| ClaimStores.BrowserClaimStore.ReadAdmitted | packages/claims/src/store.ts:301-308 | reading an admission follows the browser step |


## Left out

- Hashing and signing: blake2b, Ed25519, cursor signatures and randomness are parameters; the canonical-signature check is part of the verification parameter.
- HTTP, timeouts, deadlines, abort signals and clocks: a call that fails for one of these is not part of any run here, and nothing is claimed about it.
- Shape validation of untrusted input (prototypes, accessors, field patterns, the wording of errors): fields are typed values that already satisfy it, and every merge refusal shares one code.
- Schema version 1 migration, the durable read-back after a commit, and adapters other than the one-cell reference adapter.
- UTF-8: block texts are the bytes they encode to, so lone surrogates do not arise there; symbols are upper-cased in ASCII only.
- Floating-point display numbers: prices of a numeric series are abstract reals, its units whole numbers; sums of announcement counts past 2^53 are exact here where a double would round.
- Which digits `String(value)` chooses for a number: any sign, digits and exponent it may print are covered.
- JSON as a whole: row sizes are a parameter, and only the tie-breaking text of checkpoints and its string quoting are spelled out.
- Encoding of scopes as storage keys in the claim stores, the JSON of the browser namespace and its older versions: records are kept per scope as values.
- Ingestion, instrument polling, expiry timers, the nonce store, wallet panels, recipes and examples: wiring around the parts above.
- mapConcurrent's abort path: lanes stop early when a signal fires; only runs without one are modelled.
- MarketStorage.UpdateEnvelope: other writers' work between its steps is given as a list of what it finds, because one method body runs alone, and a deadline that stops it is not modelled; History covers the interleavings.
- CoverageAlgebra.MergeIsValidOrRefused: the sentence of a refusal is not modelled.
- Unlinked records of other packages (ledger mock, tokens, items, work generation) are not part of this model.
