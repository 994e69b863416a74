/** Page reads of packages/market/src/store.ts and catalog.ts, and what a reader sees while writers commit. */
module Readers {
  import opened Texts
  import opened Outcomes
  import opened Ordering
  import opened Envelopes
  import opened Paging
  import opened Cursors
  import opened Reconcile
  import opened Commits
  import opened History
  import Views

  // ------------------------------------------------- serving one page

  datatype ReadRefusal = CursorRefused(error: CursorError) | ResultTooLarge

  datatype Served<T> = Served(page: Paged<T>, nextCursor: Option<Text>, revision: nat)

  type Decoder = (Option<Text>, nat) -> Result<Option<Text>, CursorError>
  type Encoder = (nat, Text) -> Text

  /** Check the cursor against the snapshot's revision, read the page, sign the next cursor. */
  function Serve<T>(rows: seq<T>, keyOf: T -> Text, sizeOf: T -> nat, descending: bool, revision: nat,
                    cursor: Option<Text>, budget: Budget, decode: Decoder,
                    encode: Encoder): Result<Served<T>, ReadRefusal>
  {
    match decode(cursor, revision)
    case Err(error) => Err(CursorRefused(error))
    case Ok(after) =>
      match PageAfter(rows, keyOf, sizeOf, descending, after, budget)
      case TooLarge => Err(ResultTooLarge)
      case Page(page, bytes, next) =>
        var nextCursor := if next.Some? then Some(encode(revision, next.value)) else None;
        Ok(Served(Paged.Page(page, bytes, next), nextCursor, revision))
  }

  /** Keys short enough for a cursor to carry. */
  predicate Carries(key: Text) { 0 < |key| <= 400 }

  ghost predicate Lawful(decode: Decoder, encode: Encoder) {
    && (forall now: nat :: decode(None, now) == Ok(None))
    && (forall revision: nat, now: nat, key: Text :: revision <= MAX_SAFE && Carries(key) ==>
          decode(Some(encode(revision, key)), now) == if revision != now then Err(StaleCursor) else Ok(Some(key)))
  }

  /** A reader's successful requests: each after the first with the cursor the one before it got. */
  ghost predicate IsServing<T>(rows: seq<seq<T>>, revisions: seq<nat>, served: seq<Served<T>>, budgets: seq<Budget>,
                               keyOf: T -> Text, sizeOf: T -> nat, descending: bool, decode: Decoder, encode: Encoder)
  {
    && |rows| == |revisions| == |served| == |budgets|
    && (forall i :: 0 <= i < |served| ==>
          && revisions[i] <= MAX_SAFE && budgets[i].limit >= 1
          && Serve(rows[i], keyOf, sizeOf, descending, revisions[i], CursorSent(served, i), budgets[i], decode,
               encode) == Ok(served[i]))
    && (forall i :: 0 <= i < |served| - 1 ==> served[i].nextCursor.Some?)
  }

  function CursorSent<T>(served: seq<Served<T>>, i: nat): Option<Text>
    requires i <= |served|
  {
    if i == 0 then None else served[i - 1].nextCursor
  }

  function PagesOf<T>(served: seq<Served<T>>): seq<Paged<T>> {
    seq(|served|, i requires 0 <= i < |served| => served[i].page)
  }

  lemma ServedStep<T>(rows: seq<T>, keyOf: T -> Text, sizeOf: T -> nat, descending: bool, revision: nat,
                      cursor: Option<Text>, budget: Budget, decode: Decoder, encode: Encoder, served: Served<T>)
    requires Serve(rows, keyOf, sizeOf, descending, revision, cursor, budget, decode, encode) == Ok(served)
    ensures decode(cursor, revision).Ok? && served.revision == revision && served.page.Page?
    ensures served.page == PageAfter(rows, keyOf, sizeOf, descending, decode(cursor, revision).value, budget)
    ensures served.nextCursor == if served.page.next.Some? then Some(encode(revision, served.page.next.value)) else None
  {
    hide PageAfter;
  }

  lemma NextKeyIsARowKey<T>(
      rows: seq<T>, keyOf: T -> Text, sizeOf: T -> nat, descending: bool, after: Option<Text>, budget: Budget)
    requires forall r :: r in rows ==> Carries(keyOf(r))
    ensures var p := PageAfter(rows, keyOf, sizeOf, descending, after, budget);
      p.Page? && p.next.Some? ==> Carries(p.next.value)
  {
    hide Fit, Size, Carries;
    RestAreRows(rows, keyOf, descending, after);
  }

  lemma {:induction false} RestAreRows<T>(rows: seq<T>, keyOf: T -> Text, descending: bool, after: Option<Text>)
    ensures forall r :: r in Rest(rows, keyOf, descending, after) ==> r in rows
    decreases |rows|
  {
    hide Passed;
    if rows != [] {
      RestAreRows(rows[..|rows| - 1], keyOf, descending, after);
      assert rows == rows[..|rows| - 1] + [rows[|rows| - 1]];
    }
  }

  /** What a cursor decodes to at the next request: the last key, under the same revision. */
  lemma CursorHandsOver<T>(rows: seq<seq<T>>, revisions: seq<nat>, served: seq<Served<T>>, budgets: seq<Budget>,
                           keyOf: T -> Text, sizeOf: T -> nat, descending: bool, decode: Decoder, encode: Encoder,
                           i: nat)
    requires IsServing(rows, revisions, served, budgets, keyOf, sizeOf, descending, decode, encode) &&
      Lawful(decode, encode)
    requires forall k, r :: 0 <= k < |rows| && r in rows[k] ==> Carries(keyOf(r))
    requires 0 < i < |served|
    ensures revisions[i] == revisions[i - 1] && served[i - 1].page.Page? && served[i - 1].page.next.Some?
    ensures decode(CursorSent(served, i), revisions[i]) == Ok(served[i - 1].page.next)
  {
    hide Serve, PageAfter, Carries;
    ServedStep(rows[i - 1], keyOf, sizeOf, descending, revisions[i - 1], CursorSent(served, i - 1), budgets[i - 1],
        decode, encode, served[i - 1]);
    ServedStep(rows[i], keyOf, sizeOf, descending, revisions[i], CursorSent(served, i), budgets[i], decode, encode,
        served[i]);
    NextKeyIsARowKey(rows[i - 1], keyOf, sizeOf, descending,
        decode(CursorSent(served, i - 1), revisions[i - 1]).value, budgets[i - 1]);
  }

  /** A reader whose every request went through stayed on one revision, and read its pages in turn. */
  lemma ServingIsReading<T>(rows: seq<seq<T>>, revisions: seq<nat>, served: seq<Served<T>>, budgets: seq<Budget>,
                            keyOf: T -> Text, sizeOf: T -> nat, descending: bool, decode: Decoder, encode: Encoder)
    requires IsServing(rows, revisions, served, budgets, keyOf, sizeOf, descending, decode, encode) &&
      Lawful(decode, encode)
    requires forall k, r :: 0 <= k < |rows| && r in rows[k] ==> Carries(keyOf(r))
    ensures IsReading(rows, PagesOf(served), budgets, keyOf, sizeOf, descending)
    ensures forall i :: 0 < i < |served| ==> revisions[i] == revisions[i - 1]
    ensures forall i :: 0 <= i < |served| ==> (served[i].nextCursor.None? <==> served[i].page.next.None?)
  {
    hide Serve, PageAfter, Carries, Lawful;
    var pages := PagesOf(served);
    forall i | 0 <= i < |served|
      ensures pages[i].Page? &&
        pages[i] == PageAfter(rows[i], keyOf, sizeOf, descending, CursorBefore(pages, i), budgets[i])
      ensures served[i].nextCursor.None? <==> served[i].page.next.None?
      ensures i > 0 ==> revisions[i] == revisions[i - 1] && pages[i - 1].Page? && pages[i - 1].next.Some?
    {
      ServedStep(rows[i], keyOf, sizeOf, descending, revisions[i], CursorSent(served, i), budgets[i], decode, encode,
          served[i]);
      if i > 0 {
        CursorHandsOver(rows, revisions, served, budgets, keyOf, sizeOf, descending, decode, encode, i);
      } else {
        DecodesNothing(decode, encode, revisions[0]);
      }
    }
    forall i | 0 <= i < |pages| - 1 ensures pages[i].next.Some? {
      CursorHandsOver(rows, revisions, served, budgets, keyOf, sizeOf, descending, decode, encode, i + 1);
    }
  }

  lemma DecodesNothing(decode: Decoder, encode: Encoder, now: nat)
    requires Lawful(decode, encode)
    ensures decode(None, now) == Ok(None)
  {}

  lemma {:induction false} OneRevision(revisions: seq<nat>, i: nat, j: nat)
    requires i <= j < |revisions| && forall k :: 0 < k < |revisions| ==> revisions[k] == revisions[k - 1]
    ensures revisions[i] == revisions[j]
    decreases j
  {
    if i < j { OneRevision(revisions, i, j - 1); }
  }

  // ------------------------------------------------------ offers and trades

  datatype RowQuery =
    | Offers(network: Label, base: Option<AssetName>, quote: Option<AssetName>, state: Option<OfferState>)
    | Trades(network: Label, pair: Instrument, newest: bool, from: Option<Safe>, to: Option<Safe>)

  /** The row filters of `offers` and `trades`; a trade matches from either side of its pair. */
  predicate Selects(q: RowQuery, o: Offer) {
    && o.network == q.network
    && match q
       case Offers(_, base, quote, state) =>
         && (base.Some? ==> o.giveAsset == base.value)
         && (quote.Some? ==> o.wantAsset == quote.value)
         && (state.Some? ==> o.state == state.value)
       case Trades(_, pair, _, from, to) =>
         && o.state == Accepted
         && ((o.giveAsset == pair.base && o.wantAsset == pair.quote) ||
         (o.giveAsset == pair.quote && o.wantAsset == pair.base))
         && (from.Some? ==> from.value <= SettledAt(o))
         && (to.Some? ==> SettledAt(o) <= to.value)
  }

  /** Every accepted row has a settlement time. */
  function SettledAt(o: Offer): Safe { o.settledAt.GetOr(0) }

  function TradeKeyOf(o: Offer): Text { TradeKey(SettledAt(o), o.hash) }

  function Selected(offers: seq<Offer>, q: RowQuery): seq<Offer> {
    if offers == [] then []
    else
      var n := |offers| - 1;
      Selected(offers[..n], q) + (if Selects(q, offers[n]) then [offers[n]] else [])
  }

  function OfferPlace(o: Offer): Rank { TextRank(OfferKey(o)) }

  function TradePlace(o: Offer): Rank { TextRank(TradeKeyOf(o)) }

  function Reversed<T>(rows: seq<T>): seq<T> {
    seq(|rows|, i requires 0 <= i < |rows| => rows[|rows| - 1 - i])
  }

  predicate Descending(q: RowQuery) { q.Trades? && q.newest }

  /** The rows a query pages through, in its order. */
  function RowsOf(e: Envelope, q: RowQuery): seq<Offer> {
    if q.Offers? then StableSort(Selected(e.offers, q), OfferPlace)
    else
      var oldest := StableSort(Selected(e.offers, q), TradePlace);
      if q.newest then Reversed(oldest) else oldest
  }

  function KeyFor(q: RowQuery): Offer -> Text { if q.Offers? then OfferKey else TradeKeyOf }

  lemma {:induction false} SelectedRows(offers: seq<Offer>, q: RowQuery)
    requires DistinctKeys(offers, OfferKey)
    ensures DistinctKeys(Selected(offers, q), OfferKey)
    ensures forall o :: o in Selected(offers, q) ==> o in offers && Selects(q, o)
    ensures forall o :: o in offers && Selects(q, o) ==> o in Selected(offers, q)
    decreases |offers|
  {
    hide OfferKey, Selects;
    if offers != [] {
      var n := |offers| - 1;
      var front := Selected(offers[..n], q);
      SelectedRows(offers[..n], q);
      assert offers == offers[..n] + [offers[n]];
      forall i | 0 <= i < |front| ensures OfferKey(front[i]) != OfferKey(offers[n]) {
        assert front[i] in front;
        var k :| 0 <= k < n && offers[..n][k] == front[i];
      }
    }
  }

  /** Two rows of one trade query with one trade key are one row. */
  lemma SelectedTradeKeys(offers: seq<Offer>, q: RowQuery)
    requires DistinctKeys(offers, OfferKey) && forall o :: o in offers ==> Selects(q, o)
    ensures DistinctKeys(offers, KeyFor(q))
  {
    hide TradeKey, Join;
    if q.Trades? {
      forall i, j | 0 <= i < j < |offers| ensures TradeKeyOf(offers[i]) != TradeKeyOf(offers[j]) {
        assert offers[i] in offers && offers[j] in offers;
        TradeKeyOrder(SettledAt(offers[i]), offers[i].hash, SettledAt(offers[j]), offers[j].hash);
        assert OfferKey(offers[i]) != OfferKey(offers[j]);
      }
    }
  }

  lemma SortedRows(e: Envelope, q: RowQuery)
    requires EnvelopeInv(e)
    ensures var sorted := StableSort(Selected(e.offers, q), if q.Offers? then OfferPlace else TradePlace);
      && KeysAscend(sorted, KeyFor(q)) && KeySet(sorted, KeyFor(q)) == KeySet(Selected(e.offers, q), KeyFor(q))
      && (forall o :: o in sorted ==> o in e.offers && Selects(q, o))
      && (forall o :: o in e.offers && Selects(q, o) ==> o in sorted)
  {
    hide StableSort, OfferKey, TradeKeyOf, Selects, KeysAscend, KeySet, DistinctKeys, IsStored, Selected;
    AscendingKeysAreDistinct(e.offers, OfferKey);
    SelectedRows(e.offers, q);
    SelectedTradeKeys(Selected(e.offers, q), q);
    SortingAscends(Selected(e.offers, q), KeyFor(q), if q.Offers? then OfferPlace else TradePlace);
  }

  lemma ReversedOrder<T>(rows: seq<T>, keyOf: T -> Text)
    requires KeysAscend(rows, keyOf)
    ensures InOrder(rows, keyOf, false) && InOrder(Reversed(rows), keyOf, true)
    ensures forall r :: r in Reversed(rows) ==> r in rows
    ensures forall r :: r in rows ==> r in Reversed(rows)
  {
    hide Less;
    forall r | r in rows ensures r in Reversed(rows) {
      var i :| 0 <= i < |rows| && rows[i] == r;
      assert Reversed(rows)[|rows| - 1 - i] == r;
    }
  }

  /** The rows of a query are the matching ones, each once, in the query's order. */
  lemma RowsAreInOrder(e: Envelope, q: RowQuery)
    requires EnvelopeInv(e)
    ensures InOrder(RowsOf(e, q), KeyFor(q), Descending(q))
    ensures forall o :: o in RowsOf(e, q) ==> o in e.offers && Selects(q, o)
    ensures forall o :: o in e.offers && Selects(q, o) ==> o in RowsOf(e, q)
  {
    hide StableSort, OfferKey, TradeKeyOf, Selects, KeysAscend, KeySet, InOrder, Selected, Reversed, EnvelopeInv;
    SortedRows(e, q);
    ReversedOrder(StableSort(Selected(e.offers, q), if q.Offers? then OfferPlace else TradePlace), KeyFor(q));
  }

  /** An offer page shows the stored offers of its network, give asset, want asset and state, as far as it asks. */
  lemma OfferRowsAreExact(
      e: Envelope, network: Label, base: Option<AssetName>, quote: Option<AssetName>, state: Option<OfferState>,
      o: Offer)
    requires EnvelopeInv(e)
    ensures o in RowsOf(e, Offers(network, base, quote, state)) <==>
      && o in e.offers && o.network == network && base in {None, Some(o.giveAsset)}
      && quote in {None, Some(o.wantAsset)} && state in {None, Some(o.state)}
  {
    hide RowsOf, KeyFor, KeysAscend, DistinctKeys, IsStored;
    RowsAreInOrder(e, Offers(network, base, quote, state));
  }

  /** A trade page shows the accepted offers between its two assets, either way round, settled in its span. */
  lemma TradeRowsAreExact(
      e: Envelope, network: Label, pair: Instrument, newest: bool, from: Option<Safe>, to: Option<Safe>, o: Offer)
    requires EnvelopeInv(e)
    ensures o in RowsOf(e, Trades(network, pair, newest, from, to)) <==>
      && o in e.offers && o.network == network && o.state == Accepted
      && Instrument(o.giveAsset, o.wantAsset) in {pair, Instrument(pair.quote, pair.base)}
      && o.settledAt.Some? && (from.None? || !(o.settledAt.value < from.value))
      && (to.None? || !(o.settledAt.value > to.value))
  {
    hide RowsOf, KeyFor, KeysAscend, DistinctKeys;
    RowsAreInOrder(e, Trades(network, pair, newest, from, to));
  }

  /** Newest first means no earlier settlement before a later one; oldest first the other way. */
  lemma TradesStandInTimeOrder(e: Envelope, q: RowQuery, i: nat, j: nat)
    requires EnvelopeInv(e) && q.Trades? && i < j < |RowsOf(e, q)|
    ensures var a, b := RowsOf(e, q)[i], RowsOf(e, q)[j];
      if q.newest then SettledAt(a) > SettledAt(b) || (SettledAt(a) == SettledAt(b) && Less(b.hash, a.hash))
      else SettledAt(a) < SettledAt(b) || (SettledAt(a) == SettledAt(b) && Less(a.hash, b.hash))
  {
    hide RowsOf, KeysAscend, DistinctKeys, IsStored, TradeKey, Less;
    RowsAreInOrder(e, q);
    var a, b := RowsOf(e, q)[i], RowsOf(e, q)[j];
    TradeKeyOrder(SettledAt(a), a.hash, SettledAt(b), b.hash);
    TradeKeyOrder(SettledAt(b), b.hash, SettledAt(a), a.hash);
  }

  lemma RowKeysAreShort(q: RowQuery, o: Offer)
    ensures Carries(KeyFor(q)(o))
  {
    hide Join;
    TradeTime(SettledAt(o));
    Views.JoinedLengths(o.network, o.hash, []);
  }

  lemma TimelessSelects(q: RowQuery, a: Offer, b: Offer)
    requires Timeless(a) == Timeless(b)
    ensures Selects(q, a) == Selects(q, b) && KeyFor(q)(a) == KeyFor(q)(b)
  {
    hide Join, TradeKey;
  }

  lemma {:induction false} SelectedSideBySide(a: seq<Offer>, b: seq<Offer>, q: RowQuery)
    requires SameVisible(a, b)
    ensures SameVisible(Selected(a, q), Selected(b, q))
    decreases |a|
  {
    hide Timeless, Selects;
    if a != [] {
      var n := |a| - 1;
      SelectedSideBySide(a[..n], b[..n], q);
      assert Timeless(a[n]) == Timeless(b[n]);
      TimelessSelects(q, a[n], b[n]);
    }
  }

  lemma SideBySideKeys(a: seq<Offer>, b: seq<Offer>, q: RowQuery)
    requires SameVisible(a, b)
    ensures KeySet(a, KeyFor(q)) == KeySet(b, KeyFor(q))
  {
    hide Timeless, KeyFor;
    forall i | 0 <= i < |a| ensures KeyFor(q)(a[i]) == KeyFor(q)(b[i]) {
      assert Timeless(a[i]) == Timeless(b[i]);
      TimelessSelects(q, a[i], b[i]);
    }
  }

  lemma ReversedKeys<T>(a: seq<T>, b: seq<T>, keyOf: T -> Text)
    requires KeyList(a, keyOf) == KeyList(b, keyOf)
    ensures KeyList(Reversed(a), keyOf) == KeyList(Reversed(b), keyOf)
  {
    var ka, kb := KeyList(a, keyOf), KeyList(b, keyOf);
    assert |a| == |ka| == |kb| == |b|;
    forall i | 0 <= i < |a| ensures keyOf(Reversed(a)[i]) == keyOf(Reversed(b)[i]) {
      assert ka[|a| - 1 - i] == kb[|a| - 1 - i];
    }
  }

  /** Envelopes with the same visible rows page through the same keys. */
  lemma SameVisibleSameKeys(a: Envelope, b: Envelope, q: RowQuery)
    requires EnvelopeInv(a) && EnvelopeInv(b) && SameVisible(a.offers, b.offers)
    ensures KeyList(RowsOf(a, q), KeyFor(q)) == KeyList(RowsOf(b, q), KeyFor(q))
  {
    hide StableSort, OfferKey, TradeKeyOf, Selects, KeysAscend, KeySet, InOrder, Selected, Reversed;
    hide EnvelopeInv, SameVisible, KeyFor, KeyList;
    SortedRows(a, q);
    SortedRows(b, q);
    SelectedSideBySide(a.offers, b.offers, q);
    SideBySideKeys(Selected(a.offers, q), Selected(b.offers, q), q);
    var rank := if q.Offers? then OfferPlace else TradePlace;
    var x, y := StableSort(Selected(a.offers, q), rank), StableSort(Selected(b.offers, q), rank);
    SameKeysSamePlaces(x, y, KeyFor(q), KeyFor(q));
    ReversedKeys(x, y, KeyFor(q));
  }

  // ------------------------------------------------ the store's page readers

  function KindFor(q: RowQuery): StoreKind { if q.Offers? then OfferPages else TradePages }

  function StoreDecoder(kind: StoreKind, scope: Mac, secret: Text, sign: Signer): Decoder {
    (cursor, now) => StoreCursorOf(kind, cursor, now, scope, secret, sign)
  }

  function StoreEncoder(kind: StoreKind, scope: Mac, secret: Text, sign: Signer): Encoder {
    (revision, key) => StoreCursor(kind, revision, scope, secret, key, sign)
  }

  lemma StoreCodecIsLawful(kind: StoreKind, scope: Mac, secret: Text, sign: Signer)
    ensures Lawful(StoreDecoder(kind, scope, secret, sign), StoreEncoder(kind, scope, secret, sign))
  {
    hide StoreCursor;
    forall revision: nat, now: nat, key: Text | revision <= MAX_SAFE && Carries(key)
      ensures StoreDecoder(kind, scope, secret, sign)(Some(StoreEncoder(kind, scope, secret, sign)(revision, key)), now)
           == if revision != now then Err(StaleCursor) else Ok(Some(key))
    {
      StoreCursorRoundTrip(kind, revision, now, scope, secret, key, sign);
    }
  }

  /** `offers(query)` and `trades(query)` on the envelope they load. */
  function StorePage(
      e: Envelope, q: RowQuery, cursor: Option<Text>, budget: Budget, scope: Mac, sign: Signer,
      sizeOf: Offer -> nat)
    : Result<Served<Offer>, ReadRefusal>
  {
    Serve(RowsOf(e, q), KeyFor(q), sizeOf, Descending(q), e.offerRevision, cursor, budget,
          StoreDecoder(KindFor(q), scope, e.cursorKey, sign), StoreEncoder(KindFor(q), scope, e.cursorKey, sign))
  }

  /** An offer page leaves an offer cursor, a trade page a trade cursor, for its last row under its own revision. */
  lemma PageCursorsNameTheirKind(
      e: Envelope, q: RowQuery, cursor: Option<Text>, budget: Budget, scope: Mac, sign: Signer, sizeOf: Offer -> nat)
    requires StorePage(e, q, cursor, budget, scope, sign, sizeOf).Ok?
    requires StorePage(e, q, cursor, budget, scope, sign, sizeOf).value.nextCursor.Some?
    ensures var served := StorePage(e, q, cursor, budget, scope, sign, sizeOf).value;
      && served.page.Page? && served.page.next.Some?
      && served.nextCursor.value == StoreCursor(
           if q.Offers? then OfferPages
           else TradePages, e.offerRevision, scope, e.cursorKey, served.page.next.value, sign)
  {
    hide RowsOf, KeyFor, PageAfter, StoreCursorOf, StoreCursor;
  }

  /** One reader's successful requests, each on the envelope it found. */
  ghost predicate StoreReading(
      es: seq<Envelope>, q: RowQuery, served: seq<Served<Offer>>, budgets: seq<Budget>, scope: Mac, sign: Signer,
      sizeOf: Offer -> nat) {
    && |es| == |served| == |budgets| > 0
    && (forall i :: 0 <= i < |served| ==>
          budgets[i].limit >= 1 &&
          StorePage(es[i], q, CursorSent(served, i), budgets[i], scope, sign, sizeOf) == Ok(served[i]))
    && (forall i :: 0 <= i < |served| - 1 ==> served[i].nextCursor.Some?)
  }

  function RowLists(es: seq<Envelope>, q: RowQuery): seq<seq<Offer>> {
    seq(|es|, i requires 0 <= i < |es| => RowsOf(es[i], q))
  }

  function OfferRevisions(es: seq<Envelope>): seq<nat> {
    seq(|es|, i requires 0 <= i < |es| => es[i].offerRevision)
  }

  lemma StoreReadingIsServing(
      es: seq<Envelope>, q: RowQuery, served: seq<Served<Offer>>, budgets: seq<Budget>, scope: Mac, sign: Signer,
      sizeOf: Offer -> nat)
    requires StoreReading(es, q, served, budgets, scope, sign, sizeOf) && OneHistory(es)
    ensures IsServing(RowLists(es, q), OfferRevisions(es), served, budgets, KeyFor(q), sizeOf, Descending(q),
                      StoreDecoder(KindFor(q), scope, es[0].cursorKey, sign),
                      StoreEncoder(KindFor(q), scope, es[0].cursorKey, sign))
  {
    hide Serve, RowsOf, KeyFor, StoreDecoder, StoreEncoder, KeysAscend, DistinctKeys, IsStored, SameVisible;
    forall i | 0 <= i < |es| ensures es[i].cursorKey == es[0].cursorKey && es[i].offerRevision <= MAX_SAFE {
      assert Follows(es[0], es[i]) && EnvelopeInv(es[i]);
    }
  }

  /** What a reader who followed the cursors has learned. */
  ghost predicate ReadOneSnapshot(es: seq<Envelope>, q: RowQuery, served: seq<Served<Offer>>)
    requires |es| == |served| > 0
  {
    var keys, read := KeyList(RowsOf(es[0], q), KeyFor(q)), KeysRead(PagesOf(served), KeyFor(q), |served|);
    && (forall i :: 0 <= i < |es| ==> es[i].offerRevision == es[0].offerRevision)
    && read <= keys
    && (served[|served| - 1].nextCursor.None? <==> read == keys)
    && |served| <= |keys| + 1
  }

  /**
   * Whatever writers commit between a reader's pages: if every request went through, no offer
   * changed under it. The pages laid end to end are the first page's snapshot, each matching
   * row once and in order, and complete exactly when the last page left no cursor.
   */
  lemma StoreReadersSeeOneSnapshot(
      es: seq<Envelope>, q: RowQuery, served: seq<Served<Offer>>, budgets: seq<Budget>, scope: Mac, sign: Signer,
      sizeOf: Offer -> nat)
    requires StoreReading(es, q, served, budgets, scope, sign, sizeOf) && OneHistory(es)
    ensures ReadOneSnapshot(es, q, served)
  {
    hide Serve, RowsOf, KeyFor, StoreDecoder, StoreEncoder, EnvelopeInv, SameVisible, IsServing, IsReading;
    hide Lawful, KeyList, KeysRead, InOrder, Carries, StorePage;
    var rows, revisions := RowLists(es, q), OfferRevisions(es);
    StoreReadingIsServing(es, q, served, budgets, scope, sign, sizeOf);
    StoreCodecIsLawful(KindFor(q), scope, es[0].cursorKey, sign);
    forall k, r | 0 <= k < |rows| && r in rows[k] ensures Carries(KeyFor(q)(r)) { RowKeysAreShort(q, r); }
    ServingIsReading(rows, revisions, served, budgets, KeyFor(q), sizeOf, Descending(q),
                     StoreDecoder(KindFor(q), scope, es[0].cursorKey, sign),
                     StoreEncoder(KindFor(q), scope, es[0].cursorKey, sign));
    forall i | 0 <= i < |es|
      ensures es[i].offerRevision == es[0].offerRevision
      ensures InOrder(rows[i], KeyFor(q), Descending(q)) && KeyList(rows[i], KeyFor(q)) == KeyList(rows[0], KeyFor(q))
    {
      OneRevision(revisions, 0, i);
      assert revisions[i] == es[i].offerRevision;
      assert Follows(es[0], es[i]) && EnvelopeInv(es[i]) && EnvelopeInv(es[0]);
      SameVisibleSameKeys(es[0], es[i], q);
      RowsAreInOrder(es[i], q);
    }
    ReadingIsExact(rows, PagesOf(served), budgets, KeyList(rows[0], KeyFor(q)), KeyFor(q), sizeOf, Descending(q));
  }

  /** Each row a later page shows is a row of the first snapshot, but for its two observation times. */
  lemma ServedRowsAreVisible(es: seq<Envelope>, q: RowQuery, i: nat, row: Offer)
    requires OneHistory(es) && i < |es| && es[i].offerRevision == es[0].offerRevision && row in RowsOf(es[i], q)
    ensures exists o :: o in RowsOf(es[0], q) && Timeless(o) == Timeless(row)
  {
    hide RowsOf, Timeless, Selects, KeysAscend, DistinctKeys, IsStored, InOrder;
    assert Follows(es[0], es[i]) && EnvelopeInv(es[i]) && EnvelopeInv(es[0]);
    RowsAreInOrder(es[i], q);
    RowsAreInOrder(es[0], q);
    var k :| 0 <= k < |es[i].offers| && es[i].offers[k] == row;
    var o := es[0].offers[k];
    assert Timeless(o) == Timeless(row);
    TimelessSelects(q, o, row);
    assert o in es[0].offers;
  }

  /**
   * The next request with the cursor just issued is refused as stale exactly when a commit
   * raised the offer revision in between; otherwise only the byte budget can refuse it.
   */
  lemma NextRequestIsStaleExactlyAfterAChange(
      e: Envelope, e': Envelope, q: RowQuery, cursor: Option<Text>, budget: Budget, budget': Budget, scope: Mac,
      sign: Signer, sizeOf: Offer -> nat)
    requires EnvelopeInv(e) && e'.cursorKey == e.cursorKey
    requires StorePage(e, q, cursor, budget, scope, sign, sizeOf).Ok? &&
      StorePage(e, q, cursor, budget, scope, sign, sizeOf).value.nextCursor.Some?
    ensures var next :=
      StorePage(e', q, StorePage(e, q, cursor, budget, scope, sign, sizeOf).value.nextCursor, budget', scope, sign,
          sizeOf);
      && (next == Err(CursorRefused(StaleCursor)) <==> e'.offerRevision != e.offerRevision)
      && (e'.offerRevision == e.offerRevision ==> next.Ok? || next == Err(ResultTooLarge))
  {
    hide RowsOf, KeyFor, StoreDecoder, StoreEncoder, KeysAscend, DistinctKeys, IsStored, PageAfter, Carries, Lawful;
    var kind := KindFor(q);
    var decode, encode := StoreDecoder(kind, scope, e.cursorKey, sign), StoreEncoder(kind, scope, e.cursorKey, sign);
    var served := StorePage(e, q, cursor, budget, scope, sign, sizeOf).value;
    StoreCodecIsLawful(kind, scope, e.cursorKey, sign);
    ServedStep(RowsOf(e, q), KeyFor(q), sizeOf, Descending(q), e.offerRevision, cursor, budget, decode, encode, served);
    forall r | r in RowsOf(e, q) ensures Carries(KeyFor(q)(r)) { RowKeysAreShort(q, r); }
    NextKeyIsARowKey(RowsOf(e, q), KeyFor(q), sizeOf, Descending(q), decode(cursor, e.offerRevision).value, budget);
    DecodesItsOwn(decode, encode, e.offerRevision, e'.offerRevision, served.page.next.value);
  }

  lemma DecodesItsOwn(decode: Decoder, encode: Encoder, revision: nat, now: nat, key: Text)
    requires Lawful(decode, encode) && revision <= MAX_SAFE && Carries(key)
    ensures decode(Some(encode(revision, key)), now) == if revision != now then Err(StaleCursor) else Ok(Some(key))
  {
    hide Carries;
  }

  // ---------------------------------------------- the catalog's page readers

  function CatalogDecoder(kind: CatalogKind, scope: Mac, secret: Text, sign: Signer): Decoder {
    (cursor, now) => CursorOf(cursor, kind, now, scope, secret, sign)
  }

  function CatalogEncoder(kind: CatalogKind, scope: Mac, secret: Text, sign: Signer): Encoder {
    (revision, key) => EncodeCursor(kind, revision, scope, secret, key, sign)
  }

  lemma CatalogCodecIsLawful(kind: CatalogKind, scope: Mac, secret: Text, sign: Signer)
    ensures Lawful(CatalogDecoder(kind, scope, secret, sign), CatalogEncoder(kind, scope, secret, sign))
  {
    hide EncodeCursor;
    forall revision: nat, now: nat, key: Text | revision <= MAX_SAFE && Carries(key)
      ensures var cursor := CatalogEncoder(kind, scope, secret, sign)(revision, key);
        CatalogDecoder(kind, scope, secret, sign)(Some(cursor), now)
           == if revision != now then Err(StaleCursor) else Ok(Some(key))
    {
      CatalogCursorRoundTrip(kind, revision, now, scope, secret, key, sign);
    }
  }

  /** One catalog reader's successful requests over the views it found. */
  ghost predicate CatalogReading<T>(
      es: seq<Envelope>, views: seq<seq<T>>, served: seq<Served<T>>, budgets: seq<Budget>, kind: CatalogKind,
      keyOf: T -> Text, scope: Mac, sign: Signer, sizeOf: T -> nat)
  {
    && |es| == |views| == |served| == |budgets| > 0
    && (forall i :: 0 <= i < |served| ==>
          && budgets[i].limit >= 1
          && Serve(views[i], keyOf, sizeOf, false, es[i].catalogRevision, CursorSent(served, i), budgets[i],
                   CatalogDecoder(kind, scope, es[i].cursorKey, sign),
                   CatalogEncoder(kind, scope, es[i].cursorKey, sign)) == Ok(served[i]))
    && (forall i :: 0 <= i < |served| - 1 ==> served[i].nextCursor.Some?)
  }

  function CatalogRevisions(es: seq<Envelope>): seq<nat> {
    seq(|es|, i requires 0 <= i < |es| => es[i].catalogRevision)
  }

  lemma CatalogReadingIsServing<T>(
      es: seq<Envelope>, views: seq<seq<T>>, served: seq<Served<T>>, budgets: seq<Budget>, kind: CatalogKind,
      keyOf: T -> Text, scope: Mac, sign: Signer, sizeOf: T -> nat)
    requires CatalogReading(es, views, served, budgets, kind, keyOf, scope, sign, sizeOf) && OneHistory(es)
    ensures IsServing(views, CatalogRevisions(es), served, budgets, keyOf, sizeOf, false,
                      CatalogDecoder(kind, scope, es[0].cursorKey, sign),
                      CatalogEncoder(kind, scope, es[0].cursorKey, sign))
  {
    hide Serve, CatalogDecoder, CatalogEncoder, KeysAscend, DistinctKeys, IsStored, SameVisible;
    forall i | 0 <= i < |es| ensures es[i].cursorKey == es[0].cursorKey && es[i].catalogRevision <= MAX_SAFE {
      assert Follows(es[0], es[i]) && EnvelopeInv(es[i]);
    }
  }

  /** Rows of one view laid end to end over the pages served. */
  ghost predicate ReadOneView<T>(es: seq<Envelope>, views: seq<seq<T>>, served: seq<Served<T>>, keyOf: T -> Text)
    requires |es| == |views| == |served| > 0
  {
    var keys, read := KeyList(views[0], keyOf), KeysRead(PagesOf(served), keyOf, |served|);
    && (forall i :: 0 <= i < |es| ==> es[i].catalogRevision == es[0].catalogRevision && views[i] == views[0])
    && read <= keys
    && (served[|served| - 1].nextCursor.None? <==> read == keys)
    && |served| <= |keys| + 1
  }

  lemma CatalogViewsAgree<T>(es: seq<Envelope>, views: seq<seq<T>>, keyOf: T -> Text, i: nat)
    requires OneHistory(es) && |es| == |views| && i < |es|
    requires forall i :: 0 <= i < |es| ==>
      KeysAscend(views[i], keyOf) && (es[i].observations == es[0].observations ==> views[i] == views[0])
    requires forall k :: 0 < k < |es| ==> CatalogRevisions(es)[k] == CatalogRevisions(es)[k - 1]
    ensures es[i].catalogRevision == es[0].catalogRevision && views[i] == views[0] && InOrder(views[i], keyOf, false)
  {
    hide EnvelopeInv, SameVisible, InOrder, KeysAscend;
    OneRevision(CatalogRevisions(es), 0, i);
    assert CatalogRevisions(es)[i] == es[i].catalogRevision;
    assert Follows(es[0], es[i]);
    ReversedOrder(views[i], keyOf);
  }

  lemma CatalogReadersSeeOneView<T>(
      es: seq<Envelope>, views: seq<seq<T>>, served: seq<Served<T>>, budgets: seq<Budget>, kind: CatalogKind,
      keyOf: T -> Text, scope: Mac, sign: Signer, sizeOf: T -> nat)
    requires CatalogReading(es, views, served, budgets, kind, keyOf, scope, sign, sizeOf) && OneHistory(es)
    requires forall i :: 0 <= i < |es| ==>
      KeysAscend(views[i], keyOf) && (es[i].observations == es[0].observations ==> views[i] == views[0])
    requires forall r: T :: Carries(keyOf(r))
    ensures ReadOneView(es, views, served, keyOf)
  {
    hide Serve, CatalogDecoder, CatalogEncoder, IsServing, IsReading, Lawful, KeyList, KeysRead, InOrder;
    hide Carries, KeysAscend, PagesOf, CatalogReading, CatalogRevisions, OneHistory, CursorSent;
    assert |es| == |views| == |served| == |budgets| > 0 by {
      CatalogReadingSizes(es, views, served, budgets, kind, keyOf, scope, sign, sizeOf);
    }
    CatalogReadingIsServing(es, views, served, budgets, kind, keyOf, scope, sign, sizeOf);
    CatalogCodecIsLawful(kind, scope, es[0].cursorKey, sign);
    ServingIsReading(views, CatalogRevisions(es), served, budgets, keyOf, sizeOf, false,
                     CatalogDecoder(kind, scope, es[0].cursorKey, sign),
                     CatalogEncoder(kind, scope, es[0].cursorKey, sign));
    assert forall k :: 0 < k < |es| ==> CatalogRevisions(es)[k] == CatalogRevisions(es)[k - 1] by { RevisionCount(es); }
    forall i | 0 <= i < |es|
      ensures es[i].catalogRevision == es[0].catalogRevision && views[i] == views[0] && InOrder(views[i], keyOf, false)
    {
      CatalogViewsAgree(es, views, keyOf, i);
    }
    PageCount(served);
    ReadingIsExact(views, PagesOf(served), budgets, KeyList(views[0], keyOf), keyOf, sizeOf, false);
  }

  lemma CatalogReadingSizes<T>(
      es: seq<Envelope>, views: seq<seq<T>>, served: seq<Served<T>>, budgets: seq<Budget>, kind: CatalogKind,
      keyOf: T -> Text, scope: Mac, sign: Signer, sizeOf: T -> nat)
    requires CatalogReading(es, views, served, budgets, kind, keyOf, scope, sign, sizeOf)
    ensures |es| == |views| == |served| == |budgets| > 0
  {}

  lemma RevisionCount(es: seq<Envelope>)
    ensures |CatalogRevisions(es)| == |es|
  {}

  lemma PageCount<T>(served: seq<Served<T>>)
    ensures |PagesOf(served)| == |served| && forall i :: 0 <= i < |served| ==> PagesOf(served)[i] == served[i].page
  {}

  /**
   * Participant pages: whatever announcements commit in between, a reading that went through
   * read one roster exactly.
   */
  lemma ParticipantReadersSeeOneRoster(
      es: seq<Envelope>, q: Views.Query, views: seq<seq<Views.Participant>>, served: seq<Served<Views.Participant>>,
      budgets: seq<Budget>, scope: Mac, sign: Signer, sizeOf: Views.Participant -> nat)
    requires CatalogReading(es, views, served, budgets, Participants, Views.KeyOfParticipant, scope, sign, sizeOf) &&
      OneHistory(es)
    requires forall i :: 0 <= i < |es| ==> Views.IsParticipantView(views[i], es[i].observations, q)
    ensures ReadOneView(es, views, served, Views.KeyOfParticipant)
  {
    hide Serve, CursorSent, OneHistory, Views.KeyOfParticipant, Views.Describes, ReadOneView, KeysAscend;
    forall i | 0 <= i < |es| && es[i].observations == es[0].observations ensures views[i] == views[0] {
      Views.ParticipantViewIsUnique(views[i], views[0], es[0].observations, q);
    }
    forall p: Views.Participant ensures Carries(Views.KeyOfParticipant(p)) { ParticipantKeysAreShort(p); }
    CatalogReadersSeeOneView(es, views, served, budgets, Participants, Views.KeyOfParticipant, scope, sign, sizeOf);
  }

  lemma ParticipantKeysAreShort(p: Views.Participant)
    ensures Carries(Views.KeyOfParticipant(p))
  {
    hide Join;
    Views.JoinedLengths(p.network, p.address, []);
  }

  lemma InstrumentKeysAreShort(r: Views.InstrumentRecord)
    ensures Carries(Views.KeyOfInstrument(r))
  {
    hide Join;
    Views.JoinedLengths(r.network, r.pair.base, r.pair.quote);
  }

  /** The same for instrument pages. */
  lemma InstrumentReadersSeeOneList(
      es: seq<Envelope>, q: Views.Query, views: seq<seq<Views.InstrumentRecord>>,
      served: seq<Served<Views.InstrumentRecord>>, budgets: seq<Budget>, scope: Mac, sign: Signer,
      sizeOf: Views.InstrumentRecord -> nat)
    requires CatalogReading(es, views, served, budgets, Instruments, Views.KeyOfInstrument, scope, sign, sizeOf) &&
      OneHistory(es)
    requires forall i :: 0 <= i < |es| ==> Views.IsInstrumentView(views[i], es[i].observations, q)
    ensures ReadOneView(es, views, served, Views.KeyOfInstrument)
  {
    hide Serve, CursorSent, OneHistory, Views.KeyOfInstrument, Views.DescribesInstrument, ReadOneView, KeysAscend;
    forall i | 0 <= i < |es| && es[i].observations == es[0].observations ensures views[i] == views[0] {
      Views.InstrumentViewIsUnique(views[i], views[0], es[0].observations, q);
    }
    forall r: Views.InstrumentRecord ensures Carries(Views.KeyOfInstrument(r)) { InstrumentKeysAreShort(r); }
    CatalogReadersSeeOneView(es, views, served, budgets, Instruments, Views.KeyOfInstrument, scope, sign, sizeOf);
  }
}
