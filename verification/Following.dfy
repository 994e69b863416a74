/**
 * packages/market/src/store.ts and catalog.ts: a reader who hands each signed `nextCursor` back,
 * starting from none, over one standing envelope.
 */
module Following {
  import opened Texts
  import opened Outcomes
  import opened Ordering
  import opened Envelopes
  import opened Paging
  import opened Cursors
  import opened Commits
  import opened Readers
  import Views

  /** The rows a reader collected, and the cursor text it was left with. */
  datatype Collected<T> = Collected(rows: seq<T>, cursor: Option<Text>)

  /** At most `requests` page reads, each with the cursor text the one before it returned. */
  function Follow<T>(rows: seq<T>, keyOf: T -> Text, sizeOf: T -> nat, descending: bool, revision: nat,
                     cursor: Option<Text>, budget: Budget, decode: Decoder, encode: Encoder, requests: nat):
    Result<Collected<T>, ReadRefusal>
    decreases requests
  {
    if requests == 0 then Ok(Collected([], cursor))
    else
      match Serve(rows, keyOf, sizeOf, descending, revision, cursor, budget, decode, encode)
      case Err(refusal) => Err(refusal)
      case Ok(served) =>
        if served.nextCursor.None? then Ok(Collected(served.page.rows, None))
        else
          match Follow(rows, keyOf, sizeOf, descending, revision, served.nextCursor, budget, decode, encode,
              requests - 1)
          case Err(refusal) => Err(refusal)
          case Ok(rest) => Ok(Collected(served.page.rows + rest.rows, rest.cursor))
  }

  /** No single row from the `m`-th on needs more than the byte budget. */
  ghost predicate EveryRowFits<T>(rows: seq<T>, sizeOf: T -> nat, budget: Budget, m: nat) {
    forall i :: m <= i < |rows| ==> sizeOf(rows[i]) + 2 <= budget.maxBytes
  }

  /** The requests a reader with `left` rows to go may need: one a row, and one for an empty page. */
  function Enough(left: nat): nat { if left == 0 then 1 else left }

  lemma {:induction false} FollowingFromAPlace<T>(
      rows: seq<T>, keyOf: T -> Text, sizeOf: T -> nat, descending: bool, revision: nat, cursor: Option<Text>,
      after: Option<Text>, budget: Budget, decode: Decoder, encode: Encoder, requests: nat, m: nat)
    requires InOrder(rows, keyOf, descending) && Lawful(decode, encode) && revision <= MAX_SAFE && budget.limit >= 1
    requires forall r :: r in rows ==> Carries(keyOf(r))
    requires At(rows, keyOf, after, m) && decode(cursor, revision) == Ok(after)
    requires requests >= Enough(|rows| - m)
    ensures Follow(rows, keyOf, sizeOf, descending, revision, cursor, budget, decode, encode, requests)
         == if EveryRowFits(rows, sizeOf, budget, m) then Ok(Collected(rows[m..], None)) else Err(ResultTooLarge)
    decreases requests
  {
    hide InOrder, Lawful, PageAfter, Carries, At, Size;
    PageMovesOn(rows, keyOf, sizeOf, descending, after, budget, m);
    var p := PageAfter(rows, keyOf, sizeOf, descending, after, budget);
    if p.Page? {
      var n := m + |p.rows|;
      forall i | m <= i < n ensures sizeOf(rows[i]) + 2 <= budget.maxBytes {
        assert p.rows[i - m] == rows[i];
        OneRowFits(p.rows, sizeOf, i - m);
      }
      if p.next.Some? {
        NextKeyIsARowKey(rows, keyOf, sizeOf, descending, after, budget);
        DecodesItsOwn(decode, encode, revision, revision, p.next.value);
        FollowingFromAPlace(rows, keyOf, sizeOf, descending, revision, Some(encode(revision, p.next.value)),
                            p.next, budget, decode, encode, requests - 1, n);
        assert rows[m..] == rows[m..n] + rows[n..];
        if !EveryRowFits(rows, sizeOf, budget, m) {
          var i :| m <= i < |rows| && sizeOf(rows[i]) + 2 > budget.maxBytes;
          assert i >= n;
        }
      } else {
        assert rows[m..] == rows[m..n];
      }
    }
  }

  lemma FollowingFromTheStart<T>(
      rows: seq<T>, keyOf: T -> Text, sizeOf: T -> nat, descending: bool, revision: nat,
      budget: Budget, decode: Decoder, encode: Encoder, requests: nat)
    requires InOrder(rows, keyOf, descending) && Lawful(decode, encode) && revision <= MAX_SAFE && budget.limit >= 1
    requires forall r :: r in rows ==> Carries(keyOf(r))
    requires requests >= Enough(|rows|)
    ensures Follow(rows, keyOf, sizeOf, descending, revision, None, budget, decode, encode, requests)
         == if EveryRowFits(rows, sizeOf, budget, 0) then Ok(Collected(rows, None)) else Err(ResultTooLarge)
  {
    hide InOrder, Lawful, Carries, Follow;
    DecodesNothing(decode, encode, revision);
    FollowingFromAPlace(rows, keyOf, sizeOf, descending, revision, None, None, budget, decode, encode, requests, 0);
    assert rows[0..] == rows;
  }

  /**
   * Offers, and trades in either order: handing every signed cursor back ends, within one
   * request a row, with all matching rows in order and no cursor; or, exactly when some single
   * row is above the byte budget, with that refusal and no other.
   */
  lemma FollowingStoreCursorsIsExact(
      e: Envelope, q: RowQuery, budget: Budget, scope: Mac, sign: Signer, sizeOf: Offer -> nat, requests: nat)
    requires EnvelopeInv(e) && budget.limit >= 1 && requests >= Enough(|RowsOf(e, q)|)
    ensures
      var decode, encode :=
          StoreDecoder(KindFor(q), scope, e.cursorKey, sign), StoreEncoder(KindFor(q), scope, e.cursorKey, sign);
      Follow(RowsOf(e, q), KeyFor(q), sizeOf, Descending(q), e.offerRevision, None, budget, decode, encode, requests)
        == if EveryRowFits(RowsOf(e, q), sizeOf, budget, 0) then Ok(Collected(RowsOf(e, q), None))
           else Err(ResultTooLarge)
  {
    hide RowsOf, KeyFor, StoreDecoder, StoreEncoder, Lawful, InOrder, Carries, Follow, EveryRowFits;
    hide KeysAscend, DistinctKeys;
    var decode, encode :=
        StoreDecoder(KindFor(q), scope, e.cursorKey, sign), StoreEncoder(KindFor(q), scope, e.cursorKey, sign);
    StoreCodecIsLawful(KindFor(q), scope, e.cursorKey, sign);
    RowsAreInOrder(e, q);
    forall r | r in RowsOf(e, q) ensures Carries(KeyFor(q)(r)) { RowKeysAreShort(q, r); }
    FollowingFromTheStart(RowsOf(e, q), KeyFor(q), sizeOf, Descending(q), e.offerRevision, budget, decode, encode,
        requests);
  }

  lemma FollowingCatalogCursors<T>(
      e: Envelope, view: seq<T>, kind: CatalogKind, keyOf: T -> Text, budget: Budget, scope: Mac, sign: Signer,
      sizeOf: T -> nat, requests: nat)
    requires e.catalogRevision <= MAX_SAFE && budget.limit >= 1 && requests >= Enough(|view|)
    requires KeysAscend(view, keyOf) && forall r :: r in view ==> Carries(keyOf(r))
    ensures
      var decode, encode :=
          CatalogDecoder(kind, scope, e.cursorKey, sign), CatalogEncoder(kind, scope, e.cursorKey, sign);
      Follow(view, keyOf, sizeOf, false, e.catalogRevision, None, budget, decode, encode, requests)
        == if EveryRowFits(view, sizeOf, budget, 0) then Ok(Collected(view, None)) else Err(ResultTooLarge)
  {
    hide CatalogDecoder, CatalogEncoder, Lawful, InOrder, Carries, Follow, EveryRowFits, KeysAscend;
    var decode, encode :=
        CatalogDecoder(kind, scope, e.cursorKey, sign), CatalogEncoder(kind, scope, e.cursorKey, sign);
    CatalogCodecIsLawful(kind, scope, e.cursorKey, sign);
    ReversedOrder(view, keyOf);
    FollowingFromTheStart(view, keyOf, sizeOf, false, e.catalogRevision, budget, decode, encode, requests);
  }

  /** The same for participant pages: the whole view of the observations, each row once and in order. */
  lemma FollowingParticipantCursorsIsExact(
      e: Envelope, q: Views.Query, view: seq<Views.Participant>, budget: Budget, scope: Mac, sign: Signer,
      sizeOf: Views.Participant -> nat, requests: nat)
    requires EnvelopeInv(e) && Views.IsParticipantView(view, e.observations, q)
    requires budget.limit >= 1 && requests >= Enough(|view|)
    ensures
      var decode := CatalogDecoder(Participants, scope, e.cursorKey, sign);
      var encode := CatalogEncoder(Participants, scope, e.cursorKey, sign);
      Follow(view, Views.KeyOfParticipant, sizeOf, false, e.catalogRevision, None, budget, decode, encode, requests)
        == if EveryRowFits(view, sizeOf, budget, 0) then Ok(Collected(view, None)) else Err(ResultTooLarge)
  {
    hide Views.KeyOfParticipant, Views.Describes, KeysAscend, DistinctKeys, Follow, EveryRowFits, Carries;
    forall p: Views.Participant ensures Carries(Views.KeyOfParticipant(p)) { ParticipantKeysAreShort(p); }
    FollowingCatalogCursors(e, view, Participants, Views.KeyOfParticipant, budget, scope, sign, sizeOf, requests);
  }

  /** And for instrument pages. */
  lemma FollowingInstrumentCursorsIsExact(
      e: Envelope, q: Views.Query, view: seq<Views.InstrumentRecord>, budget: Budget, scope: Mac, sign: Signer,
      sizeOf: Views.InstrumentRecord -> nat, requests: nat)
    requires EnvelopeInv(e) && Views.IsInstrumentView(view, e.observations, q)
    requires budget.limit >= 1 && requests >= Enough(|view|)
    ensures
      var decode := CatalogDecoder(Instruments, scope, e.cursorKey, sign);
      var encode := CatalogEncoder(Instruments, scope, e.cursorKey, sign);
      Follow(view, Views.KeyOfInstrument, sizeOf, false, e.catalogRevision, None, budget, decode, encode, requests)
        == if EveryRowFits(view, sizeOf, budget, 0) then Ok(Collected(view, None)) else Err(ResultTooLarge)
  {
    hide Views.KeyOfInstrument, Views.DescribesInstrument, KeysAscend, DistinctKeys, Follow, EveryRowFits, Carries;
    forall r: Views.InstrumentRecord ensures Carries(Views.KeyOfInstrument(r)) { InstrumentKeysAreShort(r); }
    FollowingCatalogCursors(e, view, Instruments, Views.KeyOfInstrument, budget, scope, sign, sizeOf, requests);
  }
}
