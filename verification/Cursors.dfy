/** Opaque page cursors of packages/market/src/catalog.ts and store.ts: key, revision and scope, signed. */
module Cursors {
  import opened Texts
  import opened Outcomes
  import opened Decimals
  import opened Json
  import opened Envelopes

  const MAX_CURSOR: nat := 2048
  const MAX_KEY_HEX: nat := 1600

  /** Sixteen hashed bytes as hexadecimal text: the signature, and the query's scope. */
  type Mac = t: Text | |t| == 32 && DOT !in t witness Zeros(32)

  /** The keyed hash behind both; nothing is assumed about it. */
  type Signer = (Text, Text) -> Mac

  datatype CursorError = BadCursor | StaleCursor

  // ------------------------------------------------------------ key as hex

  predicate AllHex(t: Text) { forall i :: 0 <= i < |t| ==> IsHexDigit(t[i]) }

  function HexOf(key: Text): (t: Text)
    ensures |t| == 4 * |key| && AllHex(t)
  {
    if key == [] then [] else HexOf(key[..|key| - 1]) + Hex4(key[|key| - 1])
  }

  function OfHex(t: Text): (key: Text)
    requires |t| % 4 == 0 && AllHex(t)
    ensures 4 * |key| == |t|
  {
    if t == [] then [] else OfHex(t[..|t| - 4]) + [ParseHex4(t[|t| - 4..])]
  }

  method EncodeKey(key: Text) returns (hex: Text)
    ensures hex == HexOf(key)
  {
    hex := [];
    for index := 0 to |key|
      invariant hex == HexOf(key[..index])
    {
      assert key[..index + 1][..index] == key[..index];
      hex := hex + Hex4(key[index]);
    }
    assert key[..|key|] == key;
  }

  method DecodeKey(hex: Text) returns (key: Text)
    requires |hex| % 4 == 0 && AllHex(hex)
    ensures key == OfHex(hex)
  {
    key := [];
    var index := 0;
    while index < |hex|
      invariant index % 4 == 0 && index <= |hex| && key == OfHex(hex[..index])
    {
      assert hex[..index + 4][..index] == hex[..index] && hex[..index + 4][index..] == hex[index..index + 4];
      key := key + [ParseHex4(hex[index..index + 4])];
      index := index + 4;
    }
    assert hex[..|hex|] == hex;
  }

  /** The key survives the trip into hexadecimal and back. */
  lemma {:induction false} KeyRoundTrip(key: Text)
    ensures OfHex(HexOf(key)) == key
    decreases |key|
  {
    hide Hex4, ParseHex4;
    if key != [] {
      var front, c := key[..|key| - 1], key[|key| - 1];
      KeyRoundTrip(front);
      Hex4RoundTrip(c);
      assert HexOf(key)[..|HexOf(key)| - 4] == HexOf(front) && HexOf(key)[|HexOf(key)| - 4..] == Hex4(c);
    }
  }

  lemma {:induction false} HexRoundTrip(t: Text)
    requires |t| % 4 == 0 && AllHex(t)
    ensures HexOf(OfHex(t)) == t
    decreases |t|
  {
    hide Hex4, ParseHex4;
    if t != [] {
      HexRoundTrip(t[..|t| - 4]);
      ParseHex4RoundTrip(t[|t| - 4..]);
      assert OfHex(t)[..|OfHex(t)| - 1] == OfHex(t[..|t| - 4]);
      assert t == t[..|t| - 4] + t[|t| - 4..];
    }
  }

  // -------------------------------------------------------- catalog cursors

  datatype CatalogKind = Participants | Instruments

  function KindName(kind: CatalogKind): (t: Text)
    ensures DOT !in t && |t| <= 12
  {
    if kind == Participants then Ascii("participants") else Ascii("instruments")
  }

  function CatalogTag(): (t: Text)
    ensures DOT !in t && |t| == 5
  {
    Ascii("mcat2")
  }

  function CatalogPayload(kind: CatalogKind, digits: Text, scope: Mac, hex: Text): Text {
    Join(DOT, [CatalogTag(), digits, KindName(kind), scope, hex])
  }

  function EncodeCursor(kind: CatalogKind, revision: nat, scope: Mac, secret: Text, key: Text, sign: Signer): Text {
    var payload := CatalogPayload(kind, Digits(revision), scope, HexOf(key));
    payload + [DOT] + sign(secret, payload)
  }

  function CursorOf(
      value: Option<Text>, kind: CatalogKind, revision: nat, scope: Mac, secret: Text,
      sign: Signer): Result<Option<Text>, CursorError> {
    if value.None? then Ok(None)
    else if |value.value| < 1 || |value.value| > MAX_CURSOR then Err(BadCursor)
    else
      var parts := Split(DOT, value.value);
      if |parts| != 6 || parts[0] != CatalogTag() || parts[2] != KindName(kind) || parts[1] == [] ||
         !AllDigits(parts[1]) || parts[3] != scope then
        Err(BadCursor)
      else if |parts[4]| > MAX_KEY_HEX || |parts[4]| % 4 != 0 || !AllHex(parts[4]) then Err(BadCursor)
      else if parts[5] != sign(secret, CatalogPayload(kind, parts[1], scope, parts[4])) then Err(BadCursor)
      else if Value(parts[1]) != revision then Err(StaleCursor)
      else Ok(Some(OfHex(parts[4])))
  }

  /** Six parts and their joined text determine each other. */
  lemma CatalogParts(kind: CatalogKind, digits: Text, scope: Mac, hex: Text, mac: Mac)
    requires AllDigits(digits) && AllHex(hex)
    ensures Split(DOT, CatalogPayload(kind, digits, scope, hex) + [DOT] + mac)
      == [CatalogTag(), digits, KindName(kind), scope, hex, mac]
    ensures |CatalogPayload(kind, digits, scope, hex) + [DOT] + mac|
      == 5 + |digits| + |KindName(kind)| + 32 + |hex| + 32 + 5
  {
    hide Split;
    var parts: seq<Text> := [CatalogTag(), digits, KindName(kind), scope, hex, mac];
    JoinSix(CatalogTag(), digits, KindName(kind), scope, hex, mac);
    SplitJoin(DOT, parts);
  }

  lemma JoinSix(a: Text, b: Text, c: Text, d: Text, e: Text, f: Text)
    ensures Join(DOT, [a, b, c, d, e, f]) == Join(DOT, [a, b, c, d, e]) + [DOT] + f
    ensures |Join(DOT, [a, b, c, d, e, f])| == |a| + |b| + |c| + |d| + |e| + |f| + 5
  {
    JoinFive(b, c, d, e, f);
    assert [a, b, c, d, e, f][1..] == [b, c, d, e, f] && [a, b, c, d, e][1..] == [b, c, d, e];
    assert a + [DOT] + (Join(DOT, [b, c, d, e]) + [DOT] + f) == (a + [DOT] + Join(DOT, [b, c, d, e])) + [DOT] + f;
  }

  lemma JoinFive(a: Text, b: Text, c: Text, d: Text, e: Text)
    ensures Join(DOT, [a, b, c, d, e]) == Join(DOT, [a, b, c, d]) + [DOT] + e
    ensures |Join(DOT, [a, b, c, d, e])| == |a| + |b| + |c| + |d| + |e| + 4
  {
    JoinFour(b, c, d, e);
    assert [a, b, c, d, e][1..] == [b, c, d, e] && [a, b, c, d][1..] == [b, c, d];
    assert a + [DOT] + (Join(DOT, [b, c, d]) + [DOT] + e) == (a + [DOT] + Join(DOT, [b, c, d])) + [DOT] + e;
  }

  lemma JoinFour(a: Text, b: Text, c: Text, d: Text)
    ensures Join(DOT, [a, b, c, d]) == Join(DOT, [a, b, c]) + [DOT] + d
    ensures |Join(DOT, [a, b, c, d])| == |a| + |b| + |c| + |d| + 3
  {
    JoinThree(b, c, d);
    assert [a, b, c, d][1..] == [b, c, d] && [a, b, c][1..] == [b, c] && [b, c][1..] == [c];
    assert Join(DOT, [b, c]) == b + [DOT] + c;
    assert a + [DOT] + (b + [DOT] + (c + [DOT] + d)) == (a + [DOT] + (b + [DOT] + c)) + [DOT] + d;
  }

  lemma JoinThree(a: Text, b: Text, c: Text)
    ensures Join(DOT, [a, b, c]) == a + [DOT] + (b + [DOT] + c)
  {
    assert [a, b, c][1..] == [b, c] && [b, c][1..] == [c];
    assert Join(DOT, [b, c]) == b + [DOT] + c;
  }

  lemma SafeDigits(revision: nat)
    requires revision <= MAX_SAFE
    ensures |Digits(revision)| <= 16
  {
    assert Pow10(16) == 10000000000000000 by { PowersOfTen(); }
    DigitsFit(revision, 16);
  }

  lemma PowersOfTen()
    ensures Pow10(16) == 10000000000000000
  {
    assert Pow10(4) == 10000;
    assert Pow10(8) == 100000000;
    assert Pow10(12) == 1000000000000;
  }

  /**
   * A catalog cursor gives its key back exactly while its revision stands, is stale under any
   * other, and is refused only when its key is too long to have been a row's.
   */
  lemma CatalogCursorRoundTrip(
      kind: CatalogKind, revision: nat, now: nat, scope: Mac, secret: Text, key: Text, sign: Signer)
    requires revision <= MAX_SAFE
    ensures CursorOf(Some(EncodeCursor(kind, revision, scope, secret, key, sign)), kind, now, scope, secret, sign)
         == if |key| > 400 then Err(BadCursor) else if revision != now then Err(StaleCursor) else Ok(Some(key))
  {
    hide Split, HexOf, OfHex, CatalogPayload, Value, Digits;
    var digits, hex := Digits(revision), HexOf(key);
    CatalogParts(kind, digits, scope, hex, sign(secret, CatalogPayload(kind, digits, scope, hex)));
    SafeDigits(revision);
    DigitsRoundTrip(revision);
    KeyRoundTrip(key);
  }

  /** A cursor of another kind of page or another query is refused. */
  lemma CatalogCursorIsBoundToItsQuery(
      kind: CatalogKind, kind': CatalogKind, revision: nat, now: nat, scope: Mac, scope': Mac, secret: Text,
      key: Text, sign: Signer)
    requires kind != kind' || scope != scope'
    ensures CursorOf(Some(EncodeCursor(kind, revision, scope, secret, key, sign)), kind', now, scope', secret, sign)
      == Err(BadCursor)
  {
    hide Split, HexOf, OfHex, CatalogPayload, Value, Digits;
    var digits, hex := Digits(revision), HexOf(key);
    CatalogParts(kind, digits, scope, hex, sign(secret, CatalogPayload(kind, digits, scope, hex)));
  }

  /** Everything a cursor needs to be accepted: exactly the texts this store signs for this query and revision. */
  lemma CatalogCursorAcceptedExactlyWhenSigned(
      value: Text, kind: CatalogKind, revision: nat, scope: Mac, secret: Text, key: Text, sign: Signer)
    ensures CursorOf(Some(value), kind, revision, scope, secret, sign) == Ok(Some(key)) <==>
      |key| <= 400 && |value| <= MAX_CURSOR &&
      exists digits ::
          digits != [] && AllDigits(digits) && Value(digits) == revision &&
          value == SignedCatalog(kind, digits, scope, secret, key, sign)
  {
    hide Split, HexOf, OfHex, CatalogPayload, Value, SignedCatalog;
    if CursorOf(Some(value), kind, revision, scope, secret, sign) == Ok(Some(key)) {
      var parts := Split(DOT, value);
      JoinSplit(DOT, value);
      assert parts == [CatalogTag(), parts[1], KindName(kind), scope, parts[4], parts[5]];
      JoinSix(CatalogTag(), parts[1], KindName(kind), scope, parts[4], parts[5]);
      HexRoundTrip(parts[4]);
      CatalogPayloadIsJoined(kind, parts[1], scope, parts[4]);
      assert value == SignedCatalog(kind, parts[1], scope, secret, key, sign) by {
        SignedCatalogIs(kind, parts[1], scope, secret, key, sign);
      }
    } else if |key| <= 400 && |value| <= MAX_CURSOR {
      forall digits | digits != [] && AllDigits(digits) && Value(digits) == revision
        ensures value != SignedCatalog(kind, digits, scope, secret, key, sign) {
        SignedCatalogIs(kind, digits, scope, secret, key, sign);
        CatalogParts(kind, digits, scope, HexOf(key), sign(secret, CatalogPayload(kind, digits, scope, HexOf(key))));
        KeyRoundTrip(key);
      }
    }
  }

  /** A cursor with its revision written out as `digits`. */
  function SignedCatalog(kind: CatalogKind, digits: Text, scope: Mac, secret: Text, key: Text, sign: Signer): Text {
    CatalogPayload(kind, digits, scope, HexOf(key)) + [DOT]
        + sign(secret, CatalogPayload(kind, digits, scope, HexOf(key)))
  }

  lemma SignedCatalogIs(kind: CatalogKind, digits: Text, scope: Mac, secret: Text, key: Text, sign: Signer)
    ensures SignedCatalog(kind, digits, scope, secret, key, sign)
         == CatalogPayload(kind, digits, scope, HexOf(key)) + [DOT]
             + sign(secret, CatalogPayload(kind, digits, scope, HexOf(key)))
  {}

  lemma CatalogPayloadIsJoined(kind: CatalogKind, digits: Text, scope: Mac, hex: Text)
    ensures CatalogPayload(kind, digits, scope, hex) == Join(DOT, [CatalogTag(), digits, KindName(kind), scope, hex])
  {}

  /** A catalog cursor says what it pages, under which revision, and ends with its signature. */
  lemma CatalogCursorText(kind: CatalogKind, revision: nat, scope: Mac, secret: Text, key: Text, sign: Signer)
    ensures var parts := Split(DOT, EncodeCursor(kind, revision, scope, secret, key, sign));
      && |parts| == 6 && parts[0] == Ascii("mcat2") && parts[1] == Digits(revision)
      && parts[2] == (if kind == Participants then Ascii("participants") else Ascii("instruments"))
      && parts[3] == scope && parts[4] == HexOf(key)
  {
    hide Digits, Join, Split, HexOf;
    CatalogParts(kind, Digits(revision), scope, HexOf(key),
        sign(secret, CatalogPayload(kind, Digits(revision), scope, HexOf(key))));
  }

  // ---------------------------------------------------------- store cursors

  datatype StoreKind = OfferPages | TradePages

  /** `kind` keeps an offer cursor and a trade cursor from being each other. */
  function StoreTag(kind: StoreKind): (t: Text)
    ensures DOT !in t && |t| == 7
  {
    if kind == OfferPages then Ascii("mstore2") else Ascii("mtrade1")
  }

  function StorePayload(kind: StoreKind, digits: Text, scope: Mac, hex: Text): Text {
    Join(DOT, [StoreTag(kind), digits, scope, hex])
  }

  function StoreCursor(kind: StoreKind, revision: nat, scope: Mac, secret: Text, key: Text, sign: Signer): Text {
    var payload := StorePayload(kind, Digits(revision), scope, HexOf(key));
    payload + [DOT] + sign(secret, payload)
  }

  function StoreCursorOf(
      kind: StoreKind, value: Option<Text>, revision: nat, scope: Mac, secret: Text,
      sign: Signer): Result<Option<Text>, CursorError> {
    if value.None? then Ok(None)
    else if |value.value| > MAX_CURSOR then Err(BadCursor)
    else
      var parts := Split(DOT, value.value);
      if |parts| != 5 || parts[0] != StoreTag(kind) || parts[1] == [] || !AllDigits(parts[1]) ||
         parts[2] != scope then Err(BadCursor)
      else if parts[3] == [] || !AllHex(parts[3]) || |parts[3]| % 4 != 0 || |parts[3]| > MAX_KEY_HEX then Err(BadCursor)
      else if parts[4] != sign(secret, StorePayload(kind, parts[1], scope, parts[3])) then Err(BadCursor)
      else if Value(parts[1]) != revision then Err(StaleCursor)
      else Ok(Some(OfHex(parts[3])))
  }

  lemma StoreParts(kind: StoreKind, digits: Text, scope: Mac, hex: Text, mac: Mac)
    requires AllDigits(digits) && AllHex(hex)
    ensures Split(DOT, StorePayload(kind, digits, scope, hex) + [DOT] + mac)
      == [StoreTag(kind), digits, scope, hex, mac]
    ensures |StorePayload(kind, digits, scope, hex) + [DOT] + mac| == 7 + |digits| + 32 + |hex| + 32 + 4
  {
    hide Split;
    var parts: seq<Text> := [StoreTag(kind), digits, scope, hex, mac];
    JoinFive(StoreTag(kind), digits, scope, hex, mac);
    SplitJoin(DOT, parts);
  }

  function SignedStore(kind: StoreKind, digits: Text, scope: Mac, secret: Text, key: Text, sign: Signer): Text {
    StorePayload(kind, digits, scope, HexOf(key)) + [DOT] + sign(secret, StorePayload(kind, digits, scope, HexOf(key)))
  }

  lemma SignedStoreIs(kind: StoreKind, digits: Text, scope: Mac, secret: Text, key: Text, sign: Signer)
    ensures SignedStore(kind, digits, scope, secret, key, sign)
         == StorePayload(kind, digits, scope, HexOf(key)) + [DOT]
            + sign(secret, StorePayload(kind, digits, scope, HexOf(key)))
  {}

  lemma StorePayloadIsJoined(kind: StoreKind, digits: Text, scope: Mac, hex: Text)
    ensures StorePayload(kind, digits, scope, hex) == Join(DOT, [StoreTag(kind), digits, scope, hex])
  {}

  /** The texts accepted for a kind, query and revision are exactly those signed for them. */
  lemma StoreCursorAcceptedExactlyWhenSigned(
      value: Text, kind: StoreKind, revision: nat, scope: Mac, secret: Text, key: Text, sign: Signer)
    ensures StoreCursorOf(kind, Some(value), revision, scope, secret, sign) == Ok(Some(key)) <==>
      0 < |key| <= 400 && |value| <= MAX_CURSOR &&
      exists digits ::
        digits != [] && AllDigits(digits) && Value(digits) == revision &&
        value == SignedStore(kind, digits, scope, secret, key, sign)
  {
    hide Split, HexOf, OfHex, StorePayload, Value, SignedStore;
    if StoreCursorOf(kind, Some(value), revision, scope, secret, sign) == Ok(Some(key)) {
      var parts := Split(DOT, value);
      JoinSplit(DOT, value);
      assert parts == [StoreTag(kind), parts[1], scope, parts[3], parts[4]];
      JoinFive(StoreTag(kind), parts[1], scope, parts[3], parts[4]);
      HexRoundTrip(parts[3]);
      StorePayloadIsJoined(kind, parts[1], scope, parts[3]);
      assert value == SignedStore(kind, parts[1], scope, secret, key, sign) by {
        SignedStoreIs(kind, parts[1], scope, secret, key, sign);
      }
    } else if 0 < |key| <= 400 && |value| <= MAX_CURSOR {
      forall digits | digits != [] && AllDigits(digits) && Value(digits) == revision
        ensures value != SignedStore(kind, digits, scope, secret, key, sign)
      {
        SignedStoreIs(kind, digits, scope, secret, key, sign);
        StoreParts(kind, digits, scope, HexOf(key), sign(secret, StorePayload(kind, digits, scope, HexOf(key))));
        KeyRoundTrip(key);
      }
    }
  }

  /** A store cursor says the same of offer and trade pages. */
  lemma StoreCursorText(kind: StoreKind, revision: nat, scope: Mac, secret: Text, key: Text, sign: Signer)
    ensures var parts := Split(DOT, StoreCursor(kind, revision, scope, secret, key, sign));
      && |parts| == 5 && parts[0] == (if kind == OfferPages then Ascii("mstore2") else Ascii("mtrade1"))
      && parts[1] == Digits(revision) && parts[2] == scope && parts[3] == HexOf(key)
  {
    hide Digits, Join, Split, HexOf;
    StoreParts(kind, Digits(revision), scope, HexOf(key),
        sign(secret, StorePayload(kind, Digits(revision), scope, HexOf(key))));
  }

  /** The same for offer and trade cursors, whose key may not be empty. */
  lemma StoreCursorRoundTrip(
      kind: StoreKind, revision: nat, now: nat, scope: Mac, secret: Text, key: Text, sign: Signer)
    requires revision <= MAX_SAFE
    ensures StoreCursorOf(kind, Some(StoreCursor(kind, revision, scope, secret, key, sign)), now, scope, secret, sign)
         == if key == [] || |key| > 400 then Err(BadCursor)
            else if revision != now then Err(StaleCursor)
            else Ok(Some(key))
  {
    hide Split, HexOf, OfHex, StorePayload, Value, Digits;
    var digits, hex := Digits(revision), HexOf(key);
    StoreParts(kind, digits, scope, hex, sign(secret, StorePayload(kind, digits, scope, hex)));
    SafeDigits(revision);
    DigitsRoundTrip(revision);
    KeyRoundTrip(key);
  }

  lemma StoreCursorIsBoundToItsQuery(
      kind: StoreKind, kind': StoreKind, revision: nat, now: nat, scope: Mac, scope': Mac, secret: Text, key: Text,
      sign: Signer)
    requires kind != kind' || scope != scope'
    ensures StoreCursorOf(kind', Some(StoreCursor(kind, revision, scope, secret, key, sign)), now, scope', secret,
      sign) == Err(BadCursor)
  {
    hide Split, HexOf, OfHex, StorePayload, Value, Digits;
    var digits, hex := Digits(revision), HexOf(key);
    StoreParts(kind, digits, scope, hex, sign(secret, StorePayload(kind, digits, scope, hex)));
    StoreTagsDiffer();
  }

  lemma StoreTagsDiffer()
    ensures StoreTag(OfferPages) != StoreTag(TradePages)
  {
    assert StoreTag(OfferPages)[1] == 's' as int && StoreTag(TradePages)[1] == 't' as int;
  }

  // ------------------------------------------------------------- trade keys

  /** Advisory time in sixteen digits, then the hash. */
  function TradeKey(at: Safe, hash: Text): Text { PadStart(Digits(at), 16) + [NUL] + hash }

  lemma TradeTime(at: Safe)
    ensures var t := PadStart(Digits(at), 16); |t| == 16 && AllDigits(t) && Value(t) == at
  {
    hide PadStart;
    SafeDigits(at);
    PadStartValue(Digits(at), 16);
    DigitsRoundTrip(at);
  }

  /** The text order of trade keys is the order of times, then of hashes. */
  lemma TradeKeyOrder(at: Safe, hash: Text, at': Safe, hash': Text)
    ensures Less(TradeKey(at, hash), TradeKey(at', hash')) <==> at < at' || (at == at' && Less(hash, hash'))
    ensures TradeKey(at, hash) == TradeKey(at', hash') <==> at == at' && hash == hash'
  {
    hide PadStart, Less, Value, Digits;
    var t, t' := PadStart(Digits(at), 16), PadStart(Digits(at'), 16);
    TradeTime(at);
    TradeTime(at');
    FixedWidthOrder(t, t');
    assert TradeKey(at, hash) == t + ([NUL] + hash) && TradeKey(at', hash') == t' + ([NUL] + hash');
    if at == at' {
      LessCommonPrefix(t, [NUL] + hash, [NUL] + hash');
      LessCommonPrefix([NUL], hash, hash');
      assert hash == TradeKey(at, hash)[17..] && hash' == TradeKey(at', hash')[17..];
    } else {
      LessDecidedByPrefix(t, t', [NUL] + hash, [NUL] + hash');
      assert t == TradeKey(at, hash)[..16] && t' == TradeKey(at', hash')[..16];
    }
  }
}
