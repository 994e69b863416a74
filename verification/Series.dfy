/** packages/market/src/series.ts: `toCandles`, with its bounded dense fill. */
module Series {
  import opened Outcomes
  import opened Candles

  const DEFAULT_MAX_CANDLES: nat := 10000
  const MAX_CANDLES: nat := 1000000

  /** A matched trade; the node may have no time for it. Display prices are abstract numbers here. */
  datatype Timed = Timed(at: Option<int>, hash: string, price: real, units: int)

  /** `(a.at ?? 0) - (b.at ?? 0) || a.hash.localeCompare(b.hash)` is negative. */
  function Earlier(locale: (string, string) -> int): (Timed, Timed) -> bool {
    (a: Timed, b: Timed) => a.at.GetOr(0) < b.at.GetOr(0) ||
    (a.at.GetOr(0) == b.at.GetOr(0) && locale(a.hash, b.hash) < 0)
  }

  function TimeKey(t: Timed): real { t.at.GetOr(0) as real }

  /** The trades a series keeps: in advisory order, and only the last so many when asked. */
  function Kept(trades: seq<Timed>, last: Option<nat>, locale: (string, string) -> int): (kept: seq<Timed>) {
    var ordered := SortBy(trades, Earlier(locale));
    if last.None? || last.value >= |ordered| then ordered else ordered[|ordered| - last.value..]
  }

  lemma KeptAreOrdered(trades: seq<Timed>, last: Option<nat>, locale: (string, string) -> int)
    ensures AscendsBy(Kept(trades, last, locale), TimeKey)
    ensures forall t :: t in Kept(trades, last, locale) ==> t in trades
  {
    hide SortBy;
    SortByOrders(trades, Earlier(locale), TimeKey);
  }

  /** A collation: what it ranks neither way may stand either way, and it contradicts nothing it says. */
  ghost predicate Collates(locale: (string, string) -> int) {
    && (forall a :: locale(a, a) >= 0)
    && (forall a, b, c :: locale(a, b) < 0 && locale(b, c) < 0 ==> locale(a, c) < 0)
    && (forall a, b, c :: locale(a, b) >= 0 && locale(b, c) >= 0 ==> locale(a, c) >= 0)
  }

  /**
   * The kept trades are the latest ones asked for, or all when fewer traded, in time order and
   * among equal times in the order of their hashes.
   */
  lemma KeptAreTheLatest(trades: seq<Timed>, last: Option<nat>, locale: (string, string) -> int)
    returns (dropped: seq<Timed>)
    requires Collates(locale)
    ensures var kept := Kept(trades, last, locale);
      && multiset(dropped) + multiset(kept) == multiset(trades)
      && |kept| == (if last.None? || |trades| < last.value then |trades| else last.value)
      && (forall d, k :: d in dropped && k in kept ==> d.at.GetOr(0) <= k.at.GetOr(0))
      && NoInversion(dropped + kept, Earlier(locale))
  {
    hide SortBy, StrictOrder, Collates;
    var before := Earlier(locale);
    var ordered := SortBy(trades, before);
    EarlierIsStrict(locale);
    SortByMakesNoInversion(trades, before);
    var kept := Kept(trades, last, locale);
    var n := |ordered| - |kept|;
    dropped := ordered[..n];
    assert ordered == dropped + kept;
    forall d, k | d in dropped && k in kept ensures d.at.GetOr(0) <= k.at.GetOr(0) {
      var i :| 0 <= i < n && ordered[i] == d;
      var j :| 0 <= j < |kept| && kept[j] == k;
      assert ordered[n + j] == k;
      assert !before(k, d);
    }
  }

  lemma EarlierIsStrict(locale: (string, string) -> int)
    requires Collates(locale)
    ensures StrictOrder(Earlier(locale))
  {
    var before := Earlier(locale);
    forall a, b, c
      ensures !before(a, a) && (before(a, b) && before(b, c) ==> before(a, c))
      ensures !before(a, b) && !before(b, c) ==> !before(a, c)
    {
      assert locale(a.hash, a.hash) >= 0;
      assert locale(a.hash, b.hash) < 0 && locale(b.hash, c.hash) < 0 ==> locale(a.hash, c.hash) < 0;
      assert locale(a.hash, b.hash) >= 0 && locale(b.hash, c.hash) >= 0 ==> locale(a.hash, c.hash) >= 0;
    }
  }

  function Compare(a: real, b: real): int { if a < b then -1 else if a > b then 1 else 0 }

  /** The points a chart can place; one without a time is dropped. */
  function Placeable(trades: seq<Timed>): seq<Point<real>> {
    if trades == [] then []
    else
      var n := |trades| - 1;
      Placeable(trades[..n])
          + (if trades[n].at.Some? then [Point(trades[n].at.value, trades[n].price, trades[n].units, 0)] else [])
  }

  lemma {:induction false} PlaceableAscend(trades: seq<Timed>)
    requires AscendsBy(trades, TimeKey)
    ensures TimesAscend(Placeable(trades))
    ensures forall p :: p in Placeable(trades) ==> exists t :: t in trades && t.at == Some(p.at)
    decreases |trades|
  {
    if trades != [] {
      var n := |trades| - 1;
      var front := Placeable(trades[..n]);
      PlaceableAscend(trades[..n]);
      assert trades[n] in trades && forall t :: t in trades[..n] ==> t in trades;
      if trades[n].at.Some? {
        forall p | p in front ensures p.at <= trades[n].at.value {
          var t :| t in trades[..n] && t.at == Some(p.at);
          var k :| 0 <= k < n && trades[k] == t;
          assert TimeKey(trades[k]) <= TimeKey(trades[n]);
        }
        LaterKeepsTimeOrder(front, Point(trades[n].at.value, trades[n].price, trades[n].units, 0));
      }
    }
  }

  function ProjectedCandles(firstAt: int, lastAt: int, every: int): int
    requires every > 0
  {
    Truncate(lastAt, every) - Truncate(firstAt, every) + 1
  }

  function Filler(previous: Candle<real>, at: int): Candle<real> {
    Candle(at, previous.close, previous.close, previous.close, previous.close, 0, 0, 0)
  }

  /** Candles on one even grid. */
  ghost predicate OnGrid(candles: seq<Candle<real>>, firstAt: int, every: int) {
    forall k :: 0 <= k < |candles| ==> candles[k].at == firstAt + k * every
  }

  /** Where nothing traded, the previous close stands on all four prices. */
  ghost predicate FillersRepeat(candles: seq<Candle<real>>) {
    forall k :: 0 <= k < |candles| && candles[k].trades == 0 ==>
        k > 0 && candles[k] == Filler(candles[k - 1], candles[k].at)
  }

  function Traded(candles: seq<Candle<real>>): seq<Candle<real>> {
    if candles == [] then []
    else
      var n := |candles| - 1;
      Traded(candles[..n]) + (if candles[n].trades > 0 then [candles[n]] else [])
  }

  /** A dense fill of sparse candles. */
  ghost predicate IsDenseFill(even: seq<Candle<real>>, filled: seq<Candle<real>>, every: int)
    requires filled != [] && every > 0
  {
    && |even| == ProjectedCandles(filled[0].at, filled[|filled| - 1].at, every)
    && OnGrid(even, filled[0].at, every) && FillersRepeat(even) && Traded(even) == filled
  }

  lemma TradedAppend(candles: seq<Candle<real>>, c: Candle<real>)
    ensures Traded(candles + [c]) == Traded(candles) + (if c.trades > 0 then [c] else [])
  {
    assert (candles + [c])[..|candles|] == candles;
  }

  ghost predicate IsSparse(filled: seq<Candle<real>>, every: int)
    requires every > 0
  {
    && StartsAscend(filled)
    && (forall k :: 0 <= k < |filled| ==> filled[k].at % every == 0 && filled[k].trades > 0)
  }

  lemma MultipleTruncates(n: int, every: int)
    requires every > 0 && n % every == 0
    ensures Truncate(n, every) == n / every && n == n / every * every
  {
    if n < 0 {
      var k := n / every;
      assert -n == (-k) * every by { assert n == k * every; assert (-k) * every == -(k * every); }
      UniqueQuotient(-n, every, -k, 0);
    }
  }

  /** Appending the next candle on the grid. */
  lemma GridGrows(even: seq<Candle<real>>, c: Candle<real>, firstAt: int, every: int)
    requires OnGrid(even, firstAt, every) && even != [] && c.at == even[|even| - 1].at + every
    ensures OnGrid(even + [c], firstAt, every)
  {
    var n := |even|;
    assert even[n - 1].at == firstAt + (n - 1) * every;
    assert (n - 1) * every + every == n * every;
  }

  lemma FillersGrow(even: seq<Candle<real>>, c: Candle<real>)
    requires FillersRepeat(even) && (c.trades == 0 ==> even != [] && c == Filler(even[|even| - 1], c.at))
    ensures FillersRepeat(even + [c])
  {}

  /** Two multiples of one width differ by whole widths: stepping by the width meets the later one. */
  lemma StepsMeet(at: int, next: int, every: int)
    requires every > 0 && at % every == 0 && next % every == 0 && at < next
    ensures at + every <= next && (at + every) % every == 0
  {
    var j, k := at / every, next / every;
    assert at == j * every && next == k * every;
    StepApart(j, k, every);
    StepApart(k, j, every);
    assert at + every == (j + 1) * every;
    MultipleRemainder(j + 1, every);
  }

  /** The fill loop: the empty buckets before each candle, then the candle. */
  method Fill(filled: seq<Candle<real>>, every: int) returns (even: seq<Candle<real>>)
    requires filled != [] && every > 0 && IsSparse(filled, every)
    ensures IsDenseFill(even, filled, every)
  {
    hide OnGrid, FillersRepeat, Traded, ProjectedCandles;
    var firstAt := filled[0].at;
    even := [];
    NothingFilled(firstAt, every);
    for n := 0 to |filled|
      invariant OnGrid(even, firstAt, every) && FillersRepeat(even) && Traded(even) == filled[..n]
      invariant (n == 0 <==> even == []) && (n > 0 ==> even[|even| - 1] == filled[n - 1])
    {
      var candle := filled[n];
      if even != [] {
        var previous := even[|even| - 1];
        even := FillBefore(even, previous, candle, firstAt, every);
      } else {
        StartsGrid(candle, every);
      }
      TradedAppend(even, candle);
      FillersGrow(even, candle);
      if even != [] { GridGrows(even, candle, firstAt, every); }
      even := even + [candle];
      assert filled[..n + 1] == filled[..n] + [candle];
    }
    assert filled[..|filled|] == filled;
    GridLength(even, filled, every);
  }

  lemma NothingFilled(firstAt: int, every: int)
    ensures OnGrid([], firstAt, every) && FillersRepeat([]) && Traded([]) == []
  {}

  lemma StartsGrid(c: Candle<real>, every: int)
    ensures OnGrid([] + [c], c.at, every)
  {}

  /** The inner loop. */
  method FillBefore(
      start: seq<Candle<real>>, previous: Candle<real>, candle: Candle<real>, firstAt: int,
      every: int) returns (even: seq<Candle<real>>)
    requires every > 0 && start != [] && start[|start| - 1] == previous && previous.at < candle.at
    requires previous.at % every == 0 && candle.at % every == 0
    requires OnGrid(start, firstAt, every) && FillersRepeat(start)
    ensures OnGrid(even, firstAt, every) && FillersRepeat(even) && Traded(even) == Traded(start)
    ensures even != [] && even[|even| - 1].at + every == candle.at
  {
    hide OnGrid, FillersRepeat, Traded;
    even := start;
    var at := previous.at + every;
    StepsMeet(previous.at, candle.at, every);
    while at < candle.at
      invariant even != [] && even[|even| - 1].at + every == at <= candle.at && at % every == 0
      invariant even[|even| - 1].close == previous.close
      invariant OnGrid(even, firstAt, every) && FillersRepeat(even) && Traded(even) == Traded(start)
      decreases candle.at - at
    {
      var filler := Candle(at, previous.close, previous.close, previous.close, previous.close, 0, 0, 0);
      GridGrows(even, filler, firstAt, every);
      FillersGrow(even, filler);
      TradedAppend(even, filler);
      StepsMeet(at, candle.at, every);
      even := even + [filler];
      at := at + every;
    }
  }

  /** A grid from the first start to the last has exactly the projected length. */
  lemma GridLength(even: seq<Candle<real>>, filled: seq<Candle<real>>, every: int)
    requires every > 0 && even != [] && filled != [] && OnGrid(even, filled[0].at, every)
    requires even[|even| - 1].at == filled[|filled| - 1].at && IsSparse(filled, every)
    ensures |even| == ProjectedCandles(filled[0].at, filled[|filled| - 1].at, every)
  {
    var a, b, n := filled[0].at, filled[|filled| - 1].at, |even|;
    MultipleTruncates(a, every);
    MultipleTruncates(b, every);
    assert b == a + (n - 1) * every;
    assert a / every * every + (n - 1) * every == (a / every + (n - 1)) * every;
    MultipleRemainder(a / every + (n - 1), every);
  }

  /** `maxCandles`, checked. */
  function BudgetOf(requested: Option<int>): Result<nat, CandleError> {
    if requested.None? then Ok(DEFAULT_MAX_CANDLES)
    else if 1 <= requested.value <= MAX_CANDLES then Ok(requested.value)
    else Err(BadMaxCandles)
  }

  /** A budget of candles is ten thousand unless one is asked for, and at most a million. */
  lemma BudgetIsExact(requested: Option<int>, n: nat)
    ensures BudgetOf(requested) == Ok(n) <==>
      (requested == None && n == 10000) || (requested == Some(n) && 1 <= n <= 1000000)
    ensures BudgetOf(requested).Err? ==> BudgetOf(requested) == Err(BadMaxCandles)
  {}

  predicate TimesPlaceable(trades: seq<Timed>, every: int)
    requires every > 0
  {
    forall i :: 0 <= i < |trades| && trades[i].at.Some? ==> CandleStartOf(trades[i].at.value, every).Ok?
  }

  datatype Options = Options(every: int, fill: bool, maxCandles: Option<int>, last: Option<nat>)

  /** The candles of the buckets that traded. */
  function SparseCandles(kept: seq<Timed>, every: int): seq<Candle<real>>
    requires every > 0
  {
    SortedByStart(Bucketed(Placeable(kept), every, Compare))
  }

  /** What the call answers. */
  ghost predicate Answers(
      r: Result<seq<Candle<real>>, CandleError>, trades: seq<Timed>, o: Options, locale: (string, string) -> int) {
    if !(1 <= o.every <= MAX_SAFE_TIME) then r == Err(BadDuration)
    else if BudgetOf(o.maxCandles).Err? then r == Err(BadMaxCandles)
    else if !TimesPlaceable(trades, o.every) then r == Err(BadCandleTime)
    else
      var sparse := SparseCandles(Kept(trades, o.last, locale), o.every);
      if !o.fill || |sparse| < 2 then r == Ok(sparse)
      else if ProjectedCandles(sparse[0].at, sparse[|sparse| - 1].at, o.every) > BudgetOf(o.maxCandles).value
      then r == Err(TooManyCandles)
      else r.Ok? && IsDenseFill(r.value, sparse, o.every)
  }

  /** Checks every matched trade's time before ordering or slicing can hide it. */
  method CheckTimes(trades: seq<Timed>, every: int) returns (ok: bool)
    requires every > 0
    ensures ok == TimesPlaceable(trades, every)
  {
    hide CandleStartOf;
    for n := 0 to |trades|
      invariant TimesPlaceable(trades[..n], every)
    {
      assert forall i :: 0 <= i < n ==> trades[..n + 1][i] == trades[..n][i];
      if trades[n].at.Some? {
        if CandleStartOf(trades[n].at.value, every).Err? { return false; }
      }
    }
    assert trades[..|trades|] == trades;
    return true;
  }

  method ToCandles(
      trades: seq<Timed>, o: Options,
      locale: (string, string) -> int) returns (r: Result<seq<Candle<real>>, CandleError>)
    ensures Answers(r, trades, o, locale)
  {
    hide CandleStartOf, Bucketed, SortedByStart, IsDenseFill, ProjectedCandles, Placeable, Kept;
    hide TimesPlaceable, AllPlaceable, IsSparse;
    var every := o.every;
    if every < 1 || every > MAX_SAFE_TIME { return Err(BadDuration); }
    var budget := BudgetOf(o.maxCandles);
    if budget.Err? { return Err(budget.error); }
    var ok := CheckTimes(trades, every);
    if !ok { return Err(BadCandleTime); }
    var points := Placeable(Kept(trades, o.last, locale));
    KeptArePlaceable(trades, o.last, locale, every);
    var bucketed := BucketCandles(points, every, Compare);
    var filled := bucketed.value;
    if !o.fill || |filled| < 2 { return Ok(filled); }
    var firstAt, lastAt := filled[0].at, filled[|filled| - 1].at;
    if ProjectedCandles(firstAt, lastAt, every) > budget.value { return Err(TooManyCandles); }
    SparseCandlesAreSparse(trades, o.last, locale, every);
    var even := Fill(filled, every);
    return Ok(even);
  }

  lemma {:induction false} PlaceableTimes(trades: seq<Timed>, every: int)
    requires every > 0 && TimesPlaceable(trades, every)
    ensures AllPlaceable(Placeable(trades), every)
    decreases |trades|
  {
    hide CandleStartOf;
    if trades != [] {
      var n := |trades| - 1;
      assert TimesPlaceable(trades[..n], every);
      PlaceableTimes(trades[..n], every);
    }
  }

  lemma KeptArePlaceable(trades: seq<Timed>, last: Option<nat>, locale: (string, string) -> int, every: int)
    requires every > 0 && TimesPlaceable(trades, every)
    ensures AllPlaceable(Placeable(Kept(trades, last, locale)), every)
  {
    hide CandleStartOf, Kept, Placeable, AllPlaceable;
    KeptAreOrdered(trades, last, locale);
    var kept := Kept(trades, last, locale);
    forall i | 0 <= i < |kept| && kept[i].at.Some? ensures CandleStartOf(kept[i].at.value, every).Ok? {
      assert kept[i] in kept;
      var k :| 0 <= k < |trades| && trades[k] == kept[i];
    }
    PlaceableTimes(kept, every);
  }

  function Worth(x: real): real { x }

  /** The sparse candles of a series are a chart of the trades it kept. */
  lemma SparseCandlesAreAChart(trades: seq<Timed>, last: Option<nat>, locale: (string, string) -> int, every: int)
    requires every > 0
    ensures var kept := Kept(trades, last, locale);
      IsCandleChart(SparseCandles(kept, every), Placeable(kept), every, Worth)
  {
    hide Bucketed, SortedByStart, IsCandleChart, Kept, Placeable;
    KeptAreOrdered(trades, last, locale);
    PlaceableAscend(Kept(trades, last, locale));
    BucketsAreAChart(Placeable(Kept(trades, last, locale)), every, Compare, Worth);
  }

  lemma SparseCandlesAreSparse(trades: seq<Timed>, last: Option<nat>, locale: (string, string) -> int, every: int)
    requires every > 0
    ensures IsSparse(SparseCandles(Kept(trades, last, locale), every), every)
  {
    hide Bucketed, SortedByStart, Kept, Placeable, InBucket, TradesIn, BaseIn, QuoteIn, BaseOf, QuoteOf;
    SparseCandlesAreAChart(trades, last, locale, every);
    var kept := Kept(trades, last, locale);
    var sparse := SparseCandles(kept, every);
    forall k | 0 <= k < |sparse| ensures sparse[k].trades > 0 {
      assert Candles.Describes(sparse[k], InBucket(Placeable(kept), every, sparse[k].at), Worth);
    }
  }
}
