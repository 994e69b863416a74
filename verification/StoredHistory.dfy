/** packages/market/src/stored-history.ts: exact candles and an exact summary of one page. */
module StoredHistory {
  import opened Texts
  import opened Outcomes
  import opened Ratios
  import opened Candles

  /** A settled row as an exact point; its price is reduced and over a positive denominator. */
  datatype TradePoint = TradePoint(hash: Text, unitPrice: Ratio, baseQuantity: nat, quoteTotal: nat, at: int)

  ghost predicate WellPriced(points: seq<TradePoint>) { forall p :: p in points ==> p.unitPrice.denominator > 0 }

  /** `left.at - right.at || compareText(left.hash, right.hash)` is negative. */
  predicate Older(a: TradePoint, b: TradePoint) { a.at < b.at || (a.at == b.at && CompareText(a.hash, b.hash) < 0) }

  function Age(p: TradePoint): real { p.at as real }

  function Ordered(points: seq<TradePoint>): seq<TradePoint> { SortBy(points, Older) }

  function AsPoint(p: TradePoint): Point<Ratio> { Point(p.at, p.unitPrice, p.baseQuantity, p.quoteTotal) }

  function AsPoints(points: seq<TradePoint>): (r: seq<Point<Ratio>>)
    ensures |r| == |points| && forall i :: 0 <= i < |points| ==> r[i] == AsPoint(points[i])
  {
    seq(|points|, i requires 0 <= i < |points| => AsPoint(points[i]))
  }

  /** What a price is worth. */
  function Worth(r: Ratio): real { if r.denominator == 0 then 0.0 else ValueOf(r) }

  datatype Summary = Summary(
    first: Ratio, last: Ratio, low: Ratio, high: Ratio, median: Ratio, change: Ratio, changeRatio: Ratio,
    baseVolume: int, quoteTurnover: int, trades: nat)

  predicate Cheaper(a: Ratio, b: Ratio) { CompareRatio(a, b) < 0 }

  function Prices(points: seq<TradePoint>): (r: seq<Ratio>)
    ensures |r| == |points| && forall i :: 0 <= i < |points| ==> r[i] == points[i].unitPrice
  {
    seq(|points|, i requires 0 <= i < |points| => points[i].unitPrice)
  }

  function SortedPrices(points: seq<TradePoint>): seq<Ratio> { SortBy(Prices(points), Cheaper) }

  /** All the base that changed hands, and all the quote paid for it. */
  function BaseQuantities(points: seq<TradePoint>): int {
    if points == [] then 0 else BaseQuantities(points[..|points| - 1]) + points[|points| - 1].baseQuantity
  }

  function QuoteTotals(points: seq<TradePoint>): int {
    if points == [] then 0 else QuoteTotals(points[..|points| - 1]) + points[|points| - 1].quoteTotal
  }

  lemma {:induction false} VolumesOfPoints(points: seq<TradePoint>)
    ensures BaseOf(AsPoints(points)) == BaseQuantities(points) && QuoteOf(AsPoints(points)) == QuoteTotals(points)
    decreases |points|
  {
    if points != [] {
      VolumesOfPoints(points[..|points| - 1]);
      assert AsPoints(points)[..|points| - 1] == AsPoints(points[..|points| - 1]);
    }
  }

  /** An exact summary says what the page's points amount to. */
  ghost predicate Summarises(s: Summary, points: seq<TradePoint>) {
    && points != []
    && s.first == points[0].unitPrice && s.last == points[|points| - 1].unitPrice
    && (forall p :: p in points ==> Worth(s.low) <= Worth(p.unitPrice) <= Worth(s.high))
    && (exists p :: p in points && p.unitPrice == s.low) && (exists p :: p in points && p.unitPrice == s.high)
    && s.median.denominator > 0 && Worth(s.low) <= Worth(s.median) <= Worth(s.high)
    && Worth(s.first) + Worth(s.change) == Worth(s.last)
    && Worth(s.changeRatio) * Worth(s.first) == Worth(s.change)
    && s.baseVolume == BaseQuantities(points) && s.quoteTurnover == QuoteTotals(points) && s.trades == |points|
  }

  lemma RatioOrderIsConsistent(points: seq<TradePoint>)
    requires WellPriced(points)
    ensures Consistent(AsPoints(points), CompareRatio, Worth)
  {
    hide CompareRatio, ValueOf;
    var ps := AsPoints(points);
    forall p, q | p in ps && q in ps
      ensures CompareRatio(p.price, q.price) > 0 <==> Worth(p.price) > Worth(q.price)
      ensures CompareRatio(p.price, q.price) < 0 <==> Worth(p.price) < Worth(q.price)
    {
      var i :| 0 <= i < |points| && ps[i] == p;
      var j :| 0 <= j < |points| && ps[j] == q;
      assert points[i] in points && points[j] in points;
      CompareIsTheOrderOfValues(p.price, q.price);
    }
  }

  lemma OlderIsStrict()
    ensures StrictOrder(Older)
  {
    hide Less;
    forall a: TradePoint, b: TradePoint, c: TradePoint
      ensures !Older(a, a) && (Older(a, b) && Older(b, c) ==> Older(a, c))
      ensures !Older(a, b) && !Older(b, c) ==> !Older(a, c)
    {
      LessTrichotomy(a.hash, b.hash);
      LessTrichotomy(b.hash, c.hash);
      LessTrichotomy(a.hash, c.hash);
      if Less(a.hash, b.hash) && Less(b.hash, c.hash) { LessTransitive(a.hash, b.hash, c.hash); }
      if Less(c.hash, b.hash) && Less(b.hash, a.hash) { LessTransitive(c.hash, b.hash, a.hash); }
    }
  }

  /** Oldest first, and of one time by hash. */
  lemma OrderedPoints(points: seq<TradePoint>)
    ensures TimesAscend(AsPoints(Ordered(points))) && |Ordered(points)| == |points|
    ensures multiset(Ordered(points)) == multiset(points)
    ensures forall i, j :: 0 <= i < j < |points| && Ordered(points)[i].at == Ordered(points)[j].at ==>
      !Less(Ordered(points)[j].hash, Ordered(points)[i].hash)
    ensures forall p :: p in Ordered(points) ==> p in points
    ensures WellPriced(points) ==> WellPriced(Ordered(points))
  {
    hide SortBy;
    assert Respects(Older, Age);
    SortByOrders(points, Older, Age);
    OlderIsStrict();
    SortByMakesNoInversion(points, Older);
    var ordered := Ordered(points);
    forall i, j | 0 <= i < j < |ordered| ensures ordered[i].at <= ordered[j].at {
      assert Age(ordered[i]) <= Age(ordered[j]);
    }
  }

  /** The candles of one page: refused when a time has no bucket, otherwise a chart of its points. */
  method CandlesOf(points: seq<TradePoint>, every: int) returns (r: Result<seq<Candle<Ratio>>, CandleError>)
    requires every > 0 && WellPriced(points)
    ensures r.Err? <==> !AllPlaceable(AsPoints(Ordered(points)), every)
    ensures r.Ok? ==> IsCandleChart(r.value, AsPoints(Ordered(points)), every, Worth)
  {
    hide Bucketed, SortedByStart, IsCandleChart, AllPlaceable, Ordered, Consistent, TimesAscend, WellPriced;
    OrderedPoints(points);
    RatioOrderIsConsistent(Ordered(points));
    r := BucketCandles(AsPoints(Ordered(points)), every, CompareRatio);
    BucketsAreAChart(AsPoints(Ordered(points)), every, CompareRatio, Worth);
  }

  ghost predicate AllPositive(prices: seq<Ratio>) { forall r :: r in prices ==> r.denominator > 0 }

  /** Cheaper orders by worth once denominators are positive. */
  lemma {:induction false} SortedByPrice(prices: seq<Ratio>)
    requires AllPositive(prices)
    ensures var sorted := SortBy(prices, Cheaper);
      Ascending(sorted) && |sorted| == |prices| && multiset(sorted) == multiset(prices)
    decreases |prices|
  {
    hide CompareRatio, InsertBy;
    if prices != [] {
      var n := |prices| - 1;
      SortedByPrice(prices[..n]);
      assert prices == prices[..n] + [prices[n]];
      assert prices[n] in prices;
      InsertByPrice(SortBy(prices[..n], Cheaper), prices[n]);
      assert |multiset(SortBy(prices, Cheaper))| == |multiset(prices)|;
    }
  }

  lemma DearestLast(sorted: seq<Ratio>, row: Ratio)
    requires Ascending(sorted) && row.denominator > 0
    requires sorted == [] || CompareRatio(sorted[|sorted| - 1], row) <= 0
    ensures Ascending(sorted + [row])
  {
    hide CompareRatio;
    var n := |sorted|;
    forall i | 0 <= i < n ensures CompareRatio(sorted[i], row) <= 0 {
      assert sorted[i] in sorted && sorted[n - 1] in sorted;
      if i < n - 1 { CompareIsTransitive(sorted[i], sorted[n - 1], row); }
    }
  }

  predicate NotDearer(a: Ratio, b: Ratio) { CompareRatio(a, b) <= 0 }

  ghost predicate NoneDearer(prices: seq<Ratio>, last: Ratio) { forall x :: x in prices ==> NotDearer(x, last) }

  lemma AscendingFront(sorted: seq<Ratio>)
    requires Ascending(sorted) && sorted != []
    ensures Ascending(sorted[..|sorted| - 1]) && sorted[|sorted| - 1].denominator > 0
    ensures NoneDearer(sorted[..|sorted| - 1], sorted[|sorted| - 1])
  {
    hide CompareRatio;
    var n := |sorted| - 1;
    assert sorted[n] in sorted && forall x :: x in sorted[..n] ==> x in sorted;
  }

  lemma {:induction false} InsertByPrice(sorted: seq<Ratio>, row: Ratio)
    requires Ascending(sorted) && row.denominator > 0
    ensures Ascending(InsertBy(sorted, row, Cheaper)) &&
      multiset(InsertBy(sorted, row, Cheaper)) == multiset(sorted) + multiset{row}
    ensures forall x :: x in InsertBy(sorted, row, Cheaper) ==> x in sorted || x == row
    decreases |sorted|
  {
    hide CompareRatio, Ascending;
    var n := |sorted|;
    if n == 0 || !Cheaper(row, sorted[n - 1]) {
      if n > 0 { AscendingFront(sorted); CompareIsTheOrderOfValues(row, sorted[n - 1]); }
      DearestLast(sorted, row);
    } else {
      var front, last := InsertBy(sorted[..n - 1], row, Cheaper), sorted[n - 1];
      AscendingFront(sorted);
      CompareIsTheOrderOfValues(row, last);
      InsertByPrice(sorted[..n - 1], row);
      assert sorted == sorted[..n - 1] + [last];
      assert front != [] ==> front[|front| - 1] in front;
      DearestLast(front, last);
    }
  }

  lemma PriceExtremes(points: seq<TradePoint>)
    requires points != [] && WellPriced(points)
    ensures var sorted := SortedPrices(points);
      && |sorted| == |points| && Ascending(sorted)
      && (forall p :: p in points ==> Worth(sorted[0]) <= Worth(p.unitPrice) <= Worth(sorted[|sorted| - 1]))
      && (exists p :: p in points && p.unitPrice == sorted[0])
      && (exists p :: p in points && p.unitPrice == sorted[|sorted| - 1])
  {
    hide CompareRatio, SortBy, ValueOf;
    var prices, sorted := Prices(points), SortedPrices(points);
    forall r | r in prices ensures r.denominator > 0 {
      var i :| 0 <= i < |prices| && prices[i] == r;
      assert points[i] in points;
    }
    SortedByPrice(prices);
    forall p | p in points ensures Worth(sorted[0]) <= Worth(p.unitPrice) <= Worth(sorted[|sorted| - 1]) {
      var i :| 0 <= i < |points| && points[i] == p;
      assert prices[i] in multiset(prices) && prices[i] in multiset(sorted);
      var k :| 0 <= k < |sorted| && sorted[k] == p.unitPrice;
      AscendingValues(sorted, 0, k);
      AscendingValues(sorted, k, |sorted| - 1);
    }
    PriceOfSomePoint(points, sorted, 0);
    PriceOfSomePoint(points, sorted, |sorted| - 1);
  }

  lemma PriceOfSomePoint(points: seq<TradePoint>, sorted: seq<Ratio>, k: nat)
    requires multiset(sorted) == multiset(Prices(points)) && k < |sorted|
    ensures exists p :: p in points && p.unitPrice == sorted[k]
  {
    assert sorted[k] in multiset(sorted) && sorted[k] in Prices(points);
    var i :| 0 <= i < |points| && Prices(points)[i] == sorted[k];
    assert points[i] in points;
  }

  /** The summary's formulas, over points in time order. */
  function SummaryFor(points: seq<TradePoint>): Summary
    requires points != [] && points[0].unitPrice.numerator != 0
  {
    var first, last, sorted := points[0].unitPrice, points[|points| - 1].unitPrice, SortedPrices(points);
    var change := SubtractRatio(last, first);
    SortKeepsSize(Prices(points));
    Summary(first, last, sorted[0], sorted[|sorted| - 1], MedianRatio(sorted), change, DivideRatio(change, first).value,
            BaseQuantities(points), QuoteTotals(points), |points|)
  }

  lemma {:induction false} SortKeepsSize(prices: seq<Ratio>)
    ensures |SortBy(prices, Cheaper)| == |prices|
    decreases |prices|
  {
    hide Cheaper;
    if prices != [] {
      SortKeepsSize(prices[..|prices| - 1]);
      InsertAddsOne(SortBy(prices[..|prices| - 1], Cheaper), prices[|prices| - 1]);
    }
  }

  lemma {:induction false} InsertAddsOne(sorted: seq<Ratio>, row: Ratio)
    ensures |InsertBy(sorted, row, Cheaper)| == |sorted| + 1
    decreases |sorted|
  {
    hide Cheaper;
    if sorted != [] { InsertAddsOne(sorted[..|sorted| - 1], row); }
  }

  /** The formulas mean what a reader takes them for. */
  lemma SummaryIsExact(points: seq<TradePoint>)
    requires points != [] && WellPriced(points) && points[0].unitPrice.numerator != 0
    ensures Summarises(SummaryFor(points), points)
  {
    hide CompareRatio, SortBy, ValueOf, WellPriced, SubtractRatio, DivideRatio, MedianRatio, SortedPrices;
    var sorted := SortedPrices(points);
    PriceExtremes(points);
    FirstAndLast(points);
    SummaryChangesAddUp(points[0].unitPrice, points[|points| - 1].unitPrice);
    MedianIsInTheMiddle(sorted);
    assert sorted[0] in sorted && sorted[|sorted| - 1] in sorted;
  }

  /** The summary of one page: nothing for an empty one, refused only when the first price is zero. */
  method SummaryOf(page: seq<TradePoint>) returns (r: Result<Option<Summary>, CandleError>)
    requires WellPriced(page)
    ensures page == [] ==> r == Ok(None)
    ensures page != [] ==> (r == Err(CandleError.ZeroOpening) <==> Ordered(page)[0].unitPrice.numerator == 0)
    ensures page != [] && r.Ok? ==> r.value.Some? && Summarises(r.value.value, Ordered(page))
  {
    hide SortBy, ValueOf, Ordered, WellPriced, SubtractRatio, MedianRatio, TimesAscend, Summarises;
    hide SortedPrices, DivideRatio;
    if page == [] { return Ok(None); }
    OrderedPoints(page);
    var points := Ordered(page);
    var first, last := points[0].unitPrice, points[|points| - 1].unitPrice;
    var sorted := SortedPrices(points);
    var baseVolume, quoteTurnover := SumVolumes(points);
    var change := SubtractRatio(last, first);
    DivisionByFirst(change, first);
    var divided := DivideRatio(change, first);
    if divided.Err? { return Err(CandleError.ZeroOpening); }
    SortedPricesSize(points);
    SummaryIsExact(points);
    r := Ok(Some(Summary(first, last, sorted[0], sorted[|sorted| - 1], MedianRatio(sorted), change, divided.value,
                         baseVolume, quoteTurnover, |points|)));
  }

  lemma SortedPricesSize(points: seq<TradePoint>)
    ensures |SortedPrices(points)| == |points|
  {
    SortKeepsSize(Prices(points));
  }

  lemma FirstAndLast(points: seq<TradePoint>)
    requires points != [] && WellPriced(points)
    ensures points[0].unitPrice.denominator > 0 && points[|points| - 1].unitPrice.denominator > 0
  {
    assert points[0] in points && points[|points| - 1] in points;
  }

  lemma DivisionByFirst(change: Ratio, first: Ratio)
    ensures DivideRatio(change, first).Err? <==> first.numerator == 0
  {}

  method SumVolumes(points: seq<TradePoint>) returns (baseVolume: int, quoteTurnover: int)
    ensures baseVolume == BaseQuantities(points) && quoteTurnover == QuoteTotals(points)
  {
    baseVolume, quoteTurnover := 0, 0;
    for n := 0 to |points|
      invariant baseVolume == BaseQuantities(points[..n]) && quoteTurnover == QuoteTotals(points[..n])
    {
      assert points[..n + 1][..n] == points[..n];
      baseVolume := baseVolume + points[n].baseQuantity;
      quoteTurnover := quoteTurnover + points[n].quoteTotal;
    }
    assert points[..|points|] == points;
  }

  /** The candles of a page and its summary count the same trades, base and quote. */
  lemma PageAddsUp(points: seq<TradePoint>, candles: seq<Candle<Ratio>>, every: int, s: Summary)
    requires every > 0 && IsCandleChart(candles, AsPoints(Ordered(points)), every, Worth) &&
      Summarises(s, Ordered(points))
    ensures TradesIn(candles) == s.trades && BaseIn(candles) == s.baseVolume && QuoteIn(candles) == s.quoteTurnover
    ensures candles != [] && candles[0].open == s.first && candles[|candles| - 1].close == s.last
  {
    hide Ordered, TradesIn, BaseIn, QuoteIn, FloorTo, Candles.Describes, InBucket, Worth, WellPriced;
    hide TimesAscend, StartsAscend, IsCandleChart;
    var ps := AsPoints(Ordered(points));
    OrderedPoints(points);
    VolumesOfPoints(Ordered(points));
    ChartTotals(candles, ps, every, Worth);
    FirstBucketOpens(candles, ps, every, Worth);
    LastBucketCloses(candles, ps, every, Worth);
  }

  lemma ChartTotals(candles: seq<Candle<Ratio>>, points: seq<Point<Ratio>>, every: int, worth: Ratio -> real)
    requires every > 0 && IsCandleChart(candles, points, every, worth)
    ensures TradesIn(candles) == |points| && BaseIn(candles) == BaseOf(points) && QuoteIn(candles) == QuoteOf(points)
  {
    hide FloorTo, Candles.Describes, InBucket, TradesIn, BaseIn, QuoteIn;
  }

  lemma {:induction false} FirstOfBucket(points: seq<Point<Ratio>>, every: int, at: int)
    requires every > 0 && points != [] && FloorTo(points[0].at, every) == at
    ensures InBucket(points, every, at) != [] && InBucket(points, every, at)[0] == points[0]
    decreases |points|
  {
    hide FloorTo;
    var n := |points| - 1;
    if n > 0 { FirstOfBucket(points[..n], every, at); }
  }

  lemma LastOfBucket(points: seq<Point<Ratio>>, every: int, at: int)
    requires every > 0 && points != [] && FloorTo(points[|points| - 1].at, every) == at
    ensures var inside := InBucket(points, every, at); inside != [] && inside[|inside| - 1] == points[|points| - 1]
  {
    hide FloorTo;
  }

  lemma FirstBucketOpens(candles: seq<Candle<Ratio>>, points: seq<Point<Ratio>>, every: int, worth: Ratio -> real)
    requires every > 0 && points != [] && TimesAscend(points) && IsCandleChart(candles, points, every, worth)
    ensures candles != [] && candles[0].open == points[0].price
  {
    hide FloorTo, TradesIn, BaseIn, QuoteIn, InBucket, BaseOf, QuoteOf, TimesAscend;
    var p := points[0];
    assert p in points;
    var k :| 0 <= k < |candles| && candles[k].at <= p.at < candles[k].at + every;
    OneBucket(p.at, candles[k].at, every);
    if k > 0 { EarlierBucketIsEmpty(points, every, candles[0].at, candles[k].at); }
    FirstOfBucket(points, every, candles[k].at);
  }

  lemma FirstIsMember<T>(s: seq<T>)
    ensures s != [] ==> s[0] in s
  {}

  lemma NoMembers<T>(s: seq<T>)
    requires forall x :: x in s ==> false
    ensures s == []
  {
    FirstIsMember(s);
  }

  lemma EarlierBucketIsEmpty(points: seq<Point<Ratio>>, every: int, at: int, first: int)
    requires every > 0 && points != [] && TimesAscend(points) && FloorTo(points[0].at, every) == first && at < first
    ensures InBucket(points, every, at) == []
  {
    hide FloorTo, InBucket;
    InBucketAre(points, every, at);
    forall p | p in points ensures FloorTo(p.at, every) != at {
      var i :| 0 <= i < |points| && points[i] == p;
      FloorMonotone(points[0].at, p.at, every);
    }
    NoMembers(InBucket(points, every, at));
  }

  lemma LastBucketCloses(candles: seq<Candle<Ratio>>, points: seq<Point<Ratio>>, every: int, worth: Ratio -> real)
    requires every > 0 && points != [] && TimesAscend(points) && IsCandleChart(candles, points, every, worth)
    ensures candles != [] && candles[|candles| - 1].close == points[|points| - 1].price
  {
    hide FloorTo, TradesIn, BaseIn, QuoteIn, InBucket, BaseOf, QuoteOf, TimesAscend;
    var n := |points| - 1;
    var p := points[n];
    assert p in points;
    var k :| 0 <= k < |candles| && candles[k].at <= p.at < candles[k].at + every;
    OneBucket(p.at, candles[k].at, every);
    LastOfBucket(points, every, candles[k].at);
    if k < |candles| - 1 { LaterBucketIsEmpty(points, every, candles[|candles| - 1].at, candles[k].at); }
  }

  lemma LaterBucketIsEmpty(points: seq<Point<Ratio>>, every: int, at: int, last: int)
    requires every > 0 && points != [] && TimesAscend(points) && FloorTo(points[|points| - 1].at, every) == last &&
      last < at
    ensures InBucket(points, every, at) == []
  {
    hide FloorTo, InBucket;
    InBucketAre(points, every, at);
    forall p | p in points ensures FloorTo(p.at, every) != at {
      var i :| 0 <= i < |points| && points[i] == p;
      FloorMonotone(p.at, points[|points| - 1].at, every);
    }
    NoMembers(InBucket(points, every, at));
  }
}
