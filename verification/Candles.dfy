/**
 * Bucketing settled trades by advisory time.
 *
 * `candleStartOf` and the bucket loop are those of packages/market/src/series.ts; the same
 * loop runs over exact prices in packages/market/src/stored-history.ts. Prices are of any
 * type here: a comparison orders them, and what they are worth is a real number.
 */
module Candles {
  import opened Outcomes

  const MAX_SAFE_TIME: int := 9007199254740991
  const MIN_SAFE_TIME: int := -9007199254740991

  datatype CandleError = BadDuration | BadMaxCandles | BadCandleTime | TooManyCandles | ZeroOpening

  /** One settled trade at a node's advisory time. */
  datatype Point<P> = Point(at: int, price: P, base: int, quote: int)

  datatype Candle<P> = Candle(at: int, open: P, high: P, low: P, close: P, base: int, quote: int, trades: nat)

  // --------------------------------------------------------- bucket starts

  /** BigInt division, which truncates toward zero. */
  function Truncate(n: int, d: int): int
    requires d > 0
  {
    if n >= 0 then n / d else -((-n) / d)
  }

  predicate IsSafe(n: int) { MIN_SAFE_TIME <= n <= MAX_SAFE_TIME }

  function CandleStartOf(at: int, every: int): Result<int, CandleError>
    requires every > 0
  {
    if !IsSafe(at) then Err(BadCandleTime)
    else
      var quotient := if at < 0 then -Truncate(-at + every - 1, every) else Truncate(at, every);
      var start := quotient * every;
      if !IsSafe(start) then Err(BadCandleTime) else Ok(start)
  }

  /** The greatest multiple of the width at or below a time. */
  function FloorTo(at: int, every: int): int
    requires every > 0
  {
    at / every * every
  }

  lemma FloorBounds(at: int, every: int)
    requires every > 0
    ensures FloorTo(at, every) <= at < FloorTo(at, every) + every
    ensures FloorTo(at, every) % every == 0
  {
    MultipleRemainder(at / every, every);
  }

  lemma MultipleRemainder(k: int, every: int)
    requires every > 0
    ensures (k * every) % every == 0 && (k * every) / every == k
  {
    UniqueQuotient(k * every, every, k, 0);
  }

  lemma UniqueQuotient(n: int, d: int, q: int, r: int)
    requires d > 0 && n == q * d + r && 0 <= r < d
    ensures n / d == q && n % d == r
  {
    var q', r' := n / d, n % d;
    assert n == q' * d + r';
    StepApart(q, q', d);
    StepApart(q', q, d);
  }

  lemma StepApart(a: int, b: int, d: int)
    requires d > 0
    ensures a < b ==> a * d + d <= b * d
  {
    if a < b {
      var k := b - a;
      assert b == a + k && k >= 1;
      assert (k - 1) * d >= 0;
      assert (a + k) * d == a * d + k * d && k * d == (k - 1) * d + d;
    }
  }

  /** Ceiling of a positive number over a width, as the negative branch computes it. */
  lemma NegativeFloor(at: int, every: int)
    requires every > 0 && at < 0
    ensures -((-at + every - 1) / every) == at / every
  {
    var q, r := at / every, at % every;
    assert at == q * every + r;
    assert -at + every - 1 == (-q) * every + (every - 1 - r) by { assert (-q) * every == -(q * every); }
    UniqueQuotient(-at + every - 1, every, -q, every - 1 - r);
  }

  /**
   * A bucket start is the true floor, for times before zero too; it is refused exactly when
   * the time is unsafe or the floor falls below the safe range.
   */
  lemma CandleStartIsFloor(at: int, every: int)
    requires every > 0
    ensures CandleStartOf(at, every)
         == if -9007199254740991 <= at <= 9007199254740991 && FloorTo(at, every) >= -9007199254740991
            then Ok(FloorTo(at, every)) else Err(BadCandleTime)
  {
    FloorBounds(at, every);
    if at < 0 { NegativeFloor(at, every); }
  }

  lemma FloorMonotone(a: int, b: int, every: int)
    requires every > 0 && a <= b
    ensures FloorTo(a, every) <= FloorTo(b, every)
  {
    FloorBounds(a, every);
    FloorBounds(b, every);
    StepApart(b / every, a / every, every);
  }

  /** A time lies in one bucket only. */
  lemma OneBucket(at: int, start: int, every: int)
    requires every > 0 && start % every == 0 && start <= at < start + every
    ensures start == FloorTo(at, every)
  {
    var k := start / every;
    assert start == k * every;
    UniqueQuotient(at, every, k, at - start);
  }

  // ---------------------------------------------------------- the bucket loop

  function CandleIndex<P>(candles: seq<Candle<P>>, at: int): (i: nat)
    ensures i <= |candles|
    ensures i < |candles| ==> candles[i].at == at
    ensures forall k :: 0 <= k < i ==> candles[k].at != at
  {
    if candles == [] || candles[0].at == at then 0 else 1 + CandleIndex(candles[1..], at)
  }

  function Opened<P>(at: int, p: Point<P>): Candle<P> {
    Candle(at, p.price, p.price, p.price, p.price, p.base, p.quote, 1)
  }

  function Extended<P>(c: Candle<P>, p: Point<P>, compare: (P, P) -> int): Candle<P> {
    c.(high := if compare(p.price, c.high) > 0 then p.price else c.high,
       low := if compare(p.price, c.low) < 0 then p.price else c.low,
       close := p.price, base := c.base + p.base, quote := c.quote + p.quote, trades := c.trades + 1)
  }

  function Placed<P>(candles: seq<Candle<P>>, p: Point<P>, every: int, compare: (P, P) -> int): seq<Candle<P>>
    requires every > 0
  {
    var at := FloorTo(p.at, every);
    var i := CandleIndex(candles, at);
    if i < |candles| then candles[i := Extended(candles[i], p, compare)] else candles + [Opened(at, p)]
  }

  /** Buckets in the order they were opened. */
  function Bucketed<P>(points: seq<Point<P>>, every: int, compare: (P, P) -> int): seq<Candle<P>>
    requires every > 0
  {
    if points == [] then []
    else Placed(Bucketed(points[..|points| - 1], every, compare), points[|points| - 1], every, compare)
  }

  /** `sort((a, b) => a.at - b.at)`. */
  function InsertAt<P>(sorted: seq<Candle<P>>, c: Candle<P>): seq<Candle<P>> {
    var n := |sorted|;
    if n == 0 || sorted[n - 1].at <= c.at then sorted + [c] else InsertAt(sorted[..n - 1], c) + [sorted[n - 1]]
  }

  function SortedByStart<P>(candles: seq<Candle<P>>): seq<Candle<P>> {
    if candles == [] then [] else InsertAt(SortedByStart(candles[..|candles| - 1]), candles[|candles| - 1])
  }

  predicate AllPlaceable<P>(points: seq<Point<P>>, every: int)
    requires every > 0
  {
    forall i :: 0 <= i < |points| ==> CandleStartOf(points[i].at, every).Ok?
  }

  /** The loop: one pass over the points, then the buckets by start. */
  method BucketCandles<P>(
      points: seq<Point<P>>, every: int, compare: (P, P) -> int) returns (r: Result<seq<Candle<P>>, CandleError>)
    requires every > 0
    ensures r == if AllPlaceable(points, every) then Ok(SortedByStart(Bucketed(points, every, compare)))
                 else Err(BadCandleTime)
  {
    hide CandleStartOf, FloorTo;
    var buckets: seq<Candle<P>> := [];
    for n := 0 to |points|
      invariant buckets == Bucketed(points[..n], every, compare)
      invariant forall i :: 0 <= i < n ==> CandleStartOf(points[i].at, every).Ok?
    {
      var point := points[n];
      CandleStartIsFloor(point.at, every);
      var start := CandleStartOf(point.at, every);
      if start.Err? { return Err(BadCandleTime); }
      var at, price := start.value, point.price;
      assert points[..n + 1][..n] == points[..n];
      var i := CandleIndex(buckets, at);
      if i == |buckets| {
        buckets := buckets + [Candle(at, price, price, price, price, point.base, point.quote, 1)];
      } else {
        var bucket := buckets[i];
        if compare(price, bucket.high) > 0 { bucket := bucket.(high := price); }
        if compare(price, bucket.low) < 0 { bucket := bucket.(low := price); }
        bucket := bucket.(close := price, base := bucket.base + point.base, quote := bucket.quote + point.quote,
                          trades := bucket.trades + 1);
        buckets := buckets[i := bucket];
      }
    }
    assert points[..|points|] == points;
    return Ok(SortedByStart(buckets));
  }

  // ---------------------------------------------------------- time order

  /** `sort` by a comparator, stably. */
  function InsertBy<T>(sorted: seq<T>, row: T, before: (T, T) -> bool): seq<T> {
    var n := |sorted|;
    if n == 0 || !before(row, sorted[n - 1]) then sorted + [row]
    else InsertBy(sorted[..n - 1], row, before) + [sorted[n - 1]]
  }

  function SortBy<T>(rows: seq<T>, before: (T, T) -> bool): seq<T> {
    if rows == [] then [] else InsertBy(SortBy(rows[..|rows| - 1], before), rows[|rows| - 1], before)
  }

  ghost predicate AscendsBy<T>(rows: seq<T>, key: T -> real) {
    forall i, j :: 0 <= i < j < |rows| ==> key(rows[i]) <= key(rows[j])
  }

  /** A comparator that never puts a greater key first, nor holds back a smaller one. */
  ghost predicate Respects<T(!new)>(before: (T, T) -> bool, key: T -> real) {
    forall a, b :: if before(a, b) then key(a) <= key(b) else key(b) <= key(a)
  }

  lemma {:induction false} InsertByKeepsOrder<T(!new)>(sorted: seq<T>, row: T, before: (T, T) -> bool, key: T -> real)
    requires Respects(before, key) && AscendsBy(sorted, key)
    ensures AscendsBy(InsertBy(sorted, row, before), key)
    ensures multiset(InsertBy(sorted, row, before)) == multiset(sorted) + multiset{row}
    ensures forall x :: x in InsertBy(sorted, row, before) ==> x in sorted || x == row
    decreases |sorted|
  {
    var n := |sorted|;
    if n > 0 {
      assert sorted == sorted[..n - 1] + [sorted[n - 1]];
      if before(row, sorted[n - 1]) {
        InsertByKeepsOrder(sorted[..n - 1], row, before, key);
        var front := InsertBy(sorted[..n - 1], row, before);
        forall i | 0 <= i < |front| ensures key(front[i]) <= key(sorted[n - 1]) { assert front[i] in front; }
      }
    }
  }

  /** Sorting rearranges rows into the order of their keys. */
  lemma {:induction false} SortByOrders<T(!new)>(rows: seq<T>, before: (T, T) -> bool, key: T -> real)
    requires Respects(before, key)
    ensures AscendsBy(SortBy(rows, before), key) && multiset(SortBy(rows, before)) == multiset(rows)
    ensures |SortBy(rows, before)| == |rows|
    ensures forall x :: x in SortBy(rows, before) ==> x in rows
    decreases |rows|
  {
    hide InsertBy, Respects;
    if rows != [] {
      var n := |rows| - 1;
      SortByOrders(rows[..n], before, key);
      InsertByKeepsOrder(SortBy(rows[..n], before), rows[n], before, key);
      assert rows == rows[..n] + [rows[n]];
      assert |multiset(SortBy(rows, before))| == |multiset(rows)|;
    }
  }

  /** A strict order in which rows that come neither before nor after each other may take any places. */
  ghost predicate StrictOrder<T(!new)>(before: (T, T) -> bool) {
    && (forall a :: !before(a, a))
    && (forall a, b, c :: before(a, b) && before(b, c) ==> before(a, c))
    && (forall a, b, c :: !before(a, b) && !before(b, c) ==> !before(a, c))
  }

  /** No row stands after one that it comes before. */
  ghost predicate NoInversion<T>(rows: seq<T>, before: (T, T) -> bool) {
    forall i, j :: 0 <= i < j < |rows| ==> !before(rows[j], rows[i])
  }

  lemma {:induction false} InsertByMakesNoInversion<T(!new)>(sorted: seq<T>, row: T, before: (T, T) -> bool)
    requires StrictOrder(before) && NoInversion(sorted, before)
    ensures NoInversion(InsertBy(sorted, row, before), before)
    ensures multiset(InsertBy(sorted, row, before)) == multiset(sorted) + multiset{row}
    ensures forall x :: x in InsertBy(sorted, row, before) ==> x in sorted || x == row
    decreases |sorted|
  {
    var n := |sorted|;
    if n > 0 {
      assert sorted == sorted[..n - 1] + [sorted[n - 1]];
      if before(row, sorted[n - 1]) {
        InsertByMakesNoInversion(sorted[..n - 1], row, before);
        var front := InsertBy(sorted[..n - 1], row, before);
        forall i | 0 <= i < |front| ensures !before(sorted[n - 1], front[i]) { assert front[i] in front; }
      }
    }
  }

  /** Sorting rearranges rows into the order of the comparator. */
  lemma {:induction false} SortByMakesNoInversion<T(!new)>(rows: seq<T>, before: (T, T) -> bool)
    requires StrictOrder(before)
    ensures NoInversion(SortBy(rows, before), before) && multiset(SortBy(rows, before)) == multiset(rows)
    ensures |SortBy(rows, before)| == |rows|
    decreases |rows|
  {
    hide InsertBy, StrictOrder, NoInversion;
    if rows != [] {
      var n := |rows| - 1;
      SortByMakesNoInversion(rows[..n], before);
      InsertByMakesNoInversion(SortBy(rows[..n], before), rows[n], before);
      assert rows == rows[..n] + [rows[n]];
      assert |multiset(SortBy(rows, before))| == |multiset(rows)|;
    } else {
      assert NoInversion(rows, before) by { NothingInverted(before); }
    }
  }

  lemma NothingInverted<T>(before: (T, T) -> bool)
    ensures NoInversion([], before)
  {}

  // -------------------------------------------------------------- partition

  ghost predicate StartsAscend<P>(candles: seq<Candle<P>>) {
    forall i, j :: 0 <= i < j < |candles| ==> candles[i].at < candles[j].at
  }

  ghost predicate TimesAscend<P>(points: seq<Point<P>>) {
    forall i, j :: 0 <= i < j < |points| ==> points[i].at <= points[j].at
  }

  lemma InsertLast<P>(sorted: seq<Candle<P>>, c: Candle<P>)
    requires sorted == [] || sorted[|sorted| - 1].at <= c.at
    ensures InsertAt(sorted, c) == sorted + [c]
  {}

  lemma {:induction false} SortingSortedIsIdle<P>(candles: seq<Candle<P>>)
    requires StartsAscend(candles)
    ensures SortedByStart(candles) == candles
    decreases |candles|
  {
    hide InsertAt;
    if candles != [] {
      var n := |candles| - 1;
      SortingSortedIsIdle(candles[..n]);
      InsertLast(candles[..n], candles[n]);
      assert candles == candles[..n] + [candles[n]];
    }
  }

  /** Points in time order open their buckets in time order. */
  lemma {:induction false} BucketsOpenInOrder<P>(points: seq<Point<P>>, every: int, compare: (P, P) -> int)
    requires every > 0 && TimesAscend(points)
    ensures StartsAscend(Bucketed(points, every, compare))
    ensures points != [] ==> var cs := Bucketed(points, every, compare);
      cs != [] && cs[|cs| - 1].at == FloorTo(points[|points| - 1].at, every)
    decreases |points|
  {
    hide FloorTo;
    if points != [] {
      var n := |points| - 1;
      var before := Bucketed(points[..n], every, compare);
      var at := FloorTo(points[n].at, every);
      BucketsOpenInOrder(points[..n], every, compare);
      if n > 0 {
        FloorMonotone(points[n - 1].at, points[n].at, every);
        var last := |before| - 1;
        var i := CandleIndex(before, at);
        assert i < |before| ==> i == last;
      }
    }
  }

  /** The points that fall in one bucket, in order. */
  function InBucket<P>(points: seq<Point<P>>, every: int, at: int): seq<Point<P>>
    requires every > 0
  {
    if points == [] then []
    else
      var n := |points| - 1;
      InBucket(points[..n], every, at) + (if FloorTo(points[n].at, every) == at then [points[n]] else [])
  }

  function BaseOf<P>(points: seq<Point<P>>): int {
    if points == [] then 0 else BaseOf(points[..|points| - 1]) + points[|points| - 1].base
  }

  function QuoteOf<P>(points: seq<Point<P>>): int {
    if points == [] then 0 else QuoteOf(points[..|points| - 1]) + points[|points| - 1].quote
  }

  /** The comparison is the order of what the prices are worth. */
  ghost predicate Consistent<P>(points: seq<Point<P>>, compare: (P, P) -> int, worth: P -> real) {
    forall p, q :: p in points && q in points ==>
      && (compare(p.price, q.price) > 0 <==> worth(p.price) > worth(q.price))
      && (compare(p.price, q.price) < 0 <==> worth(p.price) < worth(q.price))
  }

  /** A candle says exactly what its bucket's points amount to. */
  ghost predicate Describes<P>(c: Candle<P>, points: seq<Point<P>>, worth: P -> real) {
    && points != []
    && c.open == points[0].price && c.close == points[|points| - 1].price
    && (exists p :: p in points && p.price == c.high) && (forall p :: p in points ==> worth(p.price) <= worth(c.high))
    && (exists p :: p in points && p.price == c.low) && (forall p :: p in points ==> worth(c.low) <= worth(p.price))
    && c.base == BaseOf(points) && c.quote == QuoteOf(points) && c.trades == |points|
  }

  lemma OpenedDescribes<P>(at: int, p: Point<P>, worth: P -> real)
    ensures Describes(Opened(at, p), [p], worth)
  {
    assert p in [p];
  }

  lemma ExtendedDescribes<P>(c: Candle<P>, points: seq<Point<P>>, p: Point<P>, compare: (P, P) -> int, worth: P -> real)
    requires Describes(c, points, worth) && Consistent(points + [p], compare, worth)
    ensures Describes(Extended(c, p, compare), points + [p], worth)
  {
    var all, after := points + [p], Extended(c, p, compare);
    assert all[..|points|] == points && all[|points|] == p;
    var h :| h in points && h.price == c.high;
    var l :| l in points && l.price == c.low;
    assert h in all && l in all && p in all && p.price == all[|points|].price;
    assert after.high == c.high || after.high == p.price;
    assert after.low == c.low || after.low == p.price;
    forall q | q in all ensures worth(q.price) <= worth(after.high) && worth(after.low) <= worth(q.price) {
      assert q in points || q == p;
    }
  }

  lemma {:induction false} InBucketAre<P>(points: seq<Point<P>>, every: int, at: int)
    requires every > 0
    ensures forall p :: p in InBucket(points, every, at) ==> p in points && FloorTo(p.at, every) == at
    ensures forall p :: p in points && FloorTo(p.at, every) == at ==> p in InBucket(points, every, at)
    decreases |points|
  {
    hide FloorTo;
    if points != [] {
      var n := |points| - 1;
      InBucketAre(points[..n], every, at);
      assert points == points[..n] + [points[n]];
    }
  }

  lemma ConsistentPart<P>(points: seq<Point<P>>, part: seq<Point<P>>, compare: (P, P) -> int, worth: P -> real)
    requires Consistent(points, compare, worth) && forall p :: p in part ==> p in points
    ensures Consistent(part, compare, worth)
  {}

  /** Every candle describes its own bucket. */
  lemma {:induction false} CandlesDescribe<P>(
      points: seq<Point<P>>, every: int, compare: (P, P) -> int, worth: P -> real, k: nat)
    requires every > 0 && Consistent(points, compare, worth) && k < |Bucketed(points, every, compare)|
    ensures var c := Bucketed(points, every, compare)[k]; Describes(c, InBucket(points, every, c.at), worth)
    decreases |points|
  {
    hide FloorTo, Describes, Extended, Opened, Consistent;
    var n, before := |points| - 1, Bucketed(points[..|points| - 1], every, compare);
    var front, p := points[..n], points[n];
    var at := FloorTo(p.at, every);
    var i := CandleIndex(before, at);
    assert points == front + [p];
    ConsistentPart(points, front, compare, worth);
    BucketedStartsDiffer(front, every, compare);
    if k < |before| {
      CandlesDescribe(front, every, compare, worth, k);
      if k == i {
        var inside := InBucket(front, every, at);
        InBucketAre(front, every, at);
        ConsistentPart(points, inside + [p], compare, worth);
        ExtendedDescribes(before[i], inside, p, compare, worth);
        ExtendedKeepsStart(before[i], p, compare);
      } else {
        var start := before[k].at;
        assert start != at;
        assert InBucket(points, every, start) == InBucket(front, every, start) + [] == InBucket(front, every, start);
        assert Bucketed(points, every, compare)[k] == before[k];
      }
    } else {
      UnopenedIsEmpty(front, every, compare, at);
      OpenedDescribes(at, p, worth);
      OpenedAt(at, p);
      assert [] + [p] == [p];
    }
  }

  lemma ExtendedKeepsStart<P>(c: Candle<P>, p: Point<P>, compare: (P, P) -> int)
    ensures Extended(c, p, compare).at == c.at
  {}

  lemma OpenedAt<P>(at: int, p: Point<P>)
    ensures Opened(at, p).at == at
  {}

  lemma {:induction false} BucketedStartsDiffer<P>(points: seq<Point<P>>, every: int, compare: (P, P) -> int)
    requires every > 0
    ensures forall i, j :: 0 <= i < j < |Bucketed(points, every, compare)| ==>
      Bucketed(points, every, compare)[i].at != Bucketed(points, every, compare)[j].at
    decreases |points|
  {
    hide FloorTo;
    if points != [] { BucketedStartsDiffer(points[..|points| - 1], every, compare); }
  }

  lemma {:induction false} UnopenedIsEmpty<P>(points: seq<Point<P>>, every: int, compare: (P, P) -> int, at: int)
    requires every > 0 && CandleIndex(Bucketed(points, every, compare), at) == |Bucketed(points, every, compare)|
    ensures InBucket(points, every, at) == []
    decreases |points|
  {
    hide FloorTo;
    if points != [] {
      var n, before := |points| - 1, Bucketed(points[..|points| - 1], every, compare);
      var here := FloorTo(points[n].at, every);
      var after := Bucketed(points, every, compare);
      var i := CandleIndex(before, here);
      assert after[i].at == here;
      assert forall k :: 0 <= k < |before| ==> after[k].at == before[k].at;
      UnopenedIsEmpty(points[..n], every, compare, at);
    }
  }

  // ---------------------------------------------------------------- totals

  function TradesIn<P>(candles: seq<Candle<P>>): int {
    if candles == [] then 0 else TradesIn(candles[..|candles| - 1]) + candles[|candles| - 1].trades
  }

  function BaseIn<P>(candles: seq<Candle<P>>): int {
    if candles == [] then 0 else BaseIn(candles[..|candles| - 1]) + candles[|candles| - 1].base
  }

  function QuoteIn<P>(candles: seq<Candle<P>>): int {
    if candles == [] then 0 else QuoteIn(candles[..|candles| - 1]) + candles[|candles| - 1].quote
  }

  lemma {:induction false} TotalsAfterUpdate<P>(candles: seq<Candle<P>>, i: nat, c: Candle<P>)
    requires i < |candles|
    ensures TradesIn(candles[i := c]) == TradesIn(candles) - candles[i].trades + c.trades
    ensures BaseIn(candles[i := c]) == BaseIn(candles) - candles[i].base + c.base
    ensures QuoteIn(candles[i := c]) == QuoteIn(candles) - candles[i].quote + c.quote
    decreases |candles|
  {
    var n, after := |candles| - 1, candles[i := c];
    if i == n {
      assert after[..n] == candles[..n];
    } else {
      TotalsAfterUpdate(candles[..n], i, c);
      assert after[..n] == candles[..n][i := c];
    }
  }

  /** No trade is lost or counted twice: the candles' totals are the page's. */
  lemma {:induction false} CandleTotalsAreExact<P>(points: seq<Point<P>>, every: int, compare: (P, P) -> int)
    requires every > 0
    ensures var cs := Bucketed(points, every, compare);
      TradesIn(cs) == |points| && BaseIn(cs) == BaseOf(points) && QuoteIn(cs) == QuoteOf(points)
    decreases |points|
  {
    hide FloorTo;
    if points != [] {
      var n, before := |points| - 1, Bucketed(points[..|points| - 1], every, compare);
      var p := points[n];
      CandleTotalsAreExact(points[..n], every, compare);
      var i := CandleIndex(before, FloorTo(p.at, every));
      if i < |before| {
        TotalsAfterUpdate(before, i, Extended(before[i], p, compare));
      } else {
        assert (before + [Opened(FloorTo(p.at, every), p)])[..|before|] == before;
      }
    }
  }

  /** What a chart may rely on, for points in time order. */
  ghost predicate IsCandleChart<P>(candles: seq<Candle<P>>, points: seq<Point<P>>, every: int, worth: P -> real)
    requires every > 0
  {
    && StartsAscend(candles)
    && (forall k :: 0 <= k < |candles| ==>
        candles[k].at % every == 0 && Describes(candles[k], InBucket(points, every, candles[k].at), worth))
    && (forall p :: p in points ==> exists k :: 0 <= k < |candles| && candles[k].at <= p.at < candles[k].at + every)
    && TradesIn(candles) == |points| && BaseIn(candles) == BaseOf(points) && QuoteIn(candles) == QuoteOf(points)
  }

  lemma {:induction false} EveryPointIsPlaced<P>(points: seq<Point<P>>, every: int, compare: (P, P) -> int, p: Point<P>)
    requires every > 0 && p in points
    ensures exists k ::
      0 <= k < |Bucketed(points, every, compare)| && Bucketed(points, every, compare)[k].at == FloorTo(p.at, every)
  {
    hide FloorTo, Bucketed;
    var candles, at := Bucketed(points, every, compare), FloorTo(p.at, every);
    var i := CandleIndex(candles, at);
    if i == |candles| {
      UnopenedIsEmpty(points, every, compare, at);
      InBucketAre(points, every, at);
    }
  }

  lemma {:induction false} StartsAreMultiples<P>(points: seq<Point<P>>, every: int, compare: (P, P) -> int, k: nat)
    requires every > 0 && k < |Bucketed(points, every, compare)|
    ensures Bucketed(points, every, compare)[k].at % every == 0
    decreases |points|
  {
    hide FloorTo;
    var n, before := |points| - 1, Bucketed(points[..|points| - 1], every, compare);
    FloorBounds(points[n].at, every);
    if k < |before| { StartsAreMultiples(points[..n], every, compare, k); }
  }

  /**
   * For points in time order the buckets strictly ascend, partition the points, and add up to
   * them; each opens and closes with its earliest and latest point and spans its prices.
   */
  lemma BucketsAreAChart<P>(points: seq<Point<P>>, every: int, compare: (P, P) -> int, worth: P -> real)
    requires every > 0 && TimesAscend(points) && Consistent(points, compare, worth)
    ensures IsCandleChart(SortedByStart(Bucketed(points, every, compare)), points, every, worth)
  {
    hide FloorTo, Describes, Bucketed, Consistent, InBucket, TradesIn, BaseIn, QuoteIn, SortedByStart;
    hide TimesAscend, BaseOf, QuoteOf;
    var cs := Bucketed(points, every, compare);
    BucketsOpenInOrder(points, every, compare);
    SortingSortedIsIdle(cs);
    CandleTotalsAreExact(points, every, compare);
    forall k | 0 <= k < |cs|
      ensures cs[k].at % every == 0 && Describes(cs[k], InBucket(points, every, cs[k].at), worth) {
      StartsAreMultiples(points, every, compare, k);
      CandlesDescribe(points, every, compare, worth, k);
    }
    forall p | p in points ensures exists k :: 0 <= k < |cs| && cs[k].at <= p.at < cs[k].at + every {
      EveryPointIsPlaced(points, every, compare, p);
      FloorBounds(p.at, every);
      var k :| 0 <= k < |cs| && cs[k].at == FloorTo(p.at, every);
    }
  }

  /** A point lies in one candle of a chart only, and low, open, close and high stand in order. */
  lemma ChartFacts<P>(
      candles: seq<Candle<P>>, points: seq<Point<P>>, every: int, worth: P -> real, p: Point<P>, j: nat, k: nat)
    requires every > 0 && IsCandleChart(candles, points, every, worth) && j < |candles| && k < |candles|
    ensures candles[j].at <= p.at < candles[j].at + every && candles[k].at <= p.at < candles[k].at + every ==> j == k
    ensures worth(candles[k].low) <= worth(candles[k].open) <= worth(candles[k].high)
    ensures worth(candles[k].low) <= worth(candles[k].close) <= worth(candles[k].high)
    ensures candles[k].trades >= 1
  {
    hide FloorTo, InBucket, TradesIn, BaseIn, QuoteIn;
    var inside := InBucket(points, every, candles[k].at);
    assert inside[0] in inside && inside[|inside| - 1] in inside;
    if candles[j].at <= p.at < candles[j].at + every && candles[k].at <= p.at < candles[k].at + every {
      OneBucket(p.at, candles[j].at, every);
      OneBucket(p.at, candles[k].at, every);
    }
  }

  /** A bucket opens with its earliest point and closes with its latest. */
  lemma {:induction false} BucketKeepsTimeOrder<P>(points: seq<Point<P>>, every: int, at: int)
    requires every > 0 && TimesAscend(points)
    ensures TimesAscend(InBucket(points, every, at))
    decreases |points|
  {
    hide FloorTo;
    if points != [] {
      var n := |points| - 1;
      var front := InBucket(points[..n], every, at);
      BucketKeepsTimeOrder(points[..n], every, at);
      InBucketAre(points[..n], every, at);
      forall q | q in front ensures q.at <= points[n].at { }
      LaterKeepsTimeOrder(front, points[n]);
    }
  }

  lemma LaterKeepsTimeOrder<P>(points: seq<Point<P>>, p: Point<P>)
    requires TimesAscend(points) && forall q :: q in points ==> q.at <= p.at
    ensures TimesAscend(points + [p])
  {
    assert forall i :: 0 <= i < |points| ==> points[i] in points;
  }
}
