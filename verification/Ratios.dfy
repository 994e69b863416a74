/**
 * Exact prices, against the real numbers they mean.
 *
 * The rationals, their reduction, comparison and arithmetic are those of
 * packages/market/src/stored-history.ts; the cross-multiplied order of a book is that of
 * packages/market/src/book.ts.
 */
module Ratios {
  import opened Outcomes
  import opened Decimals

  datatype Ratio = Ratio(numerator: int, denominator: int)

  datatype RatioError = ZeroDenominator | ZeroOpening

  // ------------------------------------------------------------------ gcd

  function GcdOf(a: nat, b: nat): nat
    decreases b
  {
    if b == 0 then a else GcdOf(b, a % b)
  }

  method Gcd(left: nat, right: nat) returns (a: nat)
    ensures a == GcdOf(left, right)
  {
    a := left;
    var b: nat := right;
    while b != 0
      invariant GcdOf(a, b) == GcdOf(left, right)
      decreases b
    {
      var next := a % b;
      a := b;
      b := next;
    }
  }

  ghost predicate Divides(d: nat, n: nat) { exists k: nat :: n == Times(d, k) }

  lemma DividesBy(d: nat, n: nat, k: nat)
    requires n == Times(d, k)
    ensures Divides(d, n)
  {}

  /** `a = b * (a / b) + a % b`. */
  lemma Quotient(a: nat, b: nat)
    requires b > 0
    ensures a == Times(b, a / b) + a % b
  {}

  lemma TimesAdd(d: nat, k: nat, l: nat)
    ensures Times(d, k + l) == Times(d, k) + Times(d, l)
  {}

  lemma TimesSub(d: nat, k: nat, l: nat)
    requires l <= k
    ensures Times(d, k - l) == Times(d, k) - Times(d, l)
  {}

  /** A divisor of the divisor and the remainder divides the dividend, and the other way round. */
  lemma DividesRemainder(d: nat, a: nat, b: nat)
    requires b > 0 && Divides(d, b)
    ensures Divides(d, a) <==> Divides(d, a % b)
  {
    hide Times;
    var k: nat :| b == Times(d, k);
    var q := a / b;
    Quotient(a, b);
    TimesAssociative(d, k, q);
    if Divides(d, a % b) {
      var r: nat :| a % b == Times(d, r);
      TimesAdd(d, Times(k, q), r);
      DividesBy(d, a, Times(k, q) + r);
    }
    if Divides(d, a) {
      var l: nat :| a == Times(d, l);
      if d > 0 {
        if l < Times(k, q) { TimesMonotone(d, l, Times(k, q)); }
        TimesSub(d, l, Times(k, q));
        DividesBy(d, a % b, l - Times(k, q));
      } else {
        TimesZero(k);
      }
    }
  }

  lemma TimesZero(k: nat)
    ensures Times(0, k) == 0 && Times(k, 0) == 0
  {}

  lemma TimesMonotone(d: nat, k: nat, l: nat)
    requires d > 0 && k < l
    ensures Times(d, k) < Times(d, l)
  {
    assert d * l == d * k + d * (l - k);
    assert d * (l - k) > 0;
  }

  /** The result divides both numbers, and every common divisor divides the result. */
  lemma {:induction false} GcdIsGreatest(a: nat, b: nat, d: nat)
    ensures Divides(GcdOf(a, b), a) && Divides(GcdOf(a, b), b)
    ensures Divides(d, a) && Divides(d, b) ==> Divides(d, GcdOf(a, b))
    decreases b
  {
    hide Divides, Times;
    DividesItself(a);
    if b > 0 {
      GcdIsGreatest(b, a % b, d);
      DividesRemainder(GcdOf(a, b), a, b);
      if Divides(d, b) { DividesRemainder(d, a, b); }
    }
  }

  lemma DividesItself(a: nat)
    ensures Divides(a, a) && Divides(a, 0)
  {
    assert a == Times(a, 1) && 0 == Times(a, 0);
  }

  lemma ScaledRemainder(a: nat, b: nat, k: nat)
    requires b > 0 && k > 0
    ensures Times(b, k) > 0 && Times(a, k) % Times(b, k) == Times(a % b, k)
  {
    var q, r := a / b, a % b;
    assert b * k > 0;
    assert a * k == (b * k) * q + r * k by { assert a == b * q + r; assert (b * q) * k == (b * k) * q; }
    assert 0 <= r * k < b * k by { assert (r + 1) * k <= b * k; }
    UniqueRemainder(a * k, b * k, q, r * k);
  }

  lemma UniqueRemainder(n: nat, m: nat, q: nat, r: nat)
    requires m > 0 && n == m * q + r && r < m
    ensures n % m == r
  {
    var q', r' := n / m, n % m;
    assert n == m * q' + r';
    MulSteps(m, q, q');
    MulSteps(m, q', q);
  }

  lemma MulSteps(m: nat, a: nat, b: nat)
    ensures a < b ==> m * a + m <= m * b
  {
    if a < b { assert m * (a + 1) <= m * b; }
  }

  lemma {:induction false} GcdScales(a: nat, b: nat, k: nat)
    requires k > 0
    ensures GcdOf(Times(a, k), Times(b, k)) == Times(GcdOf(a, b), k)
    decreases b
  {
    hide Times;
    if b == 0 {
      TimesZero(k);
    } else {
      ScaledRemainder(a, b, k);
      GcdScales(b, a % b, k);
    }
  }

  // --------------------------------------------------------------- reduction

  function Abs(n: int): nat { if n < 0 then -n else n }

  predicate Coprime(a: nat, b: nat) { GcdOf(a, b) == 1 }

  lemma GcdIsPositive(a: nat, b: nat)
    requires b > 0
    ensures GcdOf(a, b) > 0
    decreases b
  {}

  /** BigInt division of a signed number by a positive divisor truncates toward zero. */
  function Truncated(n: int, d: nat): int
    requires d > 0
  {
    if n < 0 then -(Abs(n) / d) else n / d
  }

  function Reduce(r: Ratio): Result<Ratio, RatioError> {
    if r.denominator == 0 then Err(ZeroDenominator)
    else
      var sign := if r.denominator < 0 then -1 else 1;
      var numerator, denominator := r.numerator * sign, r.denominator * sign;
      var divisor := GcdOf(Abs(numerator), denominator);
      GcdIsPositive(Abs(numerator), denominator);
      Ok(Ratio(Truncated(numerator, divisor), denominator / divisor))
  }

  /** The real number a ratio means. */
  function ValueOf(r: Ratio): real
    requires r.denominator != 0
  {
    r.numerator as real / r.denominator as real
  }

  lemma ExactQuotient(n: nat, g: nat)
    requires g > 0 && Divides(g, n)
    ensures n == Times(n / g, g)
  {
    var k: nat :| n == Times(g, k);
    assert n == g * k;
    assert n / g == k by { UniqueRemainder(n, g, k, 0); assert n == g * (n / g) + n % g; }
  }

  /** Dividing both numbers by their greatest common divisor leaves coprime numbers. */
  lemma QuotientsAreCoprime(a: nat, b: nat)
    requires b > 0
    ensures var g := GcdOf(a, b);
      g > 0 && a == Times(a / g, g) && b == Times(b / g, g) && Coprime(a / g, b / g) && b / g > 0
  {
    hide Divides, GcdOf;
    var g := GcdOf(a, b);
    GcdIsPositive(a, b);
    GcdIsGreatest(a, b, 1);
    ExactQuotient(a, g);
    ExactQuotient(b, g);
    GcdScales(a / g, b / g, g);
    assert 1 * g == Times(GcdOf(a / g, b / g), g);
    TimesCancels(GcdOf(a / g, b / g), 1, g);
    TimesZero(g);
  }

  /** Reduction keeps the value, and leaves coprime parts over a positive denominator. */
  lemma ReduceIsCanonical(r: Ratio)
    requires r.denominator != 0
    ensures Reduce(r).Ok?
    ensures var c := Reduce(r).value;
      c.denominator > 0 && Coprime(Abs(c.numerator), c.denominator) && ValueOf(c) == ValueOf(r)
  {
    hide GcdOf;
    var sign := if r.denominator < 0 then -1 else 1;
    var n, d := r.numerator * sign, r.denominator * sign;
    var g := GcdOf(Abs(n), d);
    QuotientsAreCoprime(Abs(n), d);
    var c := Reduce(r).value;
    assert Abs(c.numerator) == Abs(n) / g;
  }

  // ------------------------------------------------------------ comparison

  function CompareRatio(left: Ratio, right: Ratio): int {
    var difference := left.numerator * right.denominator - right.numerator * left.denominator;
    if difference == 0 then 0 else if difference < 0 then -1 else 1
  }

  lemma CrossProducts(l: Ratio, r: Ratio)
    requires l.denominator > 0 && r.denominator > 0
    ensures ValueOf(l) < ValueOf(r) <==> l.numerator * r.denominator < r.numerator * l.denominator
    ensures ValueOf(l) == ValueOf(r) <==> l.numerator * r.denominator == r.numerator * l.denominator
  {
    var x, y := ValueOf(l), ValueOf(r);
    var b, d := l.denominator as real, r.denominator as real;
    assert x * b == l.numerator as real && y * d == r.numerator as real;
    assert (l.numerator * r.denominator) as real == l.numerator as real * d;
    assert (r.numerator * l.denominator) as real == r.numerator as real * b;
    assert x * (b * d) == (x * b) * d && y * (b * d) == (y * d) * b;
  }

  /** Over positive denominators the comparison is the order of the values: total, and exact. */
  lemma CompareIsTheOrderOfValues(l: Ratio, r: Ratio)
    requires l.denominator > 0 && r.denominator > 0
    ensures CompareRatio(l, r) < 0 <==> ValueOf(l) < ValueOf(r)
    ensures CompareRatio(l, r) == 0 <==> ValueOf(l) == ValueOf(r)
    ensures CompareRatio(l, r) > 0 <==> ValueOf(l) > ValueOf(r)
    ensures CompareRatio(r, l) == -CompareRatio(l, r)
  {
    hide ValueOf;
    CrossProducts(l, r);
    CrossProducts(r, l);
  }

  lemma CompareIsTransitive(a: Ratio, b: Ratio, c: Ratio)
    requires a.denominator > 0 && b.denominator > 0 && c.denominator > 0
    requires CompareRatio(a, b) <= 0 && CompareRatio(b, c) <= 0
    ensures CompareRatio(a, c) <= 0
    ensures CompareRatio(a, b) < 0 || CompareRatio(b, c) < 0 ==> CompareRatio(a, c) < 0
  {
    hide ValueOf, CompareRatio;
    CompareIsTheOrderOfValues(a, b);
    CompareIsTheOrderOfValues(b, c);
    CompareIsTheOrderOfValues(a, c);
  }

  /** Coprime parts in proportion are equal parts. */
  lemma CoprimeInProportion(a: nat, b: nat, c: nat, d: nat)
    requires b > 0 && d > 0 && Coprime(a, b) && Coprime(c, d) && Times(a, d) == Times(c, b)
    ensures a == c && b == d
  {
    hide GcdOf, Divides, Times;
    DenominatorDivides(a, b, c, d);
    DenominatorDivides(c, d, a, b);
    DividesBothWays(b, d);
    TimesCancels(a, c, b);
  }

  lemma DenominatorDivides(a: nat, b: nat, c: nat, d: nat)
    requires b > 0 && d > 0 && Coprime(a, b) && Times(a, d) == Times(c, b)
    ensures Divides(b, d)
  {
    hide GcdOf, Divides, Times;
    GcdScales(a, b, d);
    TimesCommutes(c, b);
    DividesBy(b, Times(a, d), c);
    DividesBy(b, Times(b, d), d);
    GcdIsGreatest(Times(a, d), Times(b, d), b);
    OneTimes(d);
  }

  lemma OneTimes(d: nat)
    ensures Times(1, d) == d
  {}

  lemma DividesBothWays(b: nat, d: nat)
    requires b > 0 && d > 0 && Divides(b, d) && Divides(d, b)
    ensures b == d
  {
  }

  /** Two ratios compare equal exactly when they reduce to the same ratio. */
  lemma EqualExactlyWhenReducedAlike(l: Ratio, r: Ratio)
    requires l.denominator > 0 && r.denominator > 0
    ensures CompareRatio(l, r) == 0 <==> Reduce(l) == Reduce(r)
  {
    hide Coprime, ValueOf, Reduce, CompareRatio;
    ReduceIsCanonical(l);
    ReduceIsCanonical(r);
    CompareIsTheOrderOfValues(l, r);
    var x, y := Reduce(l).value, Reduce(r).value;
    if ValueOf(l) == ValueOf(r) {
      CrossProducts(x, y);
      CanonicalsAreEqual(x, y);
    }
  }

  lemma CanonicalsAreEqual(x: Ratio, y: Ratio)
    requires x.denominator > 0 && y.denominator > 0
    requires Coprime(Abs(x.numerator), x.denominator) && Coprime(Abs(y.numerator), y.denominator)
    requires x.numerator * y.denominator == y.numerator * x.denominator
    ensures x == y
  {
    hide Coprime;
    CoprimeInProportion(Abs(x.numerator), x.denominator, Abs(y.numerator), y.denominator);
  }

  /** A reduced ratio reduces to itself, so a price may be reduced again for showing. */
  lemma ReducingAgainChangesNothing(r: Ratio)
    requires r.denominator != 0
    ensures Reduce(r).Ok? && Reduce(r).value.denominator > 0 && Reduce(Reduce(r).value) == Reduce(r)
  {
    hide Coprime, Reduce, CompareRatio, ValueOf;
    ReduceIsCanonical(r);
    var c := Reduce(r).value;
    ReduceIsCanonical(c);
    var d := Reduce(c).value;
    CompareIsTheOrderOfValues(c, d);
    CrossProducts(c, d);
    CanonicalsAreEqual(c, d);
  }

  // ------------------------------------------------------------- arithmetic

  function SubtractRatio(left: Ratio, right: Ratio): Ratio {
    Ratio(left.numerator * right.denominator - right.numerator * left.denominator, left.denominator * right.denominator)
  }

  function DivideRatio(left: Ratio, right: Ratio): Result<Ratio, RatioError> {
    if right.numerator == 0 then Err(ZeroOpening)
    else Ok(Ratio(left.numerator * right.denominator, left.denominator * right.numerator))
  }

  function MedianRatio(sorted: seq<Ratio>): Ratio
    requires sorted != []
  {
    var middle := |sorted| / 2;
    if |sorted| % 2 == 1 then sorted[middle]
    else
      var low, high := sorted[middle - 1], sorted[middle];
      Ratio(low.numerator * high.denominator + high.numerator * low.denominator, 2 * low.denominator * high.denominator)
  }

  lemma ProductIsNonzero(b: int, d: int)
    requires b != 0 && d != 0
    ensures b * d != 0
    ensures b > 0 && d > 0 ==> b * d > 0
  {}

  /** If `v * d == n` in reals, `n / d` is `v`. */
  lemma QuotientIs(n: int, d: int, v: real)
    requires d != 0 && v * d as real == n as real
    ensures n as real / d as real == v
  {}

  lemma PartsOf(r: Ratio)
    requires r.denominator != 0
    ensures ValueOf(r) * r.denominator as real == r.numerator as real
  {}

  lemma RealOfProduct(a: int, b: int)
    ensures (a * b) as real == a as real * b as real
  {}

  /** Subtraction, division and the midpoint mean what they say. */
  lemma ArithmeticIsExact(l: Ratio, r: Ratio)
    requires l.denominator != 0 && r.denominator != 0
    ensures SubtractRatio(l, r).denominator != 0 && ValueOf(SubtractRatio(l, r)) == ValueOf(l) - ValueOf(r)
  {
    hide ValueOf;
    var a, b, c, d := l.numerator, l.denominator, r.numerator, r.denominator;
    var x, y := ValueOf(l), ValueOf(r);
    PartsOf(l);
    PartsOf(r);
    ProductIsNonzero(b, d);
    RealOfProduct(a, d);
    RealOfProduct(c, b);
    RealOfProduct(b, d);
    assert (x - y) * (b as real * d as real) == (x * b as real) * d as real - (y * d as real) * b as real;
    ValueIs(SubtractRatio(l, r), x - y);
  }

  lemma ValueIs(r: Ratio, v: real)
    requires r.denominator != 0 && v * r.denominator as real == r.numerator as real
    ensures ValueOf(r) == v
  {
    QuotientIs(r.numerator, r.denominator, v);
  }

  lemma DivisionIsExact(l: Ratio, r: Ratio)
    requires l.denominator != 0 && r.denominator != 0
    ensures DivideRatio(l, r) == Err(ZeroOpening) <==> ValueOf(r) == 0.0
    ensures DivideRatio(l, r).Ok? ==>
      DivideRatio(l, r).value.denominator != 0 && ValueOf(DivideRatio(l, r).value) * ValueOf(r) == ValueOf(l)
  {
    hide ValueOf;
    var a, b, c, d := l.numerator, l.denominator, r.numerator, r.denominator;
    var x, y := ValueOf(l), ValueOf(r);
    PartsOf(l);
    PartsOf(r);
    if c == 0 {
      ValueIs(r, 0.0);
    } else {
      ProductIsNonzero(b, c);
      RealOfProduct(a, d);
      RealOfProduct(b, c);
      assert y != 0.0;
      var q := x / y;
      assert q * y == x;
      assert q * (b as real * c as real) == ((q * y) * b as real) * d as real;
      ValueIs(DivideRatio(l, r).value, q);
    }
  }

  /** First plus change is last, and the change ratio times first is the change. */
  lemma SummaryChangesAddUp(first: Ratio, last: Ratio)
    requires first.denominator > 0 && last.denominator > 0 && first.numerator != 0
    ensures var change := SubtractRatio(last, first);
      && change.denominator != 0 && ValueOf(first) + ValueOf(change) == ValueOf(last)
      && DivideRatio(change, first).Ok? && DivideRatio(change, first).value.denominator != 0
      && ValueOf(DivideRatio(change, first).value) * ValueOf(first) == ValueOf(change)
  {
    hide ValueOf, SubtractRatio;
    ArithmeticIsExact(last, first);
    DivisionIsExact(SubtractRatio(last, first), first);
  }

  ghost predicate Ascending(sorted: seq<Ratio>) {
    && (forall r :: r in sorted ==> r.denominator > 0)
    && (forall i, j :: 0 <= i < j < |sorted| ==> CompareRatio(sorted[i], sorted[j]) <= 0)
  }

  /** The median lies between the lowest and the highest price: the middle one, or halfway between the two. */
  lemma MedianIsInTheMiddle(sorted: seq<Ratio>)
    requires sorted != [] && Ascending(sorted)
    ensures var m, n := MedianRatio(sorted), |sorted|;
      && m.denominator > 0
      && ValueOf(sorted[0]) <= ValueOf(m) <= ValueOf(sorted[n - 1])
      && (if n % 2 == 1 then m == sorted[n / 2]
          else ValueOf(m) + ValueOf(m) == ValueOf(sorted[n / 2 - 1]) + ValueOf(sorted[n / 2]))
  {
    hide ValueOf, CompareRatio;
    var n := |sorted|;
    assert forall i :: 0 <= i < n ==> sorted[i] in sorted && sorted[i].denominator > 0;
    AscendingValues(sorted, 0, n / 2);
    AscendingValues(sorted, n / 2, n - 1);
    if n % 2 == 0 {
      AscendingValues(sorted, 0, n / 2 - 1);
      AscendingValues(sorted, n / 2 - 1, n / 2);
      MidpointIsExact(sorted[n / 2 - 1], sorted[n / 2]);
    }
  }

  lemma AscendingValues(sorted: seq<Ratio>, i: nat, j: nat)
    requires Ascending(sorted) && i <= j < |sorted|
    ensures sorted[i].denominator > 0 && sorted[j].denominator > 0 && ValueOf(sorted[i]) <= ValueOf(sorted[j])
  {
    hide ValueOf, CompareRatio;
    assert sorted[i] in sorted && sorted[j] in sorted;
    CompareIsTheOrderOfValues(sorted[i], sorted[j]);
  }

  lemma MidpointIsExact(low: Ratio, high: Ratio)
    requires low.denominator > 0 && high.denominator > 0
    ensures var m := Ratio(low.numerator * high.denominator + high.numerator * low.denominator,
                           2 * low.denominator * high.denominator);
      m.denominator > 0 && ValueOf(m) + ValueOf(m) == ValueOf(low) + ValueOf(high)
  {
    hide ValueOf;
    var a, b, c, d := low.numerator, low.denominator, high.numerator, high.denominator;
    var x, y := ValueOf(low), ValueOf(high);
    PartsOf(low);
    PartsOf(high);
    ProductIsNonzero(b, d);
    RealOfProduct(a, d);
    RealOfProduct(c, b);
    RealOfProduct(b, d);
    assert 2 * b * d == 2 * (b * d);
    assert (x + y) * (b as real * d as real) == (x * b as real) * d as real + (y * d as real) * b as real;
    ValueIs(Ratio(a * d + c * b, 2 * b * d), (x + y) / 2.0);
  }

  // --------------------------------------------------------------- the book

  /** Exact quote-per-base terms of an offer. */
  datatype Terms = Terms(quoteRaw: nat, baseRaw: nat, quoteDecimals: nat, baseDecimals: nat)

  function Scaled(t: Terms): Ratio {
    Ratio(t.quoteRaw * Pow10(t.baseDecimals), t.baseRaw * Pow10(t.quoteDecimals))
  }

  /** A price per unit, as stored history shows it. */
  function UnitPriceOf(t: Terms): Result<Ratio, RatioError> { Reduce(Scaled(t)) }

  function ScaleBookPrice(t: Terms): Ratio { if t.baseRaw == 0 then Ratio(0, 1) else Scaled(t) }

  function CompareScaledBookPrices(a: Ratio, b: Ratio): int {
    var left, right := a.numerator * b.denominator, b.numerator * a.denominator;
    if left < right then -1 else if left > right then 1 else 0
  }

  /** The book ranks two offers as their unit prices compare; only a zero base has no unit price. */
  lemma BookOrderIsUnitPriceOrder(a: Terms, b: Terms)
    ensures UnitPriceOf(a) == Err(ZeroDenominator) <==> a.baseRaw == 0
    ensures UnitPriceOf(a).Ok? && UnitPriceOf(b).Ok? ==>
      CompareScaledBookPrices(ScaleBookPrice(a), ScaleBookPrice(b))
          == CompareRatio(UnitPriceOf(a).value, UnitPriceOf(b).value)
  {
    hide Reduce, ValueOf, Pow10, Coprime;
    ScaledDenominator(a);
    ScaledDenominator(b);
    if a.baseRaw == 0 { NothingToReduce(Scaled(a)); } else { ReduceIsCanonical(Scaled(a)); }
    if b.baseRaw == 0 { NothingToReduce(Scaled(b)); } else { ReduceIsCanonical(Scaled(b)); }
    if a.baseRaw != 0 && b.baseRaw != 0 {
      CompareIsTheOrderOfValues(Scaled(a), Scaled(b));
      CompareIsTheOrderOfValues(UnitPriceOf(a).value, UnitPriceOf(b).value);
      ScaledCompare(Scaled(a), Scaled(b));
    }
  }

  /** What a price is worth: quote units over base units, and nothing where no base is offered. */
  ghost function WorthOf(t: Terms): real {
    if t.baseRaw == 0 then 0.0
    else (t.quoteRaw as real / Pow10(t.quoteDecimals) as real) / (t.baseRaw as real / Pow10(t.baseDecimals) as real)
  }

  lemma ScaledIsWorth(t: Terms)
    requires t.baseRaw > 0
    ensures Scaled(t).denominator > 0 && ValueOf(Scaled(t)) == WorthOf(t)
  {
    ScaledDenominator(t);
    QuotientOfQuotients(t.quoteRaw as real, Pow10(t.quoteDecimals) as real, t.baseRaw as real,
        Pow10(t.baseDecimals) as real);
  }

  lemma QuotientOfQuotients(a: real, b: real, c: real, d: real)
    requires b > 0.0 && c > 0.0 && d > 0.0
    ensures c * b != 0.0 && c / d != 0.0 && (a / b) / (c / d) == (a * d) / (c * b)
  {
    var x, y := a / b, c / d;
    assert a == x * b && c == y * d;
    PositiveQuotient(c, d);
    assert c * b > 0.0;
    var q := x / y;
    assert x == q * y;
    assert a * d == q * y * b * d;
    assert c * b == y * d * b;
    assert a * d == q * (c * b);
    SolveQuotient(a * d, c * b, q);
  }

  lemma PositiveQuotient(c: real, d: real)
    requires c > 0.0 && d > 0.0
    ensures c / d > 0.0
  {}

  lemma SolveQuotient(n: real, d: real, q: real)
    requires d != 0.0 && n == q * d
    ensures n / d == q
  {}

  /** A unit price is what its terms are worth. */
  lemma UnitPriceIsQuotePerBase(t: Terms)
    requires t.baseRaw > 0
    ensures UnitPriceOf(t).Ok? && UnitPriceOf(t).value.denominator > 0 && ValueOf(UnitPriceOf(t).value) == WorthOf(t)
  {
    hide ValueOf, Reduce, WorthOf, Scaled;
    ScaledIsWorth(t);
    ReduceIsCanonical(Scaled(t));
  }

  /** The book ranks offers by what their prices are worth, offers of no base as worth nothing. */
  lemma BookOrderIsTheOrderOfWorth(a: Terms, b: Terms)
    ensures var c := CompareScaledBookPrices(ScaleBookPrice(a), ScaleBookPrice(b));
      && (c < 0 <==> WorthOf(a) < WorthOf(b)) && (c > 0 <==> WorthOf(a) > WorthOf(b))
  {
    hide ValueOf, WorthOf, Scaled, CompareRatio;
    ScaledPriceIsWorth(a);
    ScaledPriceIsWorth(b);
    ScaledCompare(ScaleBookPrice(a), ScaleBookPrice(b));
    CompareIsTheOrderOfValues(ScaleBookPrice(a), ScaleBookPrice(b));
  }

  lemma ScaledPriceIsWorth(t: Terms)
    ensures ScaleBookPrice(t).denominator > 0 && ValueOf(ScaleBookPrice(t)) == WorthOf(t)
  {
    if t.baseRaw > 0 {
      hide ValueOf, WorthOf, Scaled;
      ScaledIsWorth(t);
    }
  }

  lemma ScaledCompare(a: Ratio, b: Ratio)
    ensures CompareScaledBookPrices(a, b) == CompareRatio(a, b)
  {}

  lemma ScaledDenominator(t: Terms)
    ensures Scaled(t).denominator >= 0 && (Scaled(t).denominator == 0 <==> t.baseRaw == 0)
  {
    if t.baseRaw > 0 { assert t.baseRaw * Pow10(t.quoteDecimals) >= 1; }
  }

  lemma NothingToReduce(r: Ratio)
    requires r.denominator == 0
    ensures Reduce(r) == Err(ZeroDenominator)
  {}

  datatype Level = Level(exact: Ratio, hash: string)

  /** `compareRankedLevels`, over whatever order `localeCompare` gives the hashes. */
  function CompareRankedLevels(a: Level, b: Level, ascending: bool, localeCompare: (string, string) -> int): int {
    var price := CompareScaledBookPrices(a.exact, b.exact);
    var ranked := if ascending then price else -price;
    if ranked != 0 then ranked else localeCompare(a.hash, b.hash)
  }

  /** Asks rank cheapest first, bids dearest first, and only equal prices are left to the hashes. */
  lemma LevelsRankByPrice(a: Level, b: Level, ascending: bool, localeCompare: (string, string) -> int)
    requires a.exact.denominator > 0 && b.exact.denominator > 0
    ensures var c := CompareRankedLevels(a, b, ascending, localeCompare);
      && (ValueOf(a.exact) < ValueOf(b.exact) ==> if ascending then c < 0 else c > 0)
      && (ValueOf(a.exact) > ValueOf(b.exact) ==> if ascending then c > 0 else c < 0)
      && (ValueOf(a.exact) == ValueOf(b.exact) ==> c == localeCompare(a.hash, b.hash))
  {
    hide ValueOf;
    ScaledCompare(a.exact, b.exact);
    CompareIsTheOrderOfValues(a.exact, b.exact);
  }
}
