/** The top-up mint arithmetic of packages/kei/src/kei.ts. */
module Kei {
  import opened Texts
  import opened Outcomes
  import opened Decimals
  import opened DecimalText
  import Amount
  import opened Printed

  datatype Rate = Rate(coefficient: nat, decimals: nat)
  datatype RateError = Negative | Malformed

  function ToDecimal(value: Text): Result<Rate, RateError> {
    var text := Trim(value);
    if text != [] && text[0] == MINUS then Err(Negative)
    else
      match Parse(text)
      case None => Err(Malformed)
      case Some(p) =>
        assert AllDigits(p.whole + p.fraction);
        Ok(Rate(Value(p.whole + p.fraction), |p.fraction|))
  }

  /** A rate is refused exactly for a sign in front or for being no decimal. */
  lemma RatesAreReadExactly(text: Text)
    ensures ToDecimal(text) == Err(Negative) <==> Trim(text) != [] && Trim(text)[0] == MINUS
    ensures ToDecimal(text) == Err(Malformed) <==>
      !(Trim(text) != [] && Trim(text)[0] == MINUS) && Parse(Trim(text)).None?
    ensures ToDecimal(text).Ok? ==>
      AllDigits(Parse(Trim(text)).value.whole + Parse(Trim(text)).value.fraction)
      && ToDecimal(text).value
         == Rate(Value(Parse(Trim(text)).value.whole + Parse(Trim(text)).value.fraction),
                 |Parse(Trim(text)).value.fraction|)
  {
    hide Trim, Parse, Value, AllDigits;
    if ToDecimal(text).Ok? { DigitsOfParts(Parse(Trim(text)).value); }
  }

  lemma DigitsOfParts(p: Parts)
    requires WellFormed(p)
    ensures AllDigits(p.whole + p.fraction)
  {}

  function Quotient(a: nat, b: nat): nat
    requires b > 0
  {
    a / b
  }

  function MultiplyFloor(paidRaw: nat, paidDecimals: nat, rate: Rate, decimals: nat): nat {
    var numerator := Times(paidRaw, rate.coefficient);
    var scaleDelta := paidDecimals + rate.decimals - decimals;
    if scaleDelta <= 0 then Times(numerator, Pow10(-scaleDelta))
    else Quotient(numerator, Pow10(scaleDelta))
  }

  /** The mint is the largest whole number of token units the payment covers at the rate. */
  lemma MintIsExactFloor(paidRaw: nat, paidDecimals: nat, rate: Rate, decimals: nat)
    ensures var minted := MultiplyFloor(paidRaw, paidDecimals, rate, decimals);
      Times(minted, Pow10(paidDecimals + rate.decimals))
        <= Times(Times(paidRaw, rate.coefficient), Pow10(decimals))
        < Times(minted + 1, Pow10(paidDecimals + rate.decimals))
  {
    var scaleDelta := paidDecimals + rate.decimals - decimals;
    if scaleDelta <= 0 {
      ExactMint(Times(paidRaw, rate.coefficient), -scaleDelta, paidDecimals + rate.decimals);
    } else {
      Pow10Sum(scaleDelta, decimals);
      FloorTimes(Times(paidRaw, rate.coefficient), Pow10(scaleDelta), Pow10(decimals));
    }
  }

  /**
   * The mint is the floor of the payment times the number the rate's text denotes, however it
   * is written: a mint is this one exactly when it lies under the exact product and one more
   * does not.
   */
  lemma MintIsFloorOfTheWrittenRate(
      paidRaw: nat, paidDecimals: nat, text: Text, num: nat, den: nat, decimals: nat, minted: nat)
    requires ToDecimal(text).Ok? && Means(Trim(text), num, den)
    ensures MultiplyFloor(paidRaw, paidDecimals, ToDecimal(text).value, decimals) == minted <==>
      Times(minted, Times(Pow10(paidDecimals), den))
        <= Times(Times(paidRaw, num), Pow10(decimals))
        < Times(minted + 1, Times(Pow10(paidDecimals), den))
  {
    hide Parse, Trim, Value, AllDigits, Pow10, Times, MultiplyFloor;
    var rate := ToDecimal(text).value;
    var floor := MultiplyFloor(paidRaw, paidDecimals, rate, decimals);
    var places, unit, scale := Pow10(rate.decimals), Pow10(paidDecimals), Pow10(decimals);
    MintIsExactFloor(paidRaw, paidDecimals, rate, decimals);
    Pow10Sum(paidDecimals, rate.decimals);
    RateAsFraction(paidRaw, unit, rate.coefficient, places, num, den, scale, floor);
    RateAsFraction(paidRaw, unit, rate.coefficient, places, num, den, scale, floor + 1);
    PositiveProduct(unit, den);
    OneFloor(Times(Times(paidRaw, num), scale), Times(unit, den), floor, minted);
  }

  /** What lies under a product with `c / f` lies under the product with any equal fraction. */
  lemma RateAsFraction(paid: nat, unit: nat, c: nat, f: nat, num: nat, den: nat, scale: nat, m: nat)
    requires f > 0 && den > 0 && Times(c, den) == Times(num, f)
    ensures Times(m, Times(unit, f)) <= Times(Times(paid, c), scale)
       <==> Times(m, Times(unit, den)) <= Times(Times(paid, num), scale)
  {
    hide Times;
    var below, below' := Times(m, Times(unit, f)), Times(m, Times(unit, den));
    var above, above' := Times(Times(paid, c), scale), Times(Times(paid, num), scale);
    assert Times(below, den) == Times(below', f) by {
      TimesAssociative(m, Times(unit, f), den);
      TimesAssociative(m, Times(unit, den), f);
      TimesSwap(unit, f, den);
    }
    assert Times(above, den) == Times(above', f) by {
      TimesSwap(Times(paid, c), scale, den);
      TimesSwap(Times(paid, num), scale, f);
      TimesAssociative(paid, c, den);
      TimesAssociative(paid, num, f);
    }
    AtMostCancels(below, above, den);
    AtMostCancels(below', above', f);
  }

  lemma AtMostCancels(a: nat, b: nat, f: nat)
    requires f > 0
    ensures Times(a, f) <= Times(b, f) <==> a <= b
  {
    if a > b { assert (b + 1) * f <= a * f; } else { assert a * f <= b * f; }
  }

  lemma PositiveProduct(a: nat, b: nat)
    requires a > 0 && b > 0
    ensures Times(a, b) > 0
  {}

  lemma OneFloor(product: nat, unit: nat, floor: nat, m: nat)
    requires unit > 0 && Times(floor, unit) <= product < Times(floor + 1, unit)
    ensures floor == m <==> Times(m, unit) <= product < Times(m + 1, unit)
  {
    if m < floor { assert (m + 1) * unit <= floor * unit; } else if m > floor { assert (floor + 1) * unit <= m * unit; }
  }

  /** A rate given as a number mints the floor of the payment times that number. */
  lemma MintOfANumberIsExactFloor(paidRaw: nat, paidDecimals: nat, n: Number, decimals: nat, minted: nat)
    requires IsNumber(n)
    ensures n.negative ==> ToDecimal(Expand(Print(n))) == Err(Negative)
    ensures !n.negative ==>
      && ToDecimal(Expand(Print(n))).Ok?
      && (MultiplyFloor(paidRaw, paidDecimals, ToDecimal(Expand(Print(n))).value, decimals) == minted <==>
            Times(minted, Times(Pow10(paidDecimals), Denominator(n)))
              <= Times(Times(paidRaw, Numerator(n)), Pow10(decimals))
              < Times(minted + 1, Times(Pow10(paidDecimals), Denominator(n))))
  {
    hide Trim, Parse, Times, Pow10, Expand, Print, Numerator, Denominator, MultiplyFloor, Value, AllDigits;
    var plain := Expand(Print(n.(negative := false)));
    ExpandKeepsNumber(n);
    ExpandedIsTrim(n);
    if n.negative {
      Amount.TrimSigned(plain);
    } else {
      MintIsFloorOfTheWrittenRate(paidRaw, paidDecimals, plain, Numerator(n), Denominator(n), decimals, minted);
    }
  }

  lemma ExactMint(n: nat, up: nat, places: nat)
    ensures Times(Times(n, Pow10(up)), Pow10(places))
      == Times(n, Pow10(up + places)) < Times(Times(n, Pow10(up)) + 1, Pow10(places))
  {
    Pow10Sum(up, places);
    TimesAssociative(n, Pow10(up), Pow10(places));
  }

  lemma FloorTimes(n: nat, d: nat, s: nat)
    requires d > 0 && s > 0
    ensures Times(n / d, Times(d, s)) <= Times(n, s) < Times(n / d + 1, Times(d, s))
  {
    var q := n / d;
    assert q * d <= n < (q + 1) * d;
    assert (q * d) * s <= n * s < ((q + 1) * d) * s;
    TimesAssociative(q, d, s);
    TimesAssociative(q + 1, d, s);
  }

  lemma FloorOfSum(a: nat, b: nat, d: nat)
    requires d > 0
    ensures a / d + b / d <= (a + b) / d <= a / d + b / d + 1
  {
    var x, y := a / d, b / d;
    var rest := a % d + b % d;
    assert a + b == Times(x + y, d) + rest;
    if rest < d {
      QuotientUnique(a + b, d, x + y, rest);
    } else {
      QuotientUnique(a + b, d, x + y + 1, rest - d);
    }
  }

  lemma QuotientUnique(n: nat, d: nat, q: nat, r: nat)
    requires d > 0 && n == Times(q, d) + r && r < d
    ensures n / d == q
  {
    var p := n / d;
    assert n == p * d + n % d;
    if p > q { SmallerQuotient(q, p, d, r, n % d); } else if p < q { SmallerQuotient(p, q, d, n % d, r); }
  }

  lemma SmallerQuotient(p: nat, q: nat, d: nat, r: nat, s: nat)
    requires p < q && r < d
    ensures p * d + r < q * d + s
  {
    assert (p + 1) * d <= q * d;
  }

  /** Splitting a payment in two never mints more than paying at once, and loses at most one unit. */
  lemma SplitPaymentNeverMintsMore(first: nat, second: nat, paidDecimals: nat, rate: Rate, decimals: nat)
    ensures var apart :=
      MultiplyFloor(first, paidDecimals, rate, decimals) + MultiplyFloor(second, paidDecimals, rate, decimals);
      apart <= MultiplyFloor(first + second, paidDecimals, rate, decimals) <= apart + 1
  {
    var scaleDelta := paidDecimals + rate.decimals - decimals;
    var a, b := Times(first, rate.coefficient), Times(second, rate.coefficient);
    if scaleDelta <= 0 {
    } else {
      FloorOfSum(a, b, Pow10(scaleDelta));
    }
  }

  ghost function TotalMint(payments: seq<nat>, paidDecimals: nat, rate: Rate, decimals: nat): nat {
    if payments == [] then 0
    else
      MultiplyFloor(payments[0], paidDecimals, rate, decimals) + TotalMint(payments[1..], paidDecimals, rate, decimals)
  }

  ghost function TotalPaid(payments: seq<nat>): nat {
    if payments == [] then 0 else payments[0] + TotalPaid(payments[1..])
  }

  /** However a payment is split, the parts never mint more than the whole. */
  lemma {:induction false} SplittingNeverMintsMore(payments: seq<nat>, paidDecimals: nat, rate: Rate, decimals: nat)
    ensures TotalMint(payments, paidDecimals, rate, decimals)
         <= MultiplyFloor(TotalPaid(payments), paidDecimals, rate, decimals)
    decreases |payments|
  {
    if payments != [] {
      SplittingNeverMintsMore(payments[1..], paidDecimals, rate, decimals);
      SplitPaymentNeverMintsMore(payments[0], TotalPaid(payments[1..]), paidDecimals, rate, decimals);
    }
  }
}
