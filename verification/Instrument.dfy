/** The exact product of packages/market/src/instrument.ts. */
module Instrument {
  import opened Texts
  import opened Outcomes
  import opened Decimals
  import opened DecimalText

  const MAX_RAW_AMOUNT: nat := 0x1_0000_0000_0000_0000_0000_0000_0000_0000 - 1
  const MAX_RAW_DIGITS: nat := 39
  const MAX_ASSET_DECIMALS: nat := 18

  datatype Scaled = Scaled(digits: nat, scale: nat)
  datatype ProductError = TooLong | Malformed | TooManyPlaces | TooManyDigits | NotPositive | TooLarge

  /** `text.replace(/^0+/, '')`. */
  function StripLeadingZeros(t: Text): Text {
    if t != [] && t[0] == ZERO then StripLeadingZeros(t[1..]) else t
  }

  function DecimalParts(input: Text): (r: Result<Scaled, ProductError>)
    ensures r.Ok? ==> r.value.digits > 0 && r.value.scale <= MAX_ASSET_DECIMALS
  {
    var text := Trim(input);
    if |text| > MAX_RAW_DIGITS + MAX_ASSET_DECIMALS + 2 then Err(TooLong)
    else
      match Parse(text)
      case None => Err(Malformed)
      case Some(p) =>
        if |p.fraction| > MAX_ASSET_DECIMALS then Err(TooManyPlaces)
        else if |StripLeadingZeros(p.whole + p.fraction)| > MAX_RAW_DIGITS then Err(TooManyDigits)
        else
          assert AllDigits(p.whole + p.fraction);
          var digits := Value(p.whole + p.fraction);
          if digits <= 0 then Err(NotPositive) else Ok(Scaled(digits, |p.fraction|))
  }

  function DecimalProduct(units: Text, unitPrice: Text): Result<Text, ProductError> {
    var left := DecimalParts(units);
    if left.Err? then Err(left.error)
    else
      var right := DecimalParts(unitPrice);
      if right.Err? then Err(right.error)
      else
        var digits := left.value.digits * right.value.digits;
        if digits <= 0 then Err(NotPositive)
        else if digits > MAX_RAW_AMOUNT then Err(TooLarge)
        else
          var scale := left.value.scale + right.value.scale;
          var padded := PadStart(Digits(digits), scale + 1);
          if scale == 0 then Ok(padded)
          else Ok(Render(padded[..|padded| - scale], TrimZeros(padded[|padded| - scale..])))
  }

  lemma {:induction false} StrippedValue(t: Text)
    requires AllDigits(t)
    ensures var s := StripLeadingZeros(t);
      AllDigits(s) && |s| <= |t| && Value(s) == Value(t) && (s != [] ==> s[0] != ZERO)
    decreases |t|
  {
    if t != [] && t[0] == ZERO {
      StrippedValue(t[1..]);
      assert t == [ZERO] + t[1..];
      ValueAppend([ZERO], t[1..]);
    }
  }

  /** Digits without a leading zero are at most `n` exactly when their number is below `10^n`. */
  lemma SignificantDigits(s: Text, n: nat)
    requires AllDigits(s) && (s != [] ==> s[0] != ZERO)
    ensures |s| <= n <==> Value(s) < Pow10(n)
  {
    hide Value, Pow10;
    ValueBound(s);
    if |s| <= n {
      Pow10Grows(|s|, n);
    } else {
      LeadingDigitCounts(s);
      Pow10Grows(n, |s| - 1);
    }
  }

  lemma Pow10Grows(a: nat, b: nat)
    requires a <= b
    ensures Pow10(a) <= Pow10(b)
  {
    Pow10Sum(a, b - a);
    assert Pow10(a) * Pow10(b - a) >= Pow10(a) * 1;
  }

  lemma {:induction false} LeadingDigitCounts(s: Text)
    requires AllDigits(s) && s != [] && s[0] != ZERO
    ensures Value(s) >= Pow10(|s| - 1)
    decreases |s|
  {
    if |s| > 1 { LeadingDigitCounts(s[..|s| - 1]); }
  }

  /**
   * A factor is accepted exactly when it is a positive decimal of at most 39 significant digits
   * and 18 places, written in at most 59 characters; then it is its digits over its places.
   */
  lemma PartsAreExact(input: Text, digits: nat, scale: nat)
    ensures DecimalParts(input) == Ok(Scaled(digits, scale)) <==>
      && |Trim(input)| <= 59 && Parse(Trim(input)).Some? && scale <= 18 && 0 < digits < Pow10(39)
      && var p := Parse(Trim(input)).value;
      AllDigits(p.whole + p.fraction) && |p.fraction| == scale && Value(p.whole + p.fraction) == digits
  {
    hide Trim, Parse, Value, Pow10, StripLeadingZeros, AllDigits;
    if Parse(Trim(input)).Some? {
      var p := Parse(Trim(input)).value;
      var all := p.whole + p.fraction;
      assert AllDigits(all) by { BothDigits(p.whole, p.fraction); }
      StrippedValue(all);
      SignificantDigits(StripLeadingZeros(all), 39);
    }
  }

  lemma BothDigits(a: Text, b: Text)
    requires AllDigits(a) && AllDigits(b)
    ensures AllDigits(a + b)
  {}

  /** A product is refused exactly when a factor is, or when it is past the ledger's 128 bits. */
  lemma ProductIsRefusedExactly(units: Text, unitPrice: Text)
    ensures DecimalProduct(units, unitPrice).Ok? <==>
      && DecimalParts(units).Ok? && DecimalParts(unitPrice).Ok?
      && DecimalParts(units).value.digits * DecimalParts(unitPrice).value.digits
           < 0x1_0000_0000_0000_0000_0000_0000_0000_0000
  {
    hide DecimalParts, PadStart, Digits, Render, TrimZeros;
  }

  /**
   * The product text denotes exactly units times unit price, and is spelled one
   * way: no trailing fraction zero, no leading zero except a lone one.
   */
  lemma ProductIsExact(units: Text, unitPrice: Text)
    requires DecimalProduct(units, unitPrice).Ok?
    ensures var l, r := DecimalParts(units).value, DecimalParts(unitPrice).value;
      var parsed := Parse(DecimalProduct(units, unitPrice).value);
      && parsed.Some?
      && SameNumber(Value(parsed.value.whole + parsed.value.fraction), |parsed.value.fraction|,
                    l.digits * r.digits, l.scale + r.scale)
      && (parsed.value.fraction != [] ==> parsed.value.fraction[|parsed.value.fraction| - 1] != ZERO)
      && (|parsed.value.whole| > 1 ==> parsed.value.whole[0] != ZERO)
  {
    hide DecimalParts, Parse, Render, Digits, PadStart, TrimZeros, Value, AllDigits, SameNumber;
    var l, r := DecimalParts(units).value, DecimalParts(unitPrice).value;
    ScaledText(l.digits * r.digits, l.scale + r.scale);
  }

  function PointAt(digits: nat, scale: nat): Parts {
    var padded := PadStart(Digits(digits), scale + 1);
    Parts(padded[..|padded| - scale], TrimZeros(padded[|padded| - scale..]))
  }

  /** Digits with the point put `scale` places from the right, trailing zeros dropped. */
  lemma ScaledText(digits: nat, scale: nat)
    ensures var padded := PadStart(Digits(digits), scale + 1);
      var p := PointAt(digits, scale);
      && (scale == 0 ==> Render(p.whole, p.fraction) == padded)
      && Parse(Render(p.whole, p.fraction)) == Some(p)
      && WellFormed(p) && AllDigits(p.whole + p.fraction)
      && SameNumber(Value(p.whole + p.fraction), |p.fraction|, digits, scale)
      && (p.fraction != [] ==> p.fraction[|p.fraction| - 1] != ZERO)
      && (|p.whole| > 1 ==> p.whole[0] != ZERO)
  {
    var padded := PadStart(Digits(digits), scale + 1);
    PaddedDigits(digits, scale);
    var whole, tail := padded[..|padded| - scale], padded[|padded| - scale..];
    PointedValue(whole, tail);
    ParseRender(whole, TrimZeros(tail));
  }

  lemma PaddedDigits(digits: nat, scale: nat)
    ensures var padded := PadStart(Digits(digits), scale + 1);
      && AllDigits(padded) && |padded| > scale
      && padded[..|padded| - scale] + padded[|padded| - scale..] == padded
      && AllDigits(padded[..|padded| - scale]) && AllDigits(padded[|padded| - scale..])
      && Value(padded) == digits
      && (|padded| > scale + 1 ==> padded[0] != ZERO)
  {
    hide Digits, Value;
    PadStartValue(Digits(digits), scale + 1);
    DigitsRoundTrip(digits);
  }

  lemma PointedValue(whole: Text, tail: Text)
    requires AllDigits(whole) && AllDigits(tail)
    ensures AllDigits(TrimZeros(tail)) && AllDigits(whole + TrimZeros(tail)) && AllDigits(whole + tail)
    ensures SameNumber(Value(whole + TrimZeros(tail)), |TrimZeros(tail)|, Value(whole + tail), |tail|)
  {
    TrimmedValue(whole, tail);
    var r := TrimZeros(tail);
    PointShift(Value(whole + r), |r|, |tail| - |r|);
  }

  lemma PointShift(v: nat, places: nat, z: nat)
    ensures SameNumber(v, places, Times(v, Pow10(z)), places + z)
  {
    Pow10Sum(z, places);
    TimesAssociative(v, Pow10(z), Pow10(places));
    TimesCommutes(Pow10(z), Pow10(places));
  }
}
