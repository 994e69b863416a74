/** packages/core/src/amount.ts */
module Amount {
  import opened Texts
  import opened Outcomes
  import opened Decimals
  import opened DecimalText

  datatype AmountError = Negative | Malformed | TooPrecise

  function ToRaw(amount: Text, decimals: nat): Result<nat, AmountError> {
    var text := Trim(amount);
    if text != [] && text[0] == MINUS then Err(Negative)
    else
      match Parse(text)
      case None => Err(Malformed)
      case Some(p) =>
        if |TrimZeros(p.fraction)| > decimals then Err(TooPrecise)
        else
          var padded := (p.fraction + Zeros(decimals))[..decimals];
          assert AllDigits(p.whole + padded);
          Ok(Value(p.whole + padded))
  }

  function FormatRaw(raw: int, decimals: nat): Text {
    var magnitude: nat := if raw < 0 then -raw else raw;
    var digits := PadStart(Digits(magnitude), decimals + 1);
    var whole := digits[..|digits| - decimals];
    var fraction := TrimZeros(digits[|digits| - decimals..]);
    (if raw < 0 then [MINUS] else []) + Render(whole, fraction)
  }

  lemma PaddedDigits(fraction: Text, decimals: nat)
    requires |TrimZeros(fraction)| <= decimals
    ensures (fraction + Zeros(decimals))[..decimals] == TrimZeros(fraction) + Zeros(decimals - |TrimZeros(fraction)|)
  {
    var r := TrimZeros(fraction);
    var t := fraction + Zeros(decimals);
    assert fraction == r + Zeros(|fraction| - |r|);
    forall i | 0 <= i < decimals ensures t[i] == (r + Zeros(decimals - |r|))[i] {
      if |r| <= i < |fraction| { assert fraction[i] == Zeros(|fraction| - |r|)[i - |r|]; }
    }
  }

  lemma PaddedValue(p: Parts, decimals: nat)
    requires WellFormed(p) && |TrimZeros(p.fraction)| <= decimals
    ensures AllDigits(p.whole + (p.fraction + Zeros(decimals))[..decimals])
    ensures AllDigits(p.whole + TrimZeros(p.fraction))
    ensures Value(p.whole + (p.fraction + Zeros(decimals))[..decimals])
         == Times(Value(p.whole + TrimZeros(p.fraction)), Pow10(decimals - |TrimZeros(p.fraction)|))
  {
    var r := TrimZeros(p.fraction);
    var z := decimals - |r|;
    TrimmedValue(p.whole, p.fraction);
    PaddedDigits(p.fraction, decimals);
    assert p.whole + (r + Zeros(z)) == (p.whole + r) + Zeros(z);
    ValueAppend(p.whole + r, Zeros(z));
    ValueZeros(z);
  }

  /**
   * A well-formed text converts to `raw` exactly when its value is `raw / 10^decimals`,
   * and is refused as too precise exactly when no whole number of raw units is that value.
   */
  lemma ToRawIsExact(amount: Text, decimals: nat, p: Parts, raw: nat)
    requires Trim(amount) != [] && Trim(amount)[0] != MINUS && Parse(Trim(amount)) == Some(p)
    ensures ToRaw(amount, decimals) == Ok(raw)
        <==> SameNumber(raw, decimals, Value(p.whole + p.fraction), |p.fraction|)
    ensures ToRaw(amount, decimals) == Err(TooPrecise)
        <==> forall n: nat :: !SameNumber(n, decimals, Value(p.whole + p.fraction), |p.fraction|)
  {
    hide Pow10, Times, TrimZeros, Parse, Trim;
    var r := TrimZeros(p.fraction);
    TrimmedValue(p.whole, p.fraction);
    if |r| <= decimals {
      PaddedValue(p, decimals);
      ScaledExactly(Value(p.whole + r), |r|, |p.fraction| - |r|, decimals);
      var exact := Times(Value(p.whole + r), Pow10(decimals - |r|));
      assert SameNumber(exact, decimals, Value(p.whole + p.fraction), |p.fraction|);
      TimesCancels(raw, exact, Pow10(|p.fraction|));
    } else {
      forall n: nat ensures !SameNumber(n, decimals, Value(p.whole + p.fraction), |p.fraction|) {
        NeverScales(n, Value(p.whole + r), |r|, |p.fraction| - |r|, decimals);
      }
    }
  }

  lemma ScaledExactly(t: nat, r: nat, z: nat, decimals: nat)
    requires r <= decimals
    ensures SameNumber(Times(t, Pow10(decimals - r)), decimals, Times(t, Pow10(z)), r + z)
  {
    Pow10Sum(decimals - r, r);
    Pow10Sum(r, z);
    TimesAssociative(Times(t, Pow10(decimals - r)), Pow10(r), Pow10(z));
    TimesAssociative(t, Pow10(decimals - r), Pow10(r));
    TimesSwap(t, Pow10(decimals), Pow10(z));
  }

  lemma NeverScales(n: nat, t: nat, r: nat, z: nat, decimals: nat)
    requires r > decimals && t % 10 != 0
    ensures !SameNumber(n, decimals, Times(t, Pow10(z)), r + z)
  {
    var k := r - decimals;
    Pow10Sum(k, decimals);
    Pow10Sum(r, z);
    MultipleOfTen(n, k);
    TimesAssociative(n, Pow10(r), Pow10(z));
    TimesAssociative(n, Pow10(k), Pow10(decimals));
    TimesSwap(Times(n, Pow10(k)), Pow10(decimals), Pow10(z));
    TimesCancels(Times(n, Pow10(k)), t, Pow10(z));
    TimesCancels(Times(Times(n, Pow10(k)), Pow10(z)), Times(t, Pow10(z)), Pow10(decimals));
  }

  lemma MultipleOfTen(n: nat, k: nat)
    requires k >= 1
    ensures Times(n, Pow10(k)) % 10 == 0
  {
    assert n * Pow10(k) == 10 * (n * Pow10(k - 1));
  }

  /** Formatting raw units and reading them back loses nothing; a negative amount is refused. */
  lemma FormatRoundTrip(raw: int, decimals: nat)
    ensures raw >= 0 ==> ToRaw(FormatRaw(raw, decimals), decimals) == Ok(raw)
    ensures raw < 0 ==> ToRaw(FormatRaw(raw, decimals), decimals) == Err(Negative)
  {
    hide Parse, Digits, Value, TrimZeros, Render;
    var magnitude: nat := if raw < 0 then -raw else raw;
    Formatted(magnitude, decimals);
    if raw < 0 {
      TrimSigned(Unsigned(magnitude, decimals));
    } else {
      assert FormatRaw(raw, decimals) == Unsigned(magnitude, decimals);
    }
  }

  /** A text that is not well formed is refused for its sign or its shape. */
  lemma ToRawRefusesExactly(amount: Text, decimals: nat)
    ensures ToRaw(amount, decimals) == Err(Negative) <==> Trim(amount) != [] && Trim(amount)[0] == MINUS
    ensures ToRaw(amount, decimals) == Err(Malformed) <==>
      !(Trim(amount) != [] && Trim(amount)[0] == MINUS) && Parse(Trim(amount)).None?
  {
    hide Trim, Parse, TrimZeros, Value;
  }

  /** Raw units are spelled one way: no trailing fraction zero, no leading zero but a lone one. */
  lemma FormatIsCanonical(raw: nat, decimals: nat) returns (whole: Text, fraction: Text)
    ensures FormatRaw(raw, decimals) == Render(whole, fraction)
    ensures whole != [] && AllDigits(whole) && AllDigits(fraction) && |fraction| <= decimals
    ensures fraction != [] ==> fraction[|fraction| - 1] != ZERO
    ensures |whole| > 1 ==> whole[0] != ZERO
  {
    hide Digits, Value, Render, TrimZeros;
    var digits := PadStart(Digits(raw), decimals + 1);
    PaddedMagnitude(raw, decimals);
    DigitsRoundTrip(raw);
    whole, fraction := digits[..|digits| - decimals], TrimZeros(digits[|digits| - decimals..]);
    TrimmedDigits(digits[|digits| - decimals..]);
    assert [] + Render(whole, fraction) == Render(whole, fraction);
  }

  ghost function Unsigned(magnitude: nat, decimals: nat): Text {
    var digits := PadStart(Digits(magnitude), decimals + 1);
    Render(digits[..|digits| - decimals], TrimZeros(digits[|digits| - decimals..]))
  }

  lemma Formatted(magnitude: nat, decimals: nat)
    ensures var text := Unsigned(magnitude, decimals);
      text != [] && Trim(text) == text && ToRaw(text, decimals) == Ok(magnitude)
  {
    var digits := PadStart(Digits(magnitude), decimals + 1);
    var whole, tail := digits[..|digits| - decimals], digits[|digits| - decimals..];
    PaddedMagnitude(magnitude, decimals);
    TrimmedDigits(tail);
    ParseRender(whole, TrimZeros(tail));
    RereadDigits(whole, tail);
  }

  lemma PaddedMagnitude(magnitude: nat, decimals: nat)
    ensures var digits := PadStart(Digits(magnitude), decimals + 1);
      && AllDigits(digits) && |digits| > decimals
      && digits[..|digits| - decimals] + digits[|digits| - decimals..] == digits
      && AllDigits(digits[..|digits| - decimals]) && AllDigits(digits[|digits| - decimals..])
      && Value(digits) == magnitude
  {
    hide Digits, Value;
    PadStartValue(Digits(magnitude), decimals + 1);
    DigitsRoundTrip(magnitude);
  }

  lemma TrimmedDigits(t: Text)
    requires AllDigits(t)
    ensures AllDigits(TrimZeros(t))
  {
    TrimmedValue([], t);
  }

  lemma RereadDigits(whole: Text, tail: Text)
    requires whole != [] && AllDigits(whole) && AllDigits(tail)
    requires Trim(Render(whole, TrimZeros(tail))) == Render(whole, TrimZeros(tail))
    requires Render(whole, TrimZeros(tail)) != [] && Render(whole, TrimZeros(tail))[0] != MINUS
    requires Parse(Render(whole, TrimZeros(tail))) == Some(Parts(whole, TrimZeros(tail)))
    ensures AllDigits(whole + tail)
    ensures ToRaw(Render(whole, TrimZeros(tail)), |tail|) == Ok(Value(whole + tail))
  {
    hide Value, Parse, Render, TrimZeros, Trim;
    TrimAgain(tail);
    PaddedDigits(TrimZeros(tail), |tail|);
    assert TrimZeros(tail) + Zeros(|tail| - |TrimZeros(tail)|) == tail;
  }

  lemma {:induction false} TrimAgain(t: Text)
    ensures TrimZeros(TrimZeros(t)) == TrimZeros(t)
  {}

  lemma TrimSigned(text: Text)
    requires text != [] && Trim(text) == text
    ensures Trim([MINUS] + text) == [MINUS] + text
  {
    var s := [MINUS] + text;
    assert TrimStart(s) == s;
    TrimFixed(text);
    assert s[|s| - 1] == text[|text| - 1];
  }

  lemma TrimFixed(text: Text)
    requires text != [] && Trim(text) == text
    ensures !IsSpace(text[|text| - 1])
  {
    TrimShortens(text);
    if IsSpace(text[|text| - 1]) {
      TrimEndShortens(text[..|text| - 1]);
      assert TrimStart(text) == text by { TrimEndShortens(TrimStart(text)); TrimStartSuffix(text); }
      assert false;
    }
  }

  lemma {:induction false} TrimEndShortens(t: Text)
    ensures |TrimEnd(t)| <= |t|
    decreases |t|
  { if t != [] { TrimEndShortens(t[..|t| - 1]); } }

  lemma {:induction false} TrimStartSuffix(t: Text)
    ensures |TrimStart(t)| <= |t|
    ensures |TrimStart(t)| == |t| ==> TrimStart(t) == t
    decreases |t|
  { if t != [] { TrimStartSuffix(t[1..]); } }

  lemma TrimShortens(t: Text)
    ensures |Trim(t)| <= |TrimStart(t)| <= |t|
  { TrimEndShortens(TrimStart(t)); TrimStartSuffix(t); }

  // ------------------------------------------------ exponent notation

  /**
   * A number printed in exponent notation, written out. The arguments are the
   * pieces of the printed text: sign, mantissa digits before and after its
   * point, and the exponent.
   */
  function DecimalString(negative: bool, whole: Text, fraction: Text, exponent: int): Text {
    var flat := whole + fraction;
    var pointAt := |whole| + exponent;
    (if negative then [MINUS] else []) +
    (if pointAt <= 0 then [ZERO, DOT] + Zeros(-pointAt) + flat
     else if pointAt >= |flat| then flat + Zeros(pointAt - |flat|)
     else flat[..pointAt] + [DOT] + flat[pointAt..])
  }

  /** `v * 10^e`, read as `v` when the exponent points the other way. */
  ghost function Up(v: nat, e: int): nat {
    if e > 0 then Times(v, Pow10(e)) else v
  }

  /** The text is a decimal and denotes `n / 10^places * 10^e`. */
  ghost predicate Denotes(text: Text, n: nat, places: nat, e: int) {
    var r := Parse(text);
    r.Some? && AllDigits(r.value.whole + r.value.fraction) &&
    SameNumber(Up(Value(r.value.whole + r.value.fraction), -e), |r.value.fraction|, Up(n, e), places)
  }

  /** Writing out the exponent keeps the number: mantissa times ten to the exponent. */
  lemma DecimalStringKeepsNumber(whole: Text, fraction: Text, exponent: int)
    requires whole != [] && AllDigits(whole) && AllDigits(fraction)
    ensures AllDigits(whole + fraction)
    ensures Denotes(DecimalString(false, whole, fraction, exponent), Value(whole + fraction), |fraction|, exponent)
  {
    if |whole| + exponent <= 0 {
      PointBefore(whole, fraction, exponent);
    } else if exponent >= |fraction| {
      PointAfter(whole, fraction, exponent);
    } else {
      PointWithin(whole, fraction, exponent);
    }
  }

  lemma PointBefore(whole: Text, fraction: Text, exponent: int)
    requires whole != [] && AllDigits(whole) && AllDigits(fraction) && |whole| + exponent <= 0
    ensures AllDigits(whole + fraction)
    ensures Denotes(DecimalString(false, whole, fraction, exponent), Value(whole + fraction), |fraction|, exponent)
  {
    hide Denotes, SameNumber, DecimalString, Up;
    hide Render, Parse, Value, Pow10, Times;
    var z := -(|whole| + exponent);
    PlacedBefore(whole, fraction, exponent);
    ParseRender([ZERO], Zeros(z) + (whole + fraction));
    ZerosInFront(z, whole + fraction);
    ShiftRight(Value(whole + fraction), |fraction|, -exponent);
    assert Up(Value(whole + fraction), exponent) == Value(whole + fraction) by {
      NoShift(Value(whole + fraction), exponent);
    }
    Conclude([ZERO], Zeros(z) + (whole + fraction), Value(whole + fraction), |fraction|, exponent);
  }

  lemma NoShift(v: nat, e: int)
    requires e <= 0
    ensures Up(v, e) == v
  {}

  lemma PlacedBefore(whole: Text, fraction: Text, exponent: int)
    requires whole != [] && |whole| + exponent <= 0
    ensures DecimalString(false, whole, fraction, exponent)
         == Render([ZERO], Zeros(-(|whole| + exponent)) + (whole + fraction))
  {
    assert Zeros(-(|whole| + exponent)) + (whole + fraction) != [];
  }

  lemma Conclude(w: Text, f: Text, n: nat, places: nat, e: int)
    requires Parse(Render(w, f)) == Some(Parts(w, f)) && AllDigits(w + f)
    requires SameNumber(Up(Value(w + f), -e), |f|, Up(n, e), places)
    ensures Denotes(Render(w, f), n, places, e)
  {}

  lemma ZerosInFront(z: nat, flat: Text)
    requires AllDigits(flat)
    ensures AllDigits([ZERO] + (Zeros(z) + flat)) && Value([ZERO] + (Zeros(z) + flat)) == Value(flat)
  {
    assert [ZERO] + (Zeros(z) + flat) == Zeros(z + 1) + flat;
    ValueAppend(Zeros(z + 1), flat);
    ValueZeros(z + 1);
  }

  lemma PointAfter(whole: Text, fraction: Text, exponent: int)
    requires whole != [] && AllDigits(whole) && AllDigits(fraction) && exponent >= |fraction|
    ensures AllDigits(whole + fraction)
    ensures Denotes(DecimalString(false, whole, fraction, exponent), Value(whole + fraction), |fraction|, exponent)
  {
    hide Denotes, SameNumber, DecimalString, Up;
    hide Render, Parse, Value, Pow10, Times;
    var z := exponent - |fraction|;
    PlacedAfter(whole, fraction, exponent);
    ZerosBehind(whole + fraction, z);
    ParseRender(whole + fraction + Zeros(z), []);
    ShiftLeft(Value(whole + fraction), |fraction|, z);
    NoShift(Times(Value(whole + fraction), Pow10(z)), -exponent);
    Conclude(whole + fraction + Zeros(z), [], Value(whole + fraction), |fraction|, exponent);
  }

  lemma PlacedAfter(whole: Text, fraction: Text, exponent: int)
    requires whole != [] && exponent >= |fraction|
    ensures DecimalString(false, whole, fraction, exponent)
         == Render(whole + fraction + Zeros(exponent - |fraction|), [])
  {}

  lemma ZerosBehind(flat: Text, z: nat)
    requires AllDigits(flat)
    ensures AllDigits(flat + Zeros(z) + []) && Value(flat + Zeros(z) + []) == Times(Value(flat), Pow10(z))
  {
    assert flat + Zeros(z) + [] == flat + Zeros(z);
    ValueAppend(flat, Zeros(z));
    ValueZeros(z);
  }

  lemma PointWithin(whole: Text, fraction: Text, exponent: int)
    requires whole != [] && AllDigits(whole) && AllDigits(fraction)
    requires 0 < |whole| + exponent && exponent < |fraction|
    ensures AllDigits(whole + fraction)
    ensures Denotes(DecimalString(false, whole, fraction, exponent), Value(whole + fraction), |fraction|, exponent)
  {
    hide Denotes, SameNumber, DecimalString, Up;
    hide Render, Parse, Value, Pow10, Times;
    var flat := whole + fraction;
    var w, f := flat[..|whole| + exponent], flat[|whole| + exponent..];
    PlacedWithin(whole, fraction, exponent);
    ParseRender(w, f);
    assert w + f == flat;
    NoShift(Value(flat), if exponent < 0 then exponent else -exponent);
    if exponent < 0 {
      ShiftRight(Value(flat), |fraction|, -exponent);
    } else {
      ShiftInside(Value(flat), |f|, exponent);
    }
    if exponent == 0 { NoShift(Value(flat), 0); }
    Conclude(w, f, Value(flat), |fraction|, exponent);
  }

  lemma PlacedWithin(whole: Text, fraction: Text, exponent: int)
    requires 0 < |whole| + exponent && exponent < |fraction|
    ensures DecimalString(false, whole, fraction, exponent)
         == Render((whole + fraction)[..|whole| + exponent], (whole + fraction)[|whole| + exponent..])
  {}

  lemma ShiftRight(v: nat, places: nat, shift: nat)
    ensures SameNumber(Up(v, shift), places + shift, v, places)
  {
    Pow10Sum(places, shift);
    TimesAssociative(v, Pow10(shift), Pow10(places));
    TimesCommutes(Pow10(shift), Pow10(places));
  }

  lemma ShiftLeft(v: nat, places: nat, zeros: nat)
    ensures SameNumber(Times(v, Pow10(zeros)), 0, Up(v, places + zeros), places)
  {
    Pow10Sum(zeros, places);
    TimesAssociative(v, Pow10(zeros), Pow10(places));
    TimesCommutes(Pow10(zeros), Pow10(places));
  }

  lemma ShiftInside(v: nat, places: nat, shift: nat)
    ensures SameNumber(v, places, Up(v, shift), places + shift)
  {
    Pow10Sum(shift, places);
    TimesAssociative(v, Pow10(shift), Pow10(places));
    TimesCommutes(Pow10(shift), Pow10(places));
  }

}
