/** packages/core/src/amount.ts: amounts given as numbers, from what `String(value)` prints to raw units. */
module Printed {
  import opened Texts
  import opened Outcomes
  import opened Decimals
  import opened DecimalText
  import opened Amount

  const LOWER_E: CodeUnit := 101
  const UPPER_E: CodeUnit := 69

  // -------------------------------------------------- the number of a text

  /** The text is a decimal and denotes `num / den`. */
  ghost predicate Means(text: Text, num: nat, den: nat) {
    var r := Parse(text);
    && r.Some? && AllDigits(r.value.whole + r.value.fraction) && den > 0
    && Times(Value(r.value.whole + r.value.fraction), den) == Times(num, Pow10(|r.value.fraction|))
  }

  /** Numbers printed alike up to a sign: digits around a point, and an exponent if there is one. */
  datatype Number = Number(negative: bool, whole: Text, fraction: Text, exponent: Option<int>)

  ghost predicate IsNumber(n: Number) { n.whole != [] && AllDigits(n.whole) && AllDigits(n.fraction) }

  function Sign(negative: bool): Text { if negative then [MINUS] else [] }

  function ExponentText(e: int): Text {
    [if e < 0 then MINUS else PLUS] + Digits(if e < 0 then -e else e)
  }

  /** `String(value)`. */
  function Print(n: Number): Text {
    var mantissa := Sign(n.negative) + Render(n.whole, n.fraction);
    if n.exponent.None? then mantissa else mantissa + [LOWER_E] + ExponentText(n.exponent.value)
  }

  /** The magnitude of a number as a fraction. */
  ghost function Numerator(n: Number): nat
    requires IsNumber(n)
  {
    assert AllDigits(n.whole + n.fraction);
    Up(Value(n.whole + n.fraction), n.exponent.GetOr(0))
  }

  ghost function Denominator(n: Number): nat { Times(Pow10(|n.fraction|), Up(1, -n.exponent.GetOr(0))) }

  // ------------------------------------------------ writing out an exponent

  /** `text.toLowerCase()`, on ASCII. */
  function Lowered(t: Text): Text {
    seq(|t|, i requires 0 <= i < |t| => if 65 <= t[i] <= 90 then t[i] + 32 else t[i])
  }

  predicate Signed(t: Text) { t != [] && (t[0] == MINUS || t[0] == PLUS) }

  function Unsign(t: Text): Text { if Signed(t) then t[1..] else t }

  /** `Number(text)` of a whole number; a text that is none does not come out of `String`. */
  function WholeNumber(t: Text): int {
    if !AllDigits(Unsign(t)) then 0
    else
      var magnitude: int := Value(Unsign(t));
      if t != [] && t[0] == MINUS then -magnitude else magnitude
  }

  function PartOr(parts: seq<Text>, i: nat, none: Text): Text { if i < |parts| then parts[i] else none }

  /** `decimalString`: a printed number without its exponent. */
  function Expand(text: Text): Text {
    if LOWER_E !in text && UPPER_E !in text then text
    else
      var parts := Split(LOWER_E, Lowered(text));
      var pieces := Split(DOT, Unsign(parts[0]));
      DecimalString(parts[0] != [] && parts[0][0] == MINUS, pieces[0], PartOr(pieces, 1, []),
                    WholeNumber(PartOr(parts, 1, [ZERO])))
  }

  lemma PiecesOfMantissa(whole: Text, fraction: Text)
    requires whole != [] && AllDigits(whole) && AllDigits(fraction)
    ensures var pieces := Split(DOT, Render(whole, fraction));
      pieces[0] == whole && PartOr(pieces, 1, []) == fraction
  {
    hide Join, Split, AllDigits;
    NotADigit(whole, DOT);
    NotADigit(fraction, DOT);
    if fraction == [] {
      SplitJoin(DOT, [whole]);
      assert Join(DOT, [whole]) == whole by { JoinOne(DOT, whole); }
    } else {
      SplitJoin(DOT, [whole, fraction]);
      JoinTwo(DOT, whole, fraction);
    }
  }

  lemma NotADigit(t: Text, c: CodeUnit)
    requires AllDigits(t) && !IsDigit(c)
    ensures c !in t
  {}

  lemma JoinOne(sep: CodeUnit, a: Text)
    ensures Join(sep, [a]) == a
  {}

  lemma JoinTwo(sep: CodeUnit, a: Text, b: Text)
    ensures Join(sep, [a, b]) == a + [sep] + b
  {
    assert [a, b][1..] == [b];
  }

  lemma ExponentReadsBack(e: int)
    ensures WholeNumber(ExponentText(e)) == e
  {
    var m: nat := if e < 0 then -e else e;
    DigitsRoundTrip(m);
    assert ExponentText(e)[1..] == Digits(m);
  }

  /** Nothing in a printed number is a letter but the `e`. */
  lemma MantissaHasNoLetter(n: Number)
    requires IsNumber(n)
    ensures var m := Sign(n.negative) + Render(n.whole, n.fraction);
      && Unsign(m) == Render(n.whole, n.fraction) && m != [] && (m[0] == MINUS <==> n.negative)
      && (forall i :: 0 <= i < |m| ==> m[i] < 65)
  {
    assert IsDigit(Render(n.whole, n.fraction)[0]);
  }

  lemma LoweredIsSame(t: Text)
    requires forall i :: 0 <= i < |t| ==> !(65 <= t[i] <= 90)
    ensures Lowered(t) == t
  {}

  lemma ExpandPrinted(n: Number)
    requires IsNumber(n)
    ensures Expand(Print(n)) ==
      if n.exponent.None? then Print(n) else DecimalString(n.negative, n.whole, n.fraction, n.exponent.value)
  {
    hide Render, DecimalString, Split, Join, Digits;
    MantissaHasNoLetter(n);
    if n.exponent.Some? {
      var m, x := Sign(n.negative) + Render(n.whole, n.fraction), ExponentText(n.exponent.value);
      assert forall i :: 0 <= i < |x| ==> x[i] < 65;
      assert Print(n) == m + [LOWER_E] + x;
      assert Print(n)[|m|] == LOWER_E;
      LoweredIsSame(Print(n));
      SplitJoin(LOWER_E, [m, x]);
      JoinTwo(LOWER_E, m, x);
      PiecesOfMantissa(n.whole, n.fraction);
      ExponentReadsBack(n.exponent.value);
    }
  }

  /** `Denotes`, as one fraction. */
  lemma DenotesMeans(text: Text, v: nat, places: nat, e: int)
    requires Denotes(text, v, places, e)
    ensures Means(text, Up(v, e), Times(Pow10(places), Up(1, -e)))
  {
    hide Parse, Value, AllDigits;
    var r := Parse(text).value;
    var value := Value(r.whole + r.fraction);
    if e < 0 {
      TimesAssociative(value, Pow10(-e), Pow10(places));
      TimesCommutes(Pow10(-e), Pow10(places));
    }
  }

  /** Expanding a printed number keeps its sign and its magnitude, exponent or none. */
  lemma ExpandKeepsNumber(n: Number)
    requires IsNumber(n)
    ensures Expand(Print(n)) == Sign(n.negative) + Expand(Print(n.(negative := false)))
    ensures Means(Expand(Print(n.(negative := false))), Numerator(n), Denominator(n))
  {
    hide Denotes, Means, Parse, Value, DecimalString, Expand, Print, AllDigits;
    var plain := n.(negative := false);
    ExpandPrinted(n);
    ExpandPrinted(plain);
    SignComesFirst(n);
    var text, e := Expand(Print(plain)), n.exponent.GetOr(0);
    if n.exponent.Some? { DecimalStringKeepsNumber(n.whole, n.fraction, e); } else { PlainDenotes(n); }
    DenotesMeans(text, Value(n.whole + n.fraction), |n.fraction|, e);
  }

  lemma SignComesFirst(n: Number)
    ensures n.exponent.None? ==> Print(n) == Sign(n.negative) + Print(n.(negative := false))
    ensures n.exponent.Some? ==>
      DecimalString(n.negative, n.whole, n.fraction, n.exponent.value)
      == Sign(n.negative) + DecimalString(false, n.whole, n.fraction, n.exponent.value)
  {
    hide Render, Zeros, ExponentText;
    if n.exponent.Some? {
      SignedDecimal(n.negative, n.whole, n.fraction, n.exponent.value);
    }
  }

  lemma SignedDecimal(negative: bool, whole: Text, fraction: Text, exponent: int)
    ensures DecimalString(negative, whole, fraction, exponent)
         == Sign(negative) + DecimalString(false, whole, fraction, exponent)
  {
    hide Zeros;
    var text := DecimalString(false, whole, fraction, exponent);
    assert [] + text == text;
  }

  lemma PlainDenotes(n: Number)
    requires IsNumber(n) && n.exponent.None?
    ensures AllDigits(n.whole + n.fraction)
    ensures Denotes(Print(n.(negative := false)), Value(n.whole + n.fraction), |n.fraction|, 0)
  {
    hide Parse, Value, Render, AllDigits;
    assert AllDigits(n.whole + n.fraction) by { DigitsTogether(n.whole, n.fraction); }
    ParseRender(n.whole, n.fraction);
    assert Print(n.(negative := false)) == Render(n.whole, n.fraction);
  }

  lemma DigitsTogether(a: Text, b: Text)
    requires AllDigits(a) && AllDigits(b)
    ensures AllDigits(a + b)
  {}

  // ------------------------------------------------------- to raw units

  /** One number, as `v / f` and as `num / den`, has the same multiples. */
  lemma SameFraction(v: nat, f: nat, num: nat, den: nat, a: nat, b: nat)
    requires f > 0 && den > 0 && Times(v, den) == Times(num, f)
    ensures Times(a, f) == Times(v, b) <==> Times(a, den) == Times(num, b)
  {
    hide Times;
    TimesCancels(Times(a, f), Times(v, b), den);
    TimesCancels(Times(a, den), Times(num, b), f);
    TimesSwap(a, f, den);
    TimesSwap(v, b, den);
    TimesSwap(num, f, b);
  }

  /** A printed number converts to the raw amount of exactly its value, or not at all. */
  lemma NumberToRawIsExact(n: Number, decimals: nat, raw: nat)
    requires IsNumber(n)
    ensures n.negative ==> ToRaw(Expand(Print(n)), decimals) == Err(Negative)
    ensures !n.negative ==>
      && (ToRaw(Expand(Print(n)), decimals) == Ok(raw) <==>
            Times(raw, Denominator(n)) == Times(Numerator(n), Pow10(decimals)))
      && (ToRaw(Expand(Print(n)), decimals) == Err(TooPrecise) <==>
            forall k: nat :: Times(k, Denominator(n)) != Times(Numerator(n), Pow10(decimals)))
  {
    hide Trim, TrimStart, TrimEnd, Parse, ToRaw, Times, Pow10, Expand, Print, Numerator, Denominator;
    var plain := Expand(Print(n.(negative := false)));
    ExpandKeepsNumber(n);
    ExpandedIsTrim(n);
    if n.negative {
      TrimSigned(plain);
      SignRefused([MINUS] + plain, decimals);
    } else {
      var p := Parse(plain).value;
      var v := Value(p.whole + p.fraction);
      ToRawIsExact(plain, decimals, p, raw);
      SameFraction(v, Pow10(|p.fraction|), Numerator(n), Denominator(n), raw, Pow10(decimals));
      forall k: nat
        ensures Times(k, Denominator(n)) == Times(Numerator(n), Pow10(decimals)) <==>
          SameNumber(k, decimals, v, |p.fraction|)
      {
        SameFraction(v, Pow10(|p.fraction|), Numerator(n), Denominator(n), k, Pow10(decimals));
      }
    }
  }

  lemma SignRefused(text: Text, decimals: nat)
    requires Trim(text) == text && text != [] && text[0] == MINUS
    ensures ToRaw(text, decimals) == Err(Negative)
  {}

  lemma ExpandedIsTrim(n: Number)
    requires IsNumber(n)
    ensures var text := Expand(Print(n.(negative := false)));
      text != [] && Trim(text) == text && text[0] != MINUS
  {
    hide Expand, Print, Trim;
    ExpandPrinted(n.(negative := false));
    var text := Expand(Print(n.(negative := false)));
    assert text != [] && IsDigit(text[0]) && IsDigit(text[|text| - 1]) by { DigitsAtBothEnds(n); }
    TrimDigits(text);
  }

  lemma DigitsAtBothEnds(n: Number)
    requires IsNumber(n)
    ensures var text := if n.exponent.None? then Print(n.(negative := false))
                        else DecimalString(false, n.whole, n.fraction, n.exponent.value);
      text != [] && IsDigit(text[0]) && IsDigit(text[|text| - 1])
  {}
}
