/** Optional values and results: the SDK's nulls and thrown errors. */
module Outcomes {
  datatype Option<+T> = None | Some(value: T) {
    function GetOr(fallback: T): T {
      if Some? then value else fallback
    }
  }

  datatype Result<+T, +E> = Ok(value: T) | Err(error: E)
}

/** Text as the SDK handles it: sequences of UTF-16 code units, ordered by code unit. */
module Texts {
  type CodeUnit = u: int | 0 <= u < 0x1_0000
  type Text = seq<CodeUnit>

  const NUL: CodeUnit := 0
  const DOT: CodeUnit := 46

  /** An ASCII literal as code units. */
  function Ascii(s: string): Text
    requires forall i :: 0 <= i < |s| ==> s[i] < '\U{0080}'
    ensures |Ascii(s)| == |s|
    ensures forall i :: 0 <= i < |s| ==> Ascii(s)[i] == s[i] as int
  {
    seq(|s|, i requires 0 <= i < |s| => var u: CodeUnit := s[i] as int; u)
  }

  // ---------------------------------------------------------------- order

  /** The `<` of two strings: the first differing code unit decides, a prefix comes first. */
  predicate Less(left: Text, right: Text)
    decreases |left|
  {
    right != [] && (left == [] || left[0] < right[0] || (left[0] == right[0] && Less(left[1..], right[1..])))
  }

  function CompareText(left: Text, right: Text): int {
    if Less(left, right) then -1 else if Less(right, left) then 1 else 0
  }

  /** Exactly one of before, equal, after. */
  lemma {:induction false} LessTrichotomy(a: Text, b: Text)
    ensures Less(a, b) || a == b || Less(b, a)
    ensures !(Less(a, b) && Less(b, a))
    ensures !Less(a, a)
    decreases |a|
  {
    if a != [] {
      LessTrichotomy(a[1..], a[1..]);
      if b != [] && a[0] == b[0] {
        LessTrichotomy(a[1..], b[1..]);
        assert a == [a[0]] + a[1..] && b == [b[0]] + b[1..];
      }
    }
  }

  lemma {:induction false} LessTransitive(a: Text, b: Text, c: Text)
    requires Less(a, b) && Less(b, c)
    ensures Less(a, c)
    decreases |a|
  {
    if a != [] && a[0] == b[0] && b[0] == c[0] {
      LessTransitive(a[1..], b[1..], c[1..]);
    }
  }

  /** A common prefix does not change an order. */
  lemma {:induction false} LessCommonPrefix(p: Text, a: Text, b: Text)
    ensures Less(p + a, p + b) == Less(a, b)
    decreases |p|
  {
    if p == [] {
      assert p + a == a && p + b == b;
    } else {
      assert (p + a)[1..] == p[1..] + a && (p + b)[1..] == p[1..] + b;
      LessCommonPrefix(p[1..], a, b);
    }
  }

  /** Texts of one length are ordered by their first parts before anything appended to them. */
  lemma {:induction false} LessDecidedByPrefix(p: Text, q: Text, a: Text, b: Text)
    requires |p| == |q| && p != q
    ensures Less(p + a, q + b) == Less(p, q)
    decreases |p|
  {
    assert (p + a)[1..] == p[1..] + a && (q + b)[1..] == q[1..] + b;
    if p[0] == q[0] {
      assert p == [p[0]] + p[1..] && q == [q[0]] + q[1..];
      LessDecidedByPrefix(p[1..], q[1..], a, b);
    }
  }

  // ------------------------------------------------- sorted, duplicate-free

  ghost predicate StrictlySorted(s: seq<Text>) {
    forall i, j :: 0 <= i < j < |s| ==> Less(s[i], s[j])
  }

  lemma {:induction false} MinimumExists(s: set<Text>) returns (m: Text)
    requires s != {}
    ensures m in s && forall y :: y in s ==> y == m || Less(m, y)
    decreases |s|
  {
    var x :| x in s;
    if s == {x} {
      m := x;
    } else {
      var rest := s - {x};
      assert s == rest + {x};
      var r := MinimumExists(rest);
      LessTrichotomy(x, r);
      m := if Less(x, r) then x else r;
      forall y | y in s ensures y == m || Less(m, y) {
        if y != x && m == x {
          assert y in rest;
          if y != r { LessTransitive(x, r, y); }
        }
      }
    }
  }

  lemma LeastExists(s: set<Text>)
    requires s != {}
    ensures exists m :: m in s && forall y :: y in s ==> y == m || Less(m, y)
  {
    var m := MinimumExists(s);
  }

  function Least(s: set<Text>): (m: Text)
    requires s != {}
    ensures m in s
    ensures forall y :: y in s ==> y == m || Less(m, y)
  {
    LeastExists(s);
    assert forall a, b :: Less(a, b) ==> !Less(b, a) by {
      forall a, b ensures Less(a, b) ==> !Less(b, a) { LessTrichotomy(a, b); }
    }
    var m :| m in s && forall y :: y in s ==> y == m || Less(m, y);
    m
  }

  /** `[...new Set(texts)].sort()`: the one strictly increasing listing of a set. */
  function SortedSet(s: set<Text>): (r: seq<Text>)
    ensures StrictlySorted(r)
    ensures forall x :: x in r <==> x in s
    ensures |r| == |s|
    decreases |s|
  {
    if s == {} then []
    else
      var m := Least(s);
      assert m !in s - {m};
      var rest := SortedSet(s - {m});
      assert forall i :: 0 <= i < |rest| ==> Less(m, rest[i]) by {
        forall i | 0 <= i < |rest| ensures Less(m, rest[i]) { assert rest[i] in rest; }
      }
      [m] + rest
  }

  function Elements(s: seq<Text>): (r: set<Text>)
    ensures forall x :: x in r <==> x in s
  {
    set x | x in s
  }

  /** Strictly increasing listings of the same elements are the same listing. */
  lemma {:induction false} StrictlySortedUnique(a: seq<Text>, b: seq<Text>)
    requires StrictlySorted(a) && StrictlySorted(b)
    requires forall x :: x in a <==> x in b
    ensures a == b
    decreases |a|
  {
    assert (a != [] ==> a[0] in a) && (b != [] ==> b[0] in b);
    if a != [] {
      var k :| 0 <= k < |b| && b[k] == a[0];
      assert b[0] in a;
      var l :| 0 <= l < |a| && a[l] == b[0];
      LessTrichotomy(a[0], b[0]);
      assert a[0] == b[0];
      forall x ensures x in a[1..] <==> x in b[1..] {
        LessTrichotomy(a[0], a[0]);
        assert x in a[1..] ==> x in a && x != a[0];
        assert x in b[1..] ==> x in b && x != b[0];
        assert x in a && x != a[0] ==> x in a[1..] by { assert a == [a[0]] + a[1..]; }
        assert x in b && x != b[0] ==> x in b[1..] by { assert b == [b[0]] + b[1..]; }
      }
      StrictlySortedUnique(a[1..], b[1..]);
      assert a == [a[0]] + a[1..] && b == [b[0]] + b[1..];
    }
  }

  /** A strictly increasing text list is its own canonical listing. */
  lemma SortedSetOfSorted(a: seq<Text>)
    requires StrictlySorted(a)
    ensures SortedSet(Elements(a)) == a
  {
    StrictlySortedUnique(SortedSet(Elements(a)), a);
  }

  // ------------------------------------------------------- join and split

  function Join(sep: CodeUnit, parts: seq<Text>): Text
    requires parts != []
  {
    if |parts| == 1 then parts[0] else parts[0] + [sep] + Join(sep, parts[1..])
  }

  function Split(sep: CodeUnit, t: Text): (r: seq<Text>)
    ensures r != []
  {
    if t == [] then [[]]
    else if t[0] == sep then [[]] + Split(sep, t[1..])
    else
      var r := Split(sep, t[1..]);
      [[t[0]] + r[0]] + r[1..]
  }

  lemma {:induction false} SplitFirst(sep: CodeUnit, p: Text, rest: Text)
    requires sep !in p
    ensures Split(sep, p + [sep] + rest) == [p] + Split(sep, rest)
    decreases |p|
  {
    var t := p + [sep] + rest;
    if p == [] {
      assert t[1..] == rest;
    } else {
      assert t[1..] == p[1..] + [sep] + rest;
      SplitFirst(sep, p[1..], rest);
      assert p == [p[0]] + p[1..];
    }
  }

  lemma {:induction false} SplitAtom(sep: CodeUnit, p: Text)
    requires sep !in p
    ensures Split(sep, p) == [p]
    decreases |p|
  {
    if p != [] {
      SplitAtom(sep, p[1..]);
      assert p == [p[0]] + p[1..];
    }
  }

  /** Separator-free parts survive being joined: the joined text is an injective key. */
  lemma {:induction false} SplitJoin(sep: CodeUnit, parts: seq<Text>)
    requires parts != []
    requires forall p :: p in parts ==> sep !in p
    ensures Split(sep, Join(sep, parts)) == parts
    decreases |parts|
  {
    if |parts| == 1 {
      SplitAtom(sep, parts[0]);
    } else {
      SplitJoin(sep, parts[1..]);
      SplitFirst(sep, parts[0], Join(sep, parts[1..]));
      assert parts == [parts[0]] + parts[1..];
    }
  }

  /** Splitting loses nothing. */
  lemma {:induction false} JoinSplit(sep: CodeUnit, t: Text)
    ensures Join(sep, Split(sep, t)) == t
    decreases |t|
  {
    if t != [] {
      JoinSplit(sep, t[1..]);
      var r := Split(sep, t[1..]);
      assert t == [t[0]] + t[1..];
      if t[0] == sep {
        assert ([[]] + r)[1..] == r;
      } else {
        assert ([[t[0]] + r[0]] + r[1..])[1..] == r[1..];
        if |r| > 1 { assert [t[0]] + r[0] + [sep] + Join(sep, r[1..]) == [t[0]] + (r[0] + [sep] + Join(sep, r[1..])); }
      }
    }
  }
}

/** Decimal digit text and the natural numbers it denotes. */
module Decimals {
  import opened Texts

  const ZERO: CodeUnit := 48

  predicate IsDigit(c: CodeUnit) { 48 <= c <= 57 }

  predicate AllDigits(t: Text) { forall i :: 0 <= i < |t| ==> IsDigit(t[i]) }

  /** `BigInt(text)` of digit text; the empty text denotes zero. */
  function Value(t: Text): nat
    requires AllDigits(t)
  {
    if t == [] then 0 else Value(t[..|t| - 1]) * 10 + (t[|t| - 1] - 48)
  }

  /** `n.toString()`. */
  function Digits(n: nat): (t: Text)
    ensures t != [] && AllDigits(t)
  {
    if n < 10 then [48 + n] else Digits(n / 10) + [48 + n % 10]
  }

  function Pow10(n: nat): (p: nat)
    ensures p >= 1
  {
    if n == 0 then 1 else 10 * Pow10(n - 1)
  }

  /** A product, kept as one term so that equal factors give equal products. */
  function Times(a: nat, b: nat): nat { a * b }

  lemma TimesAssociative(a: nat, b: nat, c: nat)
    ensures Times(Times(a, b), c) == Times(a, Times(b, c))
  {
    assert (a * b) * c == a * (b * c);
  }

  lemma TimesCommutes(a: nat, b: nat)
    ensures Times(a, b) == Times(b, a)
  {}

  lemma TimesSwap(a: nat, b: nat, c: nat)
    ensures Times(Times(a, b), c) == Times(Times(a, c), b)
  {
    assert (a * b) * c == (a * c) * b;
  }

  /** Equal multiples of a positive factor are multiples of equal numbers. */
  lemma TimesCancels(a: nat, b: nat, f: nat)
    requires f > 0
    ensures Times(a, f) == Times(b, f) <==> a == b
  {
    if a < b { assert (a + 1) * f <= b * f; } else if b < a { assert (b + 1) * f <= a * f; }
  }

  function Zeros(n: nat): (t: Text)
    ensures |t| == n && AllDigits(t)
    ensures forall i :: 0 <= i < n ==> t[i] == ZERO
  {
    seq(n, _ => ZERO)
  }

  /** `text.padStart(width, '0')`. */
  function PadStart(t: Text, width: nat): Text {
    if |t| >= width then t else Zeros(width - |t|) + t
  }

  /** `text.replace(/0+$/, '')`. */
  function TrimZeros(t: Text): (r: Text)
    ensures |r| <= |t| && t == r + Zeros(|t| - |r|)
    ensures r == [] || r[|r| - 1] != ZERO
  {
    if t != [] && t[|t| - 1] == ZERO then
      var r := TrimZeros(t[..|t| - 1]);
      assert t == t[..|t| - 1] + [ZERO];
      assert Zeros(|t| - |r|) == Zeros(|t| - 1 - |r|) + [ZERO];
      r
    else
      assert t == t + Zeros(0);
      t
  }

  lemma {:induction false} DigitsRoundTrip(n: nat)
    ensures Value(Digits(n)) == n
    ensures Digits(n)[0] == ZERO ==> Digits(n) == [ZERO]
  {
    if n < 10 {
      assert Digits(n)[..0] == [];
    } else {
      DigitsRoundTrip(n / 10);
      var t := Digits(n);
      assert t[..|t| - 1] == Digits(n / 10);
    }
  }

  lemma {:induction false} Pow10Sum(a: nat, b: nat)
    ensures Pow10(a + b) == Times(Pow10(a), Pow10(b))
  {
    if a > 0 {
      Pow10Sum(a - 1, b);
      TimesAssociative(10, Pow10(a - 1), Pow10(b));
    }
  }

  lemma {:induction false} ValueAppend(a: Text, b: Text)
    requires AllDigits(a) && AllDigits(b)
    ensures AllDigits(a + b)
    ensures Value(a + b) == Times(Value(a), Pow10(|b|)) + Value(b)
    decreases |b|
  {
    if b == [] {
      assert a + b == a;
    } else {
      var c := b[..|b| - 1];
      ValueAppend(a, c);
      assert (a + b)[..|a + b| - 1] == a + c;
      TimesAssociative(10, Value(a), Pow10(|c|));
      TimesSwap(10, Value(a), Pow10(|c|));
      TimesCommutes(Value(a), Times(10, Pow10(|c|)));
    }
  }

  lemma {:induction false} ValueZeros(n: nat)
    ensures Value(Zeros(n)) == 0
  {
    if n > 0 {
      ValueZeros(n - 1);
      assert Zeros(n)[..n - 1] == Zeros(n - 1);
    }
  }

  lemma {:induction false} ValueBound(t: Text)
    requires AllDigits(t)
    ensures Value(t) < Pow10(|t|)
    decreases |t|
  {
    if t != [] { ValueBound(t[..|t| - 1]); }
  }

  lemma {:induction false} DigitsFit(n: nat, width: nat)
    requires n < Pow10(width) && width >= 1
    ensures |Digits(n)| <= width
    decreases width
  {
    if n >= 10 {
      DigitsFit(n / 10, width - 1);
    }
  }

  lemma PadStartValue(t: Text, width: nat)
    requires AllDigits(t)
    ensures AllDigits(PadStart(t, width)) && Value(PadStart(t, width)) == Value(t)
    ensures |PadStart(t, width)| == if |t| >= width then |t| else width
  {
    if |t| < width {
      ValueAppend(Zeros(width - |t|), t);
      ValueZeros(width - |t|);
    }
  }

  /** On digit text of one width, text order is numeric order. */
  lemma {:induction false} FixedWidthOrder(a: Text, b: Text)
    requires AllDigits(a) && AllDigits(b) && |a| == |b|
    ensures Less(a, b) <==> Value(a) < Value(b)
    ensures a == b <==> Value(a) == Value(b)
    decreases |a|
  {
    if a != [] {
      var x, y := [a[0]], [b[0]];
      assert a == x + a[1..] && b == y + b[1..];
      ValueAppend(x, a[1..]);
      ValueAppend(y, b[1..]);
      assert x[..0] == [] && y[..0] == [];
      assert Value(x) == a[0] - 48 && Value(y) == b[0] - 48;
      ValueBound(a[1..]);
      ValueBound(b[1..]);
      FixedWidthOrder(a[1..], b[1..]);
      var p := Pow10(|a| - 1);
      if a[0] < b[0] {
        LeadingDigitDecides(Value(x), Value(y), p, Value(a[1..]), Value(b[1..]));
      } else if b[0] < a[0] {
        LeadingDigitDecides(Value(y), Value(x), p, Value(b[1..]), Value(a[1..]));
      }
    }
  }

  lemma LeadingDigitDecides(x: nat, y: nat, p: nat, r: nat, s: nat)
    requires x < y && r < p
    ensures x * p + r < y * p + s
  {
    assert (x + 1) * p <= y * p;
    assert (x + 1) * p == x * p + p;
  }
}

/** Decimal amounts as text, and the exact conversions between them and raw units. */
module DecimalText {
  import opened Texts
  import opened Outcomes
  import opened Decimals

  const PLUS: CodeUnit := 43
  const MINUS: CodeUnit := 45

  /** A matched decimal: the digits before the point and after it. */
  datatype Parts = Parts(whole: Text, fraction: Text)

  ghost predicate WellFormed(p: Parts) { p.whole != [] && AllDigits(p.whole) && AllDigits(p.fraction) }

  /** White space as `String.prototype.trim` removes it. */
  predicate IsSpace(c: CodeUnit) {
    9 <= c <= 13 || c == 32 || c == 0xa0 || c == 0x1680 || 0x2000 <= c <= 0x200a ||
    c == 0x2028 || c == 0x2029 || c == 0x202f || c == 0x205f || c == 0x3000 || c == 0xfeff
  }

  /** The blank controls, the space and its Unicode kin, the two separators and the byte order mark. */
  lemma SpacesAreExact(c: CodeUnit)
    ensures IsSpace(c) <==>
      c in {0x09, 0x0a, 0x0b, 0x0c, 0x0d, 0x20, 0xa0, 0x1680, 0x2000, 0x2001, 0x2002, 0x2003, 0x2004, 0x2005, 0x2006,
            0x2007, 0x2008, 0x2009, 0x200a, 0x2028, 0x2029, 0x202f, 0x205f, 0x3000, 0xfeff}
  {}

  function TrimStart(t: Text): Text {
    if t != [] && IsSpace(t[0]) then TrimStart(t[1..]) else t
  }

  function TrimEnd(t: Text): Text {
    if t != [] && IsSpace(t[|t| - 1]) then TrimEnd(t[..|t| - 1]) else t
  }

  function Trim(t: Text): Text { TrimEnd(TrimStart(t)) }

  /** The longest run of digits at the front. */
  function DigitRun(t: Text): (n: nat)
    ensures n <= |t| && AllDigits(t[..n])
    ensures n < |t| ==> !IsDigit(t[n])
  {
    if t == [] || !IsDigit(t[0]) then 0
    else
      var n := 1 + DigitRun(t[1..]);
      assert t[..n] == [t[0]] + t[1..][..n - 1];
      n
  }

  /**
   * `/^\+?(\d*)(?:\.(\d*))?$/`, refusing a text with no digit at all, and with an
   * empty whole part read as "0".
   */
  function Parse(text: Text): (r: Option<Parts>)
    ensures r.Some? ==> WellFormed(r.value)
  {
    var t := if text != [] && text[0] == PLUS then text[1..] else text;
    var n := DigitRun(t);
    var whole := t[..n];
    if n == |t| then (if whole == [] then None else Some(Parts(whole, [])))
    else if t[n] != DOT then None
    else
      var fraction := t[n + 1..];
      if DigitRun(fraction) != |fraction| then None
      else
        assert fraction == fraction[..|fraction|];
        if whole == [] && fraction == [] then None
        else Some(Parts(if whole == [] then [ZERO] else whole, fraction))
  }

  /** A plain `whole[.fraction]` text, the point written only when digits follow it. */
  function Render(whole: Text, fraction: Text): Text {
    if fraction == [] then whole else whole + [DOT] + fraction
  }

  lemma {:induction false} DigitRunOf(digits: Text, rest: Text)
    requires AllDigits(digits) && (rest == [] || !IsDigit(rest[0]))
    ensures DigitRun(digits + rest) == |digits|
    decreases |digits|
  {
    if digits == [] {
      assert digits + rest == rest;
    } else {
      assert (digits + rest)[1..] == digits[1..] + rest;
      DigitRunOf(digits[1..], rest);
    }
  }

  /** A decimal as it may be written: a plus or none, digits, and perhaps a point and more digits. */
  ghost function Written(plus: bool, whole: Text, dotted: bool, fraction: Text): Text {
    (if plus then [PLUS] else []) + (whole + (if dotted then [DOT] + fraction else []))
  }

  /** Every way of writing a decimal is read as its digits, unless it has none. */
  lemma ParseReadsDecimals(plus: bool, whole: Text, dotted: bool, fraction: Text)
    requires AllDigits(whole) && AllDigits(fraction) && (!dotted ==> fraction == [])
    ensures Parse(Written(plus, whole, dotted, fraction))
         == if whole + fraction == [] then None
            else Some(Parts(if whole == [] then [ZERO] else whole, fraction))
  {
    hide DigitRun;
    var text := Written(plus, whole, dotted, fraction);
    var rest := if dotted then [DOT] + fraction else [];
    var t := whole + rest;
    assert (if text != [] && text[0] == PLUS then text[1..] else text) == t;
    DigitRunOf(whole, rest);
    assert t[..|whole|] == whole;
    if dotted {
      assert t[|whole|] == DOT && t[|whole| + 1..] == fraction;
      DigitRunOf(fraction, []);
      assert fraction + [] == fraction;
    }
  }

  /** And nothing else is read as one. */
  lemma ParsedIsWritten(text: Text) returns (plus: bool, whole: Text, dotted: bool, fraction: Text)
    requires Parse(text).Some?
    ensures AllDigits(whole) && AllDigits(fraction) && (!dotted ==> fraction == []) && whole + fraction != []
    ensures text == Written(plus, whole, dotted, fraction)
  {
    hide DigitRun;
    plus := text != [] && text[0] == PLUS;
    var t := if plus then text[1..] else text;
    var n := DigitRun(t);
    whole, dotted, fraction := t[..n], n < |t|, [];
    if dotted {
      fraction := t[n + 1..];
      assert fraction[..|fraction|] == fraction;
      assert t == whole + ([DOT] + fraction);
    } else {
      assert t == whole + [];
    }
    assert text == (if plus then [PLUS] else []) + t;
  }

  ghost predicate AllSpaces(t: Text) { forall i :: 0 <= i < |t| ==> IsSpace(t[i]) }

  lemma {:induction false} TrimStartIsExact(t: Text) returns (front: Text)
    ensures t == front + TrimStart(t) && AllSpaces(front)
    ensures TrimStart(t) != [] ==> !IsSpace(TrimStart(t)[0])
    decreases |t|
  {
    front := [];
    if t != [] && IsSpace(t[0]) {
      var more := TrimStartIsExact(t[1..]);
      front := [t[0]] + more;
    }
  }

  lemma {:induction false} TrimEndIsExact(t: Text) returns (back: Text)
    ensures t == TrimEnd(t) + back && AllSpaces(back)
    ensures TrimEnd(t) != [] ==> !IsSpace(TrimEnd(t)[|TrimEnd(t)| - 1])
    decreases |t|
  {
    back := [];
    if t != [] && IsSpace(t[|t| - 1]) {
      var more := TrimEndIsExact(t[..|t| - 1]);
      back := more + [t[|t| - 1]];
    }
  }

  /** Trimming takes all white space from both ends and nothing else. */
  lemma TrimIsExact(t: Text) returns (front: Text, back: Text)
    ensures t == front + Trim(t) + back && AllSpaces(front) && AllSpaces(back)
    ensures Trim(t) != [] ==> !IsSpace(Trim(t)[0]) && !IsSpace(Trim(t)[|Trim(t)| - 1])
  {
    front := TrimStartIsExact(t);
    back := TrimEndIsExact(TrimStart(t));
  }

  /** Reading back a rendered decimal gives the digits it was made of. */
  lemma ParseRender(whole: Text, fraction: Text)
    requires whole != [] && AllDigits(whole) && AllDigits(fraction)
    ensures Parse(Render(whole, fraction)) == Some(Parts(whole, fraction))
    ensures Trim(Render(whole, fraction)) == Render(whole, fraction)
    ensures Render(whole, fraction) != [] && Render(whole, fraction)[0] != MINUS
  {
    hide Trim, TrimStart, TrimEnd, DigitRun;
    var t := Render(whole, fraction);
    assert t[0] == whole[0] && IsDigit(t[|t| - 1]);
    TrimDigits(t);
    if fraction == [] {
      DigitRunOf(whole, []);
      assert whole + [] == whole && t[..|whole|] == whole;
    } else {
      DigitRunOf(whole, [DOT] + fraction);
      assert t == whole + ([DOT] + fraction);
      assert t[..|whole|] == whole && t[|whole| + 1..] == fraction;
      DigitRunOf(fraction, []);
      assert fraction + [] == fraction;
    }
  }

  /** A text that begins and ends with a digit has nothing to trim. */
  lemma TrimDigits(t: Text)
    requires t != [] && IsDigit(t[0]) && IsDigit(t[|t| - 1])
    ensures Trim(t) == t
  {}

  /** Two decimals, given as digits over a power of ten, denote one number. */
  ghost predicate SameNumber(n: nat, places: nat, m: nat, otherPlaces: nat) {
    Times(n, Pow10(otherPlaces)) == Times(m, Pow10(places))
  }

  /** Dropping trailing zeros and that many places leaves the number alone. */
  lemma TrimmedValue(head: Text, fraction: Text)
    requires AllDigits(head) && AllDigits(fraction)
    ensures AllDigits(TrimZeros(fraction)) && AllDigits(head + TrimZeros(fraction)) && AllDigits(head + fraction)
    ensures Value(head + fraction)
      == Times(Value(head + TrimZeros(fraction)), Pow10(|fraction| - |TrimZeros(fraction)|))
    ensures TrimZeros(fraction) != [] ==> Value(head + TrimZeros(fraction)) % 10 != 0
  {
    hide Pow10, Times, Value, TrimZeros, Zeros;
    var r := TrimZeros(fraction);
    var z := |fraction| - |r|;
    assert AllDigits(r) by {
      forall i | 0 <= i < |r| ensures IsDigit(r[i]) { assert fraction[i] == r[i]; }
    }
    assert head + fraction == (head + r) + Zeros(z);
    ValueAppend(head + r, Zeros(z));
    ValueZeros(z);
    if r != [] {
      assert (head + r)[|head + r| - 1] == r[|r| - 1];
      LastDigit(head + r);
    }
  }

  lemma LastDigit(t: Text)
    requires AllDigits(t) && t != []
    ensures Value(t) % 10 == t[|t| - 1] - 48
  {}
}

/**
 * `JSON.stringify` of texts, as far as packages/market/src/store.ts orders by it, and the
 * four-digit code units that its escapes and the page cursors share.
 */
module Json {
  import opened Texts
  import opened Outcomes

  const QUOTE: CodeUnit := 34
  const BACKSLASH: CodeUnit := 92
  const LOWER_U: CodeUnit := 117

  // ----------------------------------------------------- four hex digits

  type Nibble = n: nat | n < 16

  function HexDigit(n: Nibble): CodeUnit { if n < 10 then 48 + n else 87 + n }

  predicate IsHexDigit(c: CodeUnit) { 48 <= c <= 57 || 97 <= c <= 102 }

  function NibbleOf(c: CodeUnit): Nibble
    requires IsHexDigit(c)
  {
    if c <= 57 then c - 48 else c - 87
  }

  type Octet = b: nat | b < 256

  function Hex2(b: Octet): (t: Text)
    ensures |t| == 2 && IsHexDigit(t[0]) && IsHexDigit(t[1])
  {
    [HexDigit(b / 16), HexDigit(b % 16)]
  }

  function ParseHex2(x: CodeUnit, y: CodeUnit): Octet
    requires IsHexDigit(x) && IsHexDigit(y)
  {
    NibbleOf(x) as int * 16 + NibbleOf(y)
  }

  /** `charCodeAt(i).toString(16).padStart(4, '0')`. */
  function Hex4(c: CodeUnit): (t: Text)
    ensures |t| == 4 && forall i :: 0 <= i < 4 ==> IsHexDigit(t[i])
  {
    Hex2(c / 256) + Hex2(c % 256)
  }

  /** `Number.parseInt(text, 16)` of four hexadecimal digits. */
  function ParseHex4(t: Text): CodeUnit
    requires |t| == 4 && forall i :: 0 <= i < 4 ==> IsHexDigit(t[i])
  {
    ParseHex2(t[0], t[1]) as int * 256 + ParseHex2(t[2], t[3])
  }

  lemma Hex2RoundTrip(b: Octet)
    ensures ParseHex2(Hex2(b)[0], Hex2(b)[1]) == b
  {}

  lemma ParseHex2RoundTrip(x: CodeUnit, y: CodeUnit)
    requires IsHexDigit(x) && IsHexDigit(y)
    ensures Hex2(ParseHex2(x, y)) == [x, y]
  {
    var b := ParseHex2(x, y);
    assert b / 16 == NibbleOf(x) && b % 16 == NibbleOf(y);
  }

  lemma Hex4RoundTrip(c: CodeUnit)
    ensures ParseHex4(Hex4(c)) == c
  {
    hide Hex2, ParseHex2;
    Hex2RoundTrip(c / 256);
    Hex2RoundTrip(c % 256);
  }

  lemma ParseHex4RoundTrip(t: Text)
    requires |t| == 4 && forall i :: 0 <= i < 4 ==> IsHexDigit(t[i])
    ensures Hex4(ParseHex4(t)) == t
  {
    hide Hex2, ParseHex2;
    var u := ParseHex4(t);
    assert u / 256 == ParseHex2(t[0], t[1]) && u % 256 == ParseHex2(t[2], t[3]);
    ParseHex2RoundTrip(t[0], t[1]);
    ParseHex2RoundTrip(t[2], t[3]);
  }

  // ------------------------------------------------------------- quoting

  predicate IsHigh(c: CodeUnit) { 0xD800 <= c < 0xDC00 }

  predicate IsLow(c: CodeUnit) { 0xDC00 <= c < 0xE000 }

  /** A surrogate without its partner. */
  predicate IsLone(t: Text, i: nat)
    requires i < |t|
  {
    || (IsHigh(t[i]) && !(i + 1 < |t| && IsLow(t[i + 1])))
    || (IsLow(t[i]) && !(i > 0 && IsHigh(t[i - 1])))
  }

  /** The letter after the backslash of a short escape. */
  function ShortLetter(c: CodeUnit): Option<CodeUnit> {
    if c == QUOTE || c == BACKSLASH then Some(c)
    else if c == 8 then Some(98) else if c == 9 then Some(116) else if c == 10 then Some(110)
    else if c == 12 then Some(102) else if c == 13 then Some(114) else None
  }

  function OfShortLetter(letter: CodeUnit): CodeUnit {
    if letter == 98 then 8 else if letter == 116 then 9 else if letter == 110 then 10
    else if letter == 102 then 12 else if letter == 114 then 13 else letter
  }

  function EscapeAt(t: Text, i: nat): Text
    requires i < |t|
  {
    var c := t[i];
    if ShortLetter(c).Some? then [BACKSLASH, ShortLetter(c).value]
    else if c < 32 || IsLone(t, i) then [BACKSLASH, LOWER_U] + Hex4(c)
    else [c]
  }

  function EscapeFrom(t: Text, i: nat): Text
    requires i <= |t|
    decreases |t| - i
  {
    if i == |t| then [] else EscapeAt(t, i) + EscapeFrom(t, i + 1)
  }

  function Quoted(t: Text): Text { [QUOTE] + EscapeFrom(t, 0) + [QUOTE] }

  /** `"`, `\\` and five controls have short escapes, other controls and lone surrogates long ones, the rest none. */
  lemma EscapesAreExact(t: Text, i: nat)
    requires i < |t|
    ensures var e := EscapeAt(t, i);
      if t[i] == 34 then e == [92, 34] else if t[i] == 92 then e == [92, 92]
      else if t[i] == 8 then e == Ascii("\\b") else if t[i] == 9 then e == Ascii("\\t")
      else if t[i] == 10 then e == Ascii("\\n") else if t[i] == 12 then e == Ascii("\\f")
      else if t[i] == 13 then e == Ascii("\\r")
      else if t[i] < 32 || (0xD800 <= t[i] < 0xE000 && !Paired(t, i)) then e == Ascii("\\u") + Hex4(t[i])
      else e == [t[i]]
  {
    hide Hex4;
  }

  /** A surrogate beside its partner. */
  ghost predicate Paired(t: Text, i: nat)
    requires i < |t|
  {
    || (t[i] < 0xDC00 && i + 1 < |t| && 0xDC00 <= t[i + 1] < 0xE000)
    || (t[i] >= 0xDC00 && i > 0 && 0xD800 <= t[i - 1] < 0xDC00)
  }

  /** Four lower-case digits, most significant first. */
  lemma Hex4IsExact(c: CodeUnit)
    ensures Hex4(c) == [DigitFor(c / 4096), DigitFor(c / 256 % 16), DigitFor(c / 16 % 16), DigitFor(c % 16)]
  {
    hide DigitFor, HexDigit;
    assert c / 256 / 16 == c / 4096 && c % 256 / 16 == c / 16 % 16 && c % 256 % 16 == c % 16;
    DigitAt(c / 4096);
    DigitAt(c / 256 % 16);
    DigitAt(c / 16 % 16);
    DigitAt(c % 16);
  }

  function DigitFor(n: Nibble): CodeUnit { Ascii("0123456789abcdef")[n] }

  lemma DigitAt(n: Nibble)
    ensures HexDigit(n) == DigitFor(n)
  {}

  /** Reads one code unit back; how much text it took. */
  function ReadUnit(s: Text): (r: (CodeUnit, nat))
    requires s != []
    ensures 0 < r.1
  {
    if s[0] != BACKSLASH || |s| == 1 then (s[0], 1)
    else if s[1] != LOWER_U then (OfShortLetter(s[1]), 2)
    else if |s| >= 6 && (forall i :: 2 <= i < 6 ==> IsHexDigit(s[i])) then (ParseHex4(s[2..6]), 6)
    else (s[1], 2)
  }

  lemma ReadBackUnit(t: Text, i: nat, rest: Text)
    requires i < |t|
    ensures ReadUnit(EscapeAt(t, i) + rest) == (t[i], |EscapeAt(t, i)|)
    ensures EscapeAt(t, i)[0] != QUOTE
  {
    hide Hex4, ParseHex4, IsLone;
    var c, s := t[i], EscapeAt(t, i) + rest;
    if ShortLetter(c).None? && (c < 32 || IsLone(t, i)) {
      assert s[2..6] == Hex4(c);
      Hex4RoundTrip(c);
      forall k | 2 <= k < 6 ensures IsHexDigit(s[k]) { assert s[k] == Hex4(c)[k - 2]; }
    }
  }

  lemma QuoteEndsEscapes(a: Text, i: nat, x: Text)
    requires i <= |a|
    ensures var s := EscapeFrom(a, i) + [QUOTE] + x;
      && (s[0] == QUOTE <==> i == |a|)
      && (i < |a| ==> s == EscapeAt(a, i) + (EscapeFrom(a, i + 1) + [QUOTE] + x) && EscapeAt(a, i)[0] != QUOTE)
  {
    hide EscapeAt;
    if i < |a| { ReadBackUnit(a, i, []); }
  }

  /** A quoted text can be read back whatever follows it, so quoting is a prefix-free, injective code. */
  lemma {:induction false} SameEscapes(a: Text, i: nat, b: Text, j: nat, x: Text, y: Text)
    requires i <= |a| && j <= |b|
    requires EscapeFrom(a, i) + [QUOTE] + x == EscapeFrom(b, j) + [QUOTE] + y
    ensures a[i..] == b[j..] && x == y
    decreases |a| - i
  {
    hide EscapeAt, ReadUnit, EscapeFrom;
    var s, u := EscapeFrom(a, i) + [QUOTE] + x, EscapeFrom(b, j) + [QUOTE] + y;
    QuoteEndsEscapes(a, i, x);
    QuoteEndsEscapes(b, j, y);
    if i < |a| {
      var rest, rest' := EscapeFrom(a, i + 1) + [QUOTE] + x, EscapeFrom(b, j + 1) + [QUOTE] + y;
      ReadBackUnit(a, i, rest);
      ReadBackUnit(b, j, rest');
      assert rest == s[|EscapeAt(a, i)|..] && rest' == u[|EscapeAt(b, j)|..];
      SameEscapes(a, i + 1, b, j + 1, x, y);
      assert a[i..] == [a[i]] + a[i + 1..] && b[j..] == [b[j]] + b[j + 1..];
    } else {
      NoMoreEscapes(a, b);
      assert x == s[1..] && y == u[1..];
    }
  }

  lemma NoMoreEscapes(a: Text, b: Text)
    ensures EscapeFrom(a, |a|) == [] && EscapeFrom(b, |b|) == []
  {}

  lemma QuotedIsInjective(a: Text, b: Text, x: Text, y: Text)
    requires Quoted(a) + x == Quoted(b) + y
    ensures a == b && x == y
  {
    hide EscapeFrom;
    var s, u := Quoted(a) + x, Quoted(b) + y;
    assert s[1..] == EscapeFrom(a, 0) + [QUOTE] + x && u[1..] == EscapeFrom(b, 0) + [QUOTE] + y;
    SameEscapes(a, 0, b, 0, x, y);
    assert a[0..] == a && b[0..] == b;
  }

  // ------------------------------------------------------------ JSON values

  function NullOr(t: Option<Text>): Text { if t.Some? then Quoted(t.value) else Ascii("null") }

  function TrueFalse(b: bool): Text { if b then Ascii("true") else Ascii("false") }

  lemma NullOrIsInjective(a: Option<Text>, b: Option<Text>, x: Text, y: Text)
    requires NullOr(a) + x == NullOr(b) + y
    ensures a == b && x == y
  {
    hide EscapeFrom;
    var s, u := NullOr(a) + x, NullOr(b) + y;
    assert s[0] == NullOr(a)[0] && u[0] == NullOr(b)[0];
    if a.Some? && b.Some? {
      QuotedIsInjective(a.value, b.value, x, y);
    } else {
      assert a == b;
      assert x == s[4..] && y == u[4..];
    }
  }

  lemma TrueFalseIsInjective(a: bool, b: bool, x: Text, y: Text)
    requires TrueFalse(a) + x == TrueFalse(b) + y
    ensures a == b && x == y
  {
    var s, u := TrueFalse(a) + x, TrueFalse(b) + y;
    assert s[0] == TrueFalse(a)[0] && u[0] == TrueFalse(b)[0];
    assert x == s[|TrueFalse(a)|..] && y == u[|TrueFalse(b)|..];
  }
}

/**
 * Sorting rows by a rank and evicting the rows that come first: what `Array.sort`,
 * `slice`, `Set` and `filter` do together in packages/market/src/storage.ts.
 */
module Ordering {
  import opened Texts

  /** Three numbers and then a text, compared in that order. */
  datatype Rank = Rank(first: nat, second: nat, third: nat, text: Text)

  predicate Before(a: Rank, b: Rank) {
    if a.first != b.first then a.first < b.first
    else if a.second != b.second then a.second < b.second
    else if a.third != b.third then a.third < b.third
    else Less(a.text, b.text)
  }

  lemma BeforeTrichotomy(a: Rank, b: Rank)
    ensures Before(a, b) || a == b || Before(b, a)
    ensures !(Before(a, b) && Before(b, a))
  {
    hide Less;
    LessTrichotomy(a.text, b.text);
  }

  lemma BeforeTransitive(a: Rank, b: Rank, c: Rank)
    requires Before(a, b) && Before(b, c)
    ensures Before(a, c)
  {
    hide Less;
    if a.first == b.first == c.first && a.second == b.second == c.second && a.third == b.third == c.third {
      LessTransitive(a.text, b.text, c.text);
    }
  }

  /** Nothing stands before something of a smaller rank. */
  lemma NotBeforeTransitive(a: Rank, b: Rank, c: Rank)
    requires !Before(b, a) && !Before(c, b)
    ensures !Before(c, a)
  {
    hide Before;
    if Before(c, a) {
      BeforeTrichotomy(a, b);
      if Before(a, b) { BeforeTransitive(c, a, b); }
    }
  }

  // -------------------------------------------------------- stable sorting

  /** Puts `row` behind every row that does not rank after it. */
  function Insert<T>(sorted: seq<T>, row: T, rank: T -> Rank): (r: seq<T>)
    ensures |r| == |sorted| + 1
  {
    var n := |sorted|;
    if n == 0 || !Before(rank(row), rank(sorted[n - 1])) then sorted + [row]
    else Insert(sorted[..n - 1], row, rank) + [sorted[n - 1]]
  }

  function StableSort<T>(rows: seq<T>, rank: T -> Rank): (r: seq<T>)
    ensures |r| == |rows|
  {
    var n := |rows|;
    if n == 0 then [] else Insert(StableSort(rows[..n - 1], rank), rows[n - 1], rank)
  }

  ghost predicate Ranked<T>(rows: seq<T>, rank: T -> Rank) {
    forall i, j :: 0 <= i < j < |rows| ==> !Before(rank(rows[j]), rank(rows[i]))
  }

  lemma {:induction false} InsertKeepsRows<T>(sorted: seq<T>, row: T, rank: T -> Rank)
    ensures multiset(Insert(sorted, row, rank)) == multiset(sorted) + multiset{row}
    decreases |sorted|
  {
    hide Before;
    var n := |sorted|;
    if n > 0 && Before(rank(row), rank(sorted[n - 1])) {
      InsertKeepsRows(sorted[..n - 1], row, rank);
      assert sorted == sorted[..n - 1] + [sorted[n - 1]];
    }
  }

  lemma {:induction false} InsertKeepsRanked<T>(sorted: seq<T>, row: T, rank: T -> Rank)
    requires Ranked(sorted, rank)
    ensures Ranked(Insert(sorted, row, rank), rank)
    decreases |sorted|
  {
    hide Before;
    var n, r := |sorted|, Insert(sorted, row, rank);
    if n == 0 {
    } else if Before(rank(row), rank(sorted[n - 1])) {
      var front := Insert(sorted[..n - 1], row, rank);
      InsertKeepsRanked(sorted[..n - 1], row, rank);
      InsertKeepsRows(sorted[..n - 1], row, rank);
      BeforeTrichotomy(rank(row), rank(sorted[n - 1]));
      forall i | 0 <= i < n ensures !Before(rank(r[n]), rank(r[i])) {
        assert front[i] in multiset(front);
        if front[i] != row {
          assert front[i] in multiset(sorted[..n - 1]);
        }
      }
    } else {
      forall i | 0 <= i < n ensures !Before(rank(r[n]), rank(r[i])) {
        if i < n - 1 { NotBeforeTransitive(rank(sorted[i]), rank(sorted[n - 1]), rank(row)); }
      }
    }
  }

  /** Sorting rearranges the rows into rank order. */
  lemma {:induction false} SortIsRankedPermutation<T>(rows: seq<T>, rank: T -> Rank)
    ensures Ranked(StableSort(rows, rank), rank)
    ensures multiset(StableSort(rows, rank)) == multiset(rows)
    decreases |rows|
  {
    hide Before, Insert;
    var n := |rows|;
    if n > 0 {
      SortIsRankedPermutation(rows[..n - 1], rank);
      InsertKeepsRanked(StableSort(rows[..n - 1], rank), rows[n - 1], rank);
      InsertKeepsRows(StableSort(rows[..n - 1], rank), rows[n - 1], rank);
      assert rows == rows[..n - 1] + [rows[n - 1]];
    }
  }

  lemma SortedRowsAreRows<T>(rows: seq<T>, rank: T -> Rank)
    ensures forall r :: r in StableSort(rows, rank) ==> r in rows
    ensures forall r :: r in rows ==> r in StableSort(rows, rank)
  {
    hide StableSort, Ranked;
    SortIsRankedPermutation(rows, rank);
    assert forall r :: r in StableSort(rows, rank) <==> r in multiset(StableSort(rows, rank));
    assert forall r :: r in rows <==> r in multiset(rows);
  }

  // ------------------------------------------------------------- row keys

  function KeySet<T>(rows: seq<T>, keyOf: T -> Text): (s: set<Text>)
    ensures forall k :: k in s <==> exists i :: 0 <= i < |rows| && keyOf(rows[i]) == k
  {
    set i | 0 <= i < |rows| :: keyOf(rows[i])
  }

  ghost predicate DistinctKeys<T>(rows: seq<T>, keyOf: T -> Text) {
    forall i, j :: 0 <= i < j < |rows| ==> keyOf(rows[i]) != keyOf(rows[j])
  }

  ghost predicate KeysAscend<T>(rows: seq<T>, keyOf: T -> Text) {
    forall i, j :: 0 <= i < j < |rows| ==> Less(keyOf(rows[i]), keyOf(rows[j]))
  }

  lemma AscendingKeysAreDistinct<T>(rows: seq<T>, keyOf: T -> Text)
    requires KeysAscend(rows, keyOf)
    ensures DistinctKeys(rows, keyOf)
  {
    hide Less;
    forall i, j | 0 <= i < j < |rows| ensures keyOf(rows[i]) != keyOf(rows[j]) {
      LessTrichotomy(keyOf(rows[i]), keyOf(rows[i]));
    }
  }

  lemma KeySetAppend<T>(rows: seq<T>, row: T, keyOf: T -> Text)
    ensures KeySet(rows + [row], keyOf) == KeySet(rows, keyOf) + {keyOf(row)}
  {
    var all := rows + [row];
    forall k ensures k in KeySet(all, keyOf) <==> k in KeySet(rows, keyOf) + {keyOf(row)} {
      assert forall i :: 0 <= i < |rows| ==> all[i] == rows[i];
      assert all[|rows|] == row;
    }
  }

  lemma KeySetConcat<T>(a: seq<T>, b: seq<T>, keyOf: T -> Text)
    ensures KeySet(a + b, keyOf) == KeySet(a, keyOf) + KeySet(b, keyOf)
  {
    forall k ensures k in KeySet(a + b, keyOf) <==> k in KeySet(a, keyOf) + KeySet(b, keyOf) {
      assert forall i :: 0 <= i < |a| ==> (a + b)[i] == a[i];
      assert forall i :: 0 <= i < |b| ==> (a + b)[|a| + i] == b[i];
      assert forall i :: |a| <= i < |a + b| ==> (a + b)[i] == b[i - |a|];
    }
  }

  /** Keys are distinct exactly when there are as many of them as rows. */
  lemma {:induction false} DistinctIsCounting<T>(rows: seq<T>, keyOf: T -> Text)
    ensures |KeySet(rows, keyOf)| <= |rows|
    ensures DistinctKeys(rows, keyOf) <==> |KeySet(rows, keyOf)| == |rows|
    decreases |rows|
  {
    hide KeySet;
    if rows != [] {
      var n := |rows| - 1;
      var front, last := rows[..n], rows[n];
      assert rows == front + [last];
      DistinctIsCounting(front, keyOf);
      KeySetAppend(front, last, keyOf);
      assert DistinctKeys(rows, keyOf) <==> DistinctKeys(front, keyOf) && keyOf(last) !in KeySet(front, keyOf);
    } else {
      assert KeySet(rows, keyOf) == {};
    }
  }

  lemma SameRowsSameKeys<T>(a: seq<T>, b: seq<T>, keyOf: T -> Text)
    requires |a| == |b| && forall r :: r in a <==> r in b
    ensures KeySet(a, keyOf) == KeySet(b, keyOf)
    ensures DistinctKeys(a, keyOf) <==> DistinctKeys(b, keyOf)
  {
    forall k ensures k in KeySet(a, keyOf) <==> k in KeySet(b, keyOf) {
      if k in KeySet(a, keyOf) {
        var i :| 0 <= i < |a| && keyOf(a[i]) == k;
        assert a[i] in b;
      }
      if k in KeySet(b, keyOf) {
        var i :| 0 <= i < |b| && keyOf(b[i]) == k;
        assert b[i] in a;
      }
    }
    DistinctIsCounting(a, keyOf);
    DistinctIsCounting(b, keyOf);
  }

  function KeyList<T>(rows: seq<T>, keyOf: T -> Text): seq<Text> {
    seq(|rows|, i requires 0 <= i < |rows| => keyOf(rows[i]))
  }

  /** Ascending rows with the same key set stand under the same keys, place by place. */
  lemma SameKeysSamePlaces<T, U>(a: seq<T>, b: seq<U>, keyA: T -> Text, keyB: U -> Text)
    requires KeysAscend(a, keyA) && KeysAscend(b, keyB) && KeySet(a, keyA) == KeySet(b, keyB)
    ensures KeyList(a, keyA) == KeyList(b, keyB)
  {
    hide Less;
    forall k ensures k in KeyList(a, keyA) <==> k in KeySet(a, keyA) {
      if k in KeySet(a, keyA) { var i :| 0 <= i < |a| && keyA(a[i]) == k; assert KeyList(a, keyA)[i] == k; }
    }
    forall k ensures k in KeyList(b, keyB) <==> k in KeySet(b, keyB) {
      if k in KeySet(b, keyB) { var i :| 0 <= i < |b| && keyB(b[i]) == k; assert KeyList(b, keyB)[i] == k; }
    }
    StrictlySortedUnique(KeyList(a, keyA), KeyList(b, keyB));
  }

  /** A text as a rank. */
  function TextRank(t: Text): Rank { Rank(0, 0, 0, t) }

  /** Sorting rows with distinct keys by those keys puts them in ascending order. */
  lemma SortingAscends<T>(rows: seq<T>, keyOf: T -> Text, rank: T -> Rank)
    requires DistinctKeys(rows, keyOf) && forall r :: r in rows ==> rank(r) == TextRank(keyOf(r))
    ensures KeysAscend(StableSort(rows, rank), keyOf) && |StableSort(rows, rank)| == |rows|
    ensures forall r :: r in StableSort(rows, rank) ==> r in rows
    ensures forall r :: r in rows ==> r in StableSort(rows, rank)
    ensures KeySet(StableSort(rows, rank), keyOf) == KeySet(rows, keyOf)
  {
    hide StableSort, Less, KeySet;
    var sorted := StableSort(rows, rank);
    SortIsRankedPermutation(rows, rank);
    SortedRowsAreRows(rows, rank);
    SameRowsSameKeys(sorted, rows, keyOf);
    forall i, j | 0 <= i < j < |sorted| ensures Less(keyOf(sorted[i]), keyOf(sorted[j])) {
      assert sorted[i] in sorted && sorted[j] in sorted;
      assert rank(sorted[i]) == TextRank(keyOf(sorted[i])) && rank(sorted[j]) == TextRank(keyOf(sorted[j]));
      assert !Before(rank(sorted[j]), rank(sorted[i]));
      LessTrichotomy(keyOf(sorted[i]), keyOf(sorted[j]));
    }
  }

  /** Ascending keys and the same rows mean the same list. */
  lemma {:induction false} AscendingRowsUnique<T>(a: seq<T>, b: seq<T>, keyOf: T -> Text)
    requires KeysAscend(a, keyOf) && KeysAscend(b, keyOf)
    requires forall r :: r in a ==> r in b
    requires forall r :: r in b ==> r in a
    ensures a == b
    decreases |a|
  {
    hide Less;
    assert b != [] ==> b[0] in b;
    if a != [] {
      assert a[0] in a && b != [];
      var k :| 0 <= k < |b| && b[k] == a[0];
      var l :| 0 <= l < |a| && a[l] == b[0];
      LessTrichotomy(keyOf(a[0]), keyOf(b[0]));
      assert a[0] == b[0];
      TailRows(a, b, keyOf);
      TailRows(b, a, keyOf);
      AscendingRowsUnique(a[1..], b[1..], keyOf);
      assert a == [a[0]] + a[1..] && b == [b[0]] + b[1..];
    }
  }

  lemma TailRows<T>(a: seq<T>, b: seq<T>, keyOf: T -> Text)
    requires a != [] && b != [] && a[0] == b[0] && KeysAscend(a, keyOf)
    requires forall r :: r in a ==> r in b
    ensures forall r :: r in a[1..] ==> r in b[1..]
  {
    hide Less;
    forall i | 1 <= i < |a| ensures a[i] in b[1..] {
      LessTrichotomy(keyOf(a[0]), keyOf(a[i]));
      assert a[i] in a && a[i] != a[0];
      var k :| 0 <= k < |b| && b[k] == a[i];
      assert b[1..][k - 1] == a[i];
    }
    assert forall r :: r in a[1..] ==> exists i :: 1 <= i < |a| && a[i] == r;
  }

  /** `[...map.values()].sort(...)` by the map's own keys. */
  function ListByKey<V>(m: map<Text, V>, keys: seq<Text>): (r: seq<V>)
    requires forall k :: k in keys ==> k in m
    ensures |r| == |keys|
    ensures forall i :: 0 <= i < |r| ==> r[i] == m[keys[i]]
  {
    seq(|keys|, i requires 0 <= i < |keys| => m[keys[i]])
  }

  // ------------------------------------------------------------- eviction

  /** `rows.filter((row) => !gone.has(key(row)))`. */
  function Without<T>(rows: seq<T>, gone: set<Text>, keyOf: T -> Text): seq<T> {
    var n := |rows|;
    if n == 0 then []
    else Without(rows[..n - 1], gone, keyOf) + (if keyOf(rows[n - 1]) in gone then [] else [rows[n - 1]])
  }

  /** The rows that go first when only `most` may stay. */
  function Evicted<T>(rows: seq<T>, most: nat, rank: T -> Rank): seq<T>
    requires |rows| > most
  {
    StableSort(rows, rank)[..|rows| - most]
  }

  function Survivors<T>(rows: seq<T>, most: nat, rank: T -> Rank, keyOf: T -> Text): seq<T> {
    if |rows| <= most then rows else Without(rows, KeySet(Evicted(rows, most, rank), keyOf), keyOf)
  }

  lemma {:induction false} WithoutMembers<T>(rows: seq<T>, gone: set<Text>, keyOf: T -> Text)
    ensures forall r :: r in Without(rows, gone, keyOf) ==> r in rows && keyOf(r) !in gone
    ensures forall r :: r in rows && keyOf(r) !in gone ==> r in Without(rows, gone, keyOf)
    decreases |rows|
  {
    if rows != [] {
      var n := |rows| - 1;
      WithoutMembers(rows[..n], gone, keyOf);
      assert rows == rows[..n] + [rows[n]];
    }
  }

  lemma {:induction false} WithoutKeepsDistinct<T>(rows: seq<T>, gone: set<Text>, keyOf: T -> Text)
    requires DistinctKeys(rows, keyOf)
    ensures DistinctKeys(Without(rows, gone, keyOf), keyOf)
    decreases |rows|
  {
    if rows != [] {
      var n := |rows| - 1;
      WithoutKeepsDistinct(rows[..n], gone, keyOf);
      WithoutMembers(rows[..n], gone, keyOf);
      var front := Without(rows[..n], gone, keyOf);
      assert forall r :: r in front ==> r in rows[..n];
      forall i | 0 <= i < |front| ensures keyOf(front[i]) != keyOf(rows[n]) {
        assert front[i] in front;
      }
    }
  }

  lemma {:induction false} WithoutKeepsAscending<T>(rows: seq<T>, gone: set<Text>, keyOf: T -> Text)
    requires KeysAscend(rows, keyOf)
    ensures KeysAscend(Without(rows, gone, keyOf), keyOf)
    decreases |rows|
  {
    hide Less;
    if rows != [] {
      var n := |rows| - 1;
      WithoutKeepsAscending(rows[..n], gone, keyOf);
      WithoutMembers(rows[..n], gone, keyOf);
      var front := Without(rows[..n], gone, keyOf);
      assert forall r :: r in front ==> r in rows[..n];
      forall i | 0 <= i < |front| ensures Less(keyOf(front[i]), keyOf(rows[n])) {
        assert front[i] in front;
      }
    }
  }

  lemma WithoutKeys<T>(rows: seq<T>, gone: set<Text>, keyOf: T -> Text)
    ensures KeySet(Without(rows, gone, keyOf), keyOf) == KeySet(rows, keyOf) - gone
  {
    hide Without;
    WithoutMembers(rows, gone, keyOf);
    var kept := Without(rows, gone, keyOf);
    forall k ensures k in KeySet(kept, keyOf) <==> k in KeySet(rows, keyOf) - gone {
      if k in KeySet(kept, keyOf) {
        var i :| 0 <= i < |kept| && keyOf(kept[i]) == k;
        assert kept[i] in kept;
      }
      if k in KeySet(rows, keyOf) - gone {
        var i :| 0 <= i < |rows| && keyOf(rows[i]) == k;
        assert rows[i] in kept;
      }
    }
  }

  lemma DistinctPrefix<T>(rows: seq<T>, n: nat, keyOf: T -> Text)
    requires n <= |rows| && DistinctKeys(rows, keyOf)
    ensures DistinctKeys(rows[..n], keyOf) && KeySet(rows[..n], keyOf) <= KeySet(rows, keyOf)
  {
    assert rows == rows[..n] + rows[n..];
    KeySetConcat(rows[..n], rows[n..], keyOf);
  }

  lemma EvictedKeys<T>(rows: seq<T>, most: nat, rank: T -> Rank, keyOf: T -> Text)
    requires DistinctKeys(rows, keyOf) && |rows| > most
    ensures |KeySet(Evicted(rows, most, rank), keyOf)| == |rows| - most
    ensures KeySet(Evicted(rows, most, rank), keyOf) <= KeySet(rows, keyOf)
  {
    hide StableSort, KeySet, DistinctKeys;
    var sorted := StableSort(rows, rank);
    SortedRowsAreRows(rows, rank);
    SameRowsSameKeys(sorted, rows, keyOf);
    DistinctPrefix(sorted, |rows| - most, keyOf);
    DistinctIsCounting(sorted[..|rows| - most], keyOf);
  }

  /** With distinct keys, exactly `most` rows survive an eviction. */
  lemma EvictionReachesItsBound<T>(rows: seq<T>, most: nat, rank: T -> Rank, keyOf: T -> Text)
    requires DistinctKeys(rows, keyOf)
    ensures var kept := Survivors(rows, most, rank, keyOf);
      && |kept| == (if |rows| <= most then |rows| else most)
      && DistinctKeys(kept, keyOf)
      && KeySet(kept, keyOf) <= KeySet(rows, keyOf)
      && (forall r :: r in kept ==> r in rows)
      && (KeysAscend(rows, keyOf) ==> KeysAscend(kept, keyOf))
  {
    hide StableSort, KeySet, DistinctKeys, KeysAscend, Evicted, Without;
    if |rows| > most {
      var gone := KeySet(Evicted(rows, most, rank), keyOf);
      var kept := Without(rows, gone, keyOf);
      EvictedKeys(rows, most, rank, keyOf);
      WithoutMembers(rows, gone, keyOf);
      WithoutKeepsDistinct(rows, gone, keyOf);
      WithoutKeys(rows, gone, keyOf);
      DistinctIsCounting(rows, keyOf);
      DistinctIsCounting(kept, keyOf);
      assert Survivors(rows, most, rank, keyOf) == kept;
      assert |kept| == most;
      if KeysAscend(rows, keyOf) { WithoutKeepsAscending(rows, gone, keyOf); }
    }
  }

  lemma SameKeySameRow<T>(rows: seq<T>, a: T, b: T, keyOf: T -> Text)
    requires DistinctKeys(rows, keyOf) && a in rows && b in rows && keyOf(a) == keyOf(b)
    ensures a == b
  {}

  /** What is evicted never ranks after what stays. */
  lemma EvictionTakesTheFirst<T>(rows: seq<T>, most: nat, rank: T -> Rank, keyOf: T -> Text, gone: T, kept: T)
    requires DistinctKeys(rows, keyOf) && gone in rows && kept in Survivors(rows, most, rank, keyOf)
    requires gone !in Survivors(rows, most, rank, keyOf)
    ensures !Before(rank(kept), rank(gone))
  {
    hide StableSort, KeySet, DistinctKeys, Before, Without;
    var sorted, cut := StableSort(rows, rank), |rows| - most;
    var keys := KeySet(sorted[..cut], keyOf);
    WithoutMembers(rows, keys, keyOf);
    SortIsRankedPermutation(rows, rank);
    SortedRowsAreRows(rows, rank);
    var i :| 0 <= i < cut && keyOf(sorted[..cut][i]) == keyOf(gone);
    assert sorted[i] in sorted;
    SameKeySameRow(rows, sorted[i], gone, keyOf);
    assert kept in sorted;
    var j :| 0 <= j < |sorted| && sorted[j] == kept;
    assert i < j;
  }
}
