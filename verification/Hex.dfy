/** packages/core/src/hex.ts: fixed-width integers, hexadecimal text, concatenation. */
module Hex {
  import opened Texts
  import opened Outcomes

  type Byte = b: int | 0 <= b < 256
  type Bytes = seq<Byte>

  datatype HexError = BadHex | NegativeAmount | Overflow

  // ------------------------------------------------------- big-endian

  function Pow256(n: nat): (p: nat)
    ensures p >= 1
  {
    if n == 0 then 1 else 256 * Pow256(n - 1)
  }

  /** The low `width` bytes of a number, most significant first. */
  function BigEndian(value: nat, width: nat): (r: Bytes)
    ensures |r| == width
  {
    if width == 0 then [] else BigEndian(value / 256, width - 1) + [value % 256]
  }

  /** The number big-endian bytes denote. */
  function Number(bytes: Bytes): nat {
    if bytes == [] then 0 else Number(bytes[..|bytes| - 1]) * 256 + bytes[|bytes| - 1]
  }

  lemma {:induction false} NumberOfBigEndian(value: nat, width: nat)
    requires value < Pow256(width)
    ensures Number(BigEndian(value, width)) == value
  {
    if width > 0 {
      NumberOfBigEndian(value / 256, width - 1);
      assert BigEndian(value, width)[..width - 1] == BigEndian(value / 256, width - 1);
    }
  }

  /** Bytes are the big-endian form of the number they denote. */
  lemma {:induction false} BigEndianOfNumber(bytes: Bytes)
    ensures Number(bytes) < Pow256(|bytes|)
    ensures BigEndian(Number(bytes), |bytes|) == bytes
    decreases |bytes|
  {
    if bytes != [] {
      var front := bytes[..|bytes| - 1];
      BigEndianOfNumber(front);
      assert Number(bytes) / 256 == Number(front) && Number(bytes) % 256 == bytes[|bytes| - 1];
    }
  }

  /** Distinct numbers that fit the width have distinct bytes. */
  lemma BigEndianInjective(a: nat, b: nat, width: nat)
    requires a < Pow256(width) && b < Pow256(width) && BigEndian(a, width) == BigEndian(b, width)
    ensures a == b
  {
    NumberOfBigEndian(a, width);
    NumberOfBigEndian(b, width);
  }

  method BigintToBytes(value: int, bytes: nat) returns (r: Result<Bytes, HexError>)
    ensures value < 0 ==> r == Err(NegativeAmount)
    ensures value >= Pow256(bytes) ==> r == Err(Overflow)
    ensures 0 <= value < Pow256(bytes) ==> r == Ok(BigEndian(value, bytes))
  {
    if value < 0 {
      return Err(NegativeAmount);
    }
    var out := new Byte[bytes];
    var rest: nat := value;
    var i := bytes;
    while i > 0
      invariant 0 <= i <= bytes
      invariant BigEndian(value, bytes) == BigEndian(rest, i) + out[i..]
      invariant value < Pow256(bytes) <==> rest < Pow256(i)
    {
      i := i - 1;
      ghost var before := out[i + 1..];
      out[i] := rest % 256;
      assert out[i..] == [out[i]] + before;
      rest := rest / 256;
    }
    assert BigEndian(value, bytes) == out[..] && Pow256(0) == 1;
    if rest != 0 {
      return Err(Overflow);
    }
    return Ok(out[..]);
  }

  // ------------------------------------------------------------- hex text

  predicate IsHexUnit(u: CodeUnit) { 48 <= u <= 57 || 65 <= u <= 70 || 97 <= u <= 102 }

  /** Non-empty, hexadecimal, whole bytes. */
  predicate IsHex(t: Text) {
    t != [] && |t| % 2 == 0 && forall i :: 0 <= i < |t| ==> IsHexUnit(t[i])
  }

  predicate IsHexOf(t: Text, bytes: nat) { IsHex(t) && |t| == bytes * 2 }

  function Nibble(u: CodeUnit): (n: int)
    requires IsHexUnit(u)
    ensures 0 <= n < 16
  {
    if u <= 57 then u - 48 else if u <= 70 then u - 55 else u - 87
  }

  /** An upper-case hexadecimal digit. */
  function HexUnit(n: int): (u: CodeUnit)
    requires 0 <= n < 16
    ensures IsHexUnit(u) && Nibble(u) == n
  {
    if n < 10 then 48 + n else 55 + n
  }

  function BytePair(b: Byte): Text { [HexUnit(b / 16), HexUnit(b % 16)] }

  function ToHex(bytes: Bytes): (t: Text)
    ensures |t| == 2 * |bytes|
  {
    if bytes == [] then [] else ToHex(bytes[..|bytes| - 1]) + BytePair(bytes[|bytes| - 1])
  }

  predicate AllHex(t: Text) { |t| % 2 == 0 && forall i :: 0 <= i < |t| ==> IsHexUnit(t[i]) }

  function FromHex(t: Text): (r: Bytes)
    requires AllHex(t)
    ensures |r| == |t| / 2
  {
    if t == [] then [] else FromHex(t[..|t| - 2]) + [Nibble(t[|t| - 2]) * 16 + Nibble(t[|t| - 1])]
  }

  /** Bytes printed as hex read back as the same bytes. */
  lemma {:induction false} FromToHex(bytes: Bytes)
    ensures AllHex(ToHex(bytes)) && FromHex(ToHex(bytes)) == bytes
    ensures bytes != [] ==> IsHex(ToHex(bytes))
    decreases |bytes|
  {
    if bytes != [] {
      var front := bytes[..|bytes| - 1];
      FromToHex(front);
      var t := ToHex(bytes);
      assert t[..|t| - 2] == ToHex(front);
      assert bytes == front + [bytes[|bytes| - 1]];
    }
  }

  /** Two digits a byte, the high one first, in upper case. */
  lemma {:induction false} HexIsUpperCase(bytes: Bytes, i: nat)
    requires i < |bytes|
    ensures forall u :: u in ToHex(bytes) ==> 48 <= u <= 57 || 65 <= u <= 70
    ensures IsHexUnit(ToHex(bytes)[2 * i]) && IsHexUnit(ToHex(bytes)[2 * i + 1])
    ensures Nibble(ToHex(bytes)[2 * i]) * 16 + Nibble(ToHex(bytes)[2 * i + 1]) == bytes[i]
    decreases |bytes|
  {
    var n := |bytes| - 1;
    if n > 0 { HexIsUpperCase(bytes[..n], if i < n then i else 0); }
  }

  /** The sixteen digits, in either case, by their values. */
  lemma NibblesAreExact(u: CodeUnit)
    ensures IsHexUnit(u) <==> 48 <= u <= 57 || 65 <= u <= 70 || 97 <= u <= 102
    ensures IsHexUnit(u) ==>
      u == Ascii("0123456789ABCDEF")[Nibble(u)] || u == Ascii("0123456789abcdef")[Nibble(u)]
  {}

  method HexToBytes(hex: Text) returns (r: Result<Bytes, HexError>)
    ensures !IsHex(hex) ==> r == Err(BadHex)
    ensures IsHex(hex) ==> r == Ok(FromHex(hex))
  {
    if !IsHex(hex) {
      return Err(BadHex);
    }
    var out := new Byte[|hex| / 2];
    for i := 0 to out.Length
      invariant AllHex(hex[..2 * i]) && out[..i] == FromHex(hex[..2 * i])
    {
      out[i] := Nibble(hex[2 * i]) * 16 + Nibble(hex[2 * i + 1]);
      ghost var t := hex[..2 * i + 2];
      assert t[..|t| - 2] == hex[..2 * i];
      assert out[..i + 1] == out[..i] + [out[i]];
    }
    assert hex[..2 * out.Length] == hex && out[..out.Length] == out[..];
    return Ok(out[..]);
  }

  method BytesToHex(bytes: Bytes) returns (out: Text)
    ensures out == ToHex(bytes)
  {
    out := [];
    for i := 0 to |bytes|
      invariant out == ToHex(bytes[..i])
    {
      out := out + BytePair(bytes[i]);
      assert bytes[..i + 1][..i] == bytes[..i];
    }
    assert bytes[..|bytes|] == bytes;
  }

  // --------------------------------------------------------------- concat

  function Flatten(parts: seq<Bytes>): Bytes {
    if parts == [] then [] else Flatten(parts[..|parts| - 1]) + parts[|parts| - 1]
  }

  function TotalLength(parts: seq<Bytes>): nat {
    if parts == [] then 0 else TotalLength(parts[..|parts| - 1]) + |parts[|parts| - 1]|
  }

  lemma {:induction false} TotalLengthPrefix(parts: seq<Bytes>, i: nat)
    requires i <= |parts|
    ensures TotalLength(parts[..i]) <= TotalLength(parts)
    decreases |parts|
  {
    if i < |parts| {
      TotalLengthPrefix(parts[..|parts| - 1], i);
      assert parts[..|parts| - 1][..i] == parts[..i];
    } else {
      assert parts[..i] == parts;
    }
  }

  /** `out.set(part, offset)`. */
  method SetAt(out: array<Byte>, part: Bytes, offset: nat)
    requires offset + |part| <= out.Length
    modifies out
    ensures out[..offset] == old(out[..offset])
    ensures out[offset..offset + |part|] == part
  {
    for j := 0 to |part|
      invariant forall k :: 0 <= k < offset ==> out[k] == old(out[k])
      invariant forall k :: 0 <= k < j ==> out[offset + k] == part[k]
    {
      out[offset + j] := part[j];
    }
  }

  method Concat(parts: seq<Bytes>) returns (out: array<Byte>)
    ensures fresh(out) && out[..] == Flatten(parts)
  {
    out := new Byte[TotalLength(parts)];
    var offset := 0;
    for p := 0 to |parts|
      invariant offset == TotalLength(parts[..p]) <= out.Length
      invariant out[..offset] == Flatten(parts[..p])
    {
      assert parts[..p + 1][..p] == parts[..p];
      TotalLengthPrefix(parts, p + 1);
      SetAt(out, parts[p], offset);
      assert out[..offset + |parts[p]|] == out[..offset] + out[offset..offset + |parts[p]|];
      offset := offset + |parts[p]|;
    }
    assert parts[..|parts|] == parts;
    assert out[..offset] == out[..];
  }
}
