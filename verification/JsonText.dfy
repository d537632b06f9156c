/**
  JSON texts: the grammar of RFC 8259 as syntax trees with their exact text, and what string
  bodies decode to. One rule is relaxed, as in the parser: after a minus sign the integer part
  of a number may be missing.
 */
module JsonText {
  import opened Options
  import opened Utf8

  const QUOTE: byte := 0x22
  const BACKSLASH: byte := 0x5C
  const COMMA: byte := 0x2C
  const COLON: byte := 0x3A
  const LBRACKET: byte := 0x5B
  const RBRACKET: byte := 0x5D
  const LBRACE: byte := 0x7B
  const RBRACE: byte := 0x7D
  const MINUS: byte := 0x2D
  const PLUS: byte := 0x2B
  const DOT: byte := 0x2E
  const ZERO: byte := 0x30
  const LOWER_E: byte := 0x65
  const UPPER_E: byte := 0x45
  const LOWER_U: byte := 0x75

  // ----- section 2: whitespace -----

  predicate IsWs(b: byte) { b == 0x20 || b == 0x09 || b == 0x0A || b == 0x0D }

  predicate AreWs(s: seq<byte>) { forall i :: 0 <= i < |s| ==> IsWs(s[i]) }

  /** What may stand behind a value: whitespace, a separator, a closing bracket, or the end. */
  predicate IsDelimiter(b: byte) {
    IsWs(b) || b == COMMA || b == COLON || b == RBRACKET || b == RBRACE || b == 0
  }

  // ----- section 6: numbers -----

  predicate IsDigit(b: byte) { 0x30 <= b <= 0x39 }

  predicate AreDigits(s: seq<byte>) { forall i :: 0 <= i < |s| ==> IsDigit(s[i]) }

  /** The exponent part: its marker, its sign if any, and its digits. */
  datatype Exponent = NoExponent | Exponent(marker: byte, sign: seq<byte>, digits: seq<byte>)

  datatype Number = Number(minus: bool, whole: seq<byte>, fraction: seq<byte>, exponent: Exponent)

  predicate IsExponent(e: Exponent) {
    e.Exponent? ==>
      && (e.marker == LOWER_E || e.marker == UPPER_E)
      && (e.sign == [] || e.sign == [PLUS] || e.sign == [MINUS])
      && AreDigits(e.digits) && e.digits != []
  }

  predicate IsNumber(n: Number) {
    && AreDigits(n.whole) && (|n.whole| > 1 ==> n.whole[0] != ZERO) && (n.minus || n.whole != [])
    && AreDigits(n.fraction) && IsExponent(n.exponent)
  }

  function FractionText(fraction: seq<byte>): seq<byte> {
    if fraction == [] then [] else [DOT] + fraction
  }

  function ExponentText(e: Exponent): seq<byte> {
    if e.NoExponent? then [] else [e.marker] + e.sign + e.digits
  }

  function NumberText(n: Number): seq<byte> {
    (if n.minus then [MINUS] else []) + n.whole + FractionText(n.fraction) + ExponentText(n.exponent)
  }

  // ----- section 7: strings -----

  predicate IsHex(b: byte) { IsDigit(b) || 0x41 <= b <= 0x46 || 0x61 <= b <= 0x66 }

  function HexValue(b: byte): (v: nat)
    requires IsHex(b)
    ensures v < 16
  {
    if IsDigit(b) then b - 0x30 else if b <= 0x46 then b - 0x41 + 10 else b - 0x61 + 10
  }

  /** The byte a two-character escape stands for, 0 if there is no such escape. */
  function ShortEscape(b: byte): (v: byte) {
    if b == QUOTE || b == BACKSLASH || b == 0x2F then b
    else if b == 0x62 then 0x08
    else if b == 0x66 then 0x0C
    else if b == 0x6E then 0x0A
    else if b == 0x72 then 0x0D
    else if b == 0x74 then 0x09
    else 0
  }

  /** One step in a string body: the closing quote, a character as is, a short escape, a UTF-16
      unit, or something no string may contain. */
  datatype Piece = Close | Plain(length: nat) | Short(b: byte) | Unit(unit: nat) | Malformed

  predicate HasHex(s: seq<byte>) {
    |s| >= 6 && IsHex(s[2]) && IsHex(s[3]) && IsHex(s[4]) && IsHex(s[5])
  }

  function HexUnit(s: seq<byte>): (u: nat)
    requires HasHex(s)
    ensures u <= 0xFFFF
  {
    HexValue(s[2]) * 4096 + HexValue(s[3]) * 256 + HexValue(s[4]) * 16 + HexValue(s[5])
  }

  function PieceAt(s: seq<byte>): (p: Piece)
    ensures p.Plain? ==> 0 < p.length <= |s|
    ensures p.Short? ==> |s| >= 2
    ensures p.Unit? ==> |s| >= 6 && p.unit <= 0xFFFF
    ensures p.Close? ==> s != []
  {
    if s == [] then Malformed
    else if s[0] == QUOTE then Close
    else if s[0] == BACKSLASH then
      if |s| >= 2 && ShortEscape(s[1]) != 0 then Short(ShortEscape(s[1]))
      else if |s| >= 2 && s[1] == LOWER_U && HasHex(s) then Unit(HexUnit(s))
      else Malformed
    else if s[0] >= 0x20 && CharLength(s) > 0 then Plain(CharLength(s))
    else Malformed
  }

  predicate IsHigh(u: nat) { 0xD800 <= u <= 0xDBFF }

  predicate IsLow(u: nat) { 0xDC00 <= u <= 0xDFFF }

  function Pair(high: nat, low: nat): (code: nat)
    requires IsHigh(high) && IsLow(low)
    ensures 0x10000 <= code <= 0x10FFFF
  {
    0x10000 + (high - 0xD800) * 1024 + (low - 0xDC00)
  }

  /** NUL and unpaired surrogates become U+FFFD. */
  function Replaced(u: nat): (code: nat)
    requires u <= 0xFFFF
    ensures IsScalar(code) && code != 0
  {
    if u == 0 || IsHigh(u) || IsLow(u) then 0xFFFD else u
  }

  /** The bytes a string body decodes to and the body's own length. */
  datatype Decoded = Decoded(bytes: seq<byte>, length: nat)

  function Prepend(bytes: seq<byte>, n: nat, rest: Option<Decoded>): Option<Decoded> {
    if rest.None? then None else Some(Decoded(bytes + rest.value.bytes, n + rest.value.length))
  }

  /** Decode a string body up to its closing quote. */
  function Decode(s: seq<byte>): (d: Option<Decoded>)
    ensures d.Some? ==> |d.value.bytes| <= d.value.length < |s| && s[d.value.length] == QUOTE
    decreases |s|
  {
    match PieceAt(s)
    case Close => Some(Decoded([], 0))
    case Plain(n) => Prepend(s[..n], n, Decode(s[n..]))
    case Short(b) => Prepend([b], 2, Decode(s[2..]))
    case Unit(u) =>
      var next := PieceAt(s[6..]);
      if IsHigh(u) && next.Unit? && IsLow(next.unit) then
        Prepend(Encode(Pair(u, next.unit)), 12, Decode(s[12..]))
      else Prepend(Encode(Replaced(u)), 6, Decode(s[6..]))
    case Malformed => None
  }

  /** A string body: it decodes, and its first unescaped quote is the one put behind it. */
  predicate IsBody(raw: seq<byte>) {
    var d := Decode(raw + [QUOTE]);
    d.Some? && d.value.length == |raw|
  }

  function BodyBytes(raw: seq<byte>): seq<byte>
    requires IsBody(raw)
  {
    Decode(raw + [QUOTE]).value.bytes
  }

  lemma {:induction false} DecodedIsCText(s: seq<byte>)
    ensures Decode(s).Some? ==> IsCText(Decode(s).value.bytes)
    decreases |s|
  {
    match PieceAt(s)
    case Close =>
    case Plain(n) =>
      DecodedIsCText(s[n..]);
      PlainIsCText(s);
      if Decode(s[n..]).Some? { CTextAppend(s[..n], Decode(s[n..]).value.bytes); }
    case Short(b) =>
      DecodedIsCText(s[2..]);
      ShortIsCText(b);
      if Decode(s[2..]).Some? { CTextAppend([b], Decode(s[2..]).value.bytes); }
    case Unit(u) =>
      var next := PieceAt(s[6..]);
      var paired := IsHigh(u) && next.Unit? && IsLow(next.unit);
      var code := if paired then Pair(u, next.unit) else Replaced(u);
      var rest := if paired then s[12..] else s[6..];
      DecodedIsCText(rest);
      EncodeIsWellFormed(code);
      if Decode(rest).Some? { CTextAppend(Encode(code), Decode(rest).value.bytes); }
    case Malformed =>
  }

  lemma PlainIsCText(s: seq<byte>)
    requires PieceAt(s).Plain?
    ensures IsCText(s[..PieceAt(s).length])
  {
    var n := CharLength(s);
    assert CharLength(s[..n]) == n;
    assert s[..n][n..] == [];
  }

  lemma ShortIsCText(b: byte)
    requires 0 < b < 0x80
    ensures IsCText([b])
  {
    assert [b][1..] == [];
  }
}
