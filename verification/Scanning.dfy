/**
  The parser's scanners: whitespace, numbers, keywords, and string bodies that are decoded in
  place. A text is the whole buffer; it ends in a NUL, which stops every scanner.
 */
module Scanning {
  import opened Options
  import opened Utf8
  import opened JsonText

  predicate HasEnd(text: seq<byte>) {
    text != [] && text[|text| - 1] == 0
  }

  // ----- whitespace -----

  const WS_TABLE: seq<byte> := [0x20, 0x09, 0x0A, 0, 0, 0x0D, 0, 0]

  /** The parser's test: a table indexed by the low three bits. */
  predicate Ws(b: byte)
    ensures Ws(b) <==> IsWs(b)
  {
    WS_TABLE[b % 8] == b
  }

  function SkipWs(text: seq<byte>, p: nat): (q: nat)
    requires HasEnd(text) && p < |text|
    ensures p <= q < |text| && !IsWs(text[q])
    ensures forall i :: p <= i < q ==> IsWs(text[i])
    decreases |text| - p
  {
    if Ws(text[p]) then SkipWs(text, p + 1) else p
  }

  // ----- numbers -----

  function ScanDigits(text: seq<byte>, p: nat): (q: nat)
    requires HasEnd(text) && p < |text|
    ensures p <= q < |text| && !IsDigit(text[q])
    ensures forall i :: p <= i < q ==> IsDigit(text[i])
    decreases |text| - p
  {
    if IsDigit(text[p]) then ScanDigits(text, p + 1) else p
  }

  function ScanFraction(text: seq<byte>, p: nat): (r: Option<nat>)
    requires HasEnd(text) && p < |text|
    ensures r.Some? ==> p <= r.value < |text|
  {
    if text[p] != DOT then Some(p)
    else if !IsDigit(text[p + 1]) then None
    else Some(ScanDigits(text, p + 2))
  }

  /** OR with 0x20: upper-case letters become lower case. */
  function Lowered(b: byte): (r: byte) {
    if b / 32 % 2 == 0 then b + 32 else b
  }

  function ScanExponent(text: seq<byte>, p: nat): (r: Option<nat>)
    requires HasEnd(text) && p < |text|
    ensures r.Some? ==> p <= r.value < |text|
  {
    if Lowered(text[p]) != LOWER_E then Some(p)
    else
      var q := if text[p + 1] == MINUS || text[p + 1] == PLUS then p + 2 else p + 1;
      if !IsDigit(text[q]) then None else Some(ScanDigits(text, q))
  }

  /** The end of the number that starts at `p`. */
  function ScanNumber(text: seq<byte>, p: nat): (r: Option<nat>)
    requires HasEnd(text) && p < |text| && (text[p] == MINUS || IsDigit(text[p]))
    ensures r.Some? ==> p < r.value < |text|
  {
    var p1 := if text[p] == MINUS then p + 1 else p;
    if text[p1] == ZERO && IsDigit(text[p1 + 1]) then None
    else
      var r := ScanFraction(text, ScanDigits(text, p1));
      if r.None? then None else ScanExponent(text, r.value)
  }

  // ----- keywords -----

  predicate IsLetter(b: byte) { 0x61 <= b <= 0x7A }

  /** The end of the run of letters that continues at `p`. */
  function ScanLetters(text: seq<byte>, p: nat): (q: nat)
    requires HasEnd(text) && p < |text|
    ensures p <= q < |text| && !IsLetter(text[q])
    ensures forall i :: p <= i < q ==> IsLetter(text[i])
    decreases |text| - p
  {
    if IsLetter(text[p]) then ScanLetters(text, p + 1) else p
  }

  function LetterValue(b: byte): (v: nat)
    requires IsLetter(b)
    ensures v < 26
  {
    b - 0x61
  }

  /** Five bits per letter behind a marker, in 32 bits. */
  function Hash(word: seq<byte>): (h: nat)
    requires forall i :: 0 <= i < |word| ==> IsLetter(word[i])
    ensures h < 0x1_0000_0000
  {
    if word == [] then 31
    else (Hash(word[..|word| - 1]) * 32 + LetterValue(word[|word| - 1])) % 0x1_0000_0000
  }

  // ----- strings -----

  function CopyDown(text: seq<byte>, out: nat, p: nat, n: nat): (r: seq<byte>)
    requires out <= p && p + n <= |text|
    ensures |r| == |text|
  {
    text[..out] + text[p..p + n] + text[out + n..]
  }

  const ESC_TABLE: seq<(byte, byte)> :=
    [(0x6E, 0x0A), (0x72, 0x0D), (0x74, 0x09), (0, 0), (0x2F, 0x2F), (0, 0), (0, 0), (0, 0),
     (0x5C, 0x5C), (0, 0), (0x62, 0x08), (0, 0), (0x66, 0x0C), (0, 0), (0x22, 0x22), (0, 0)]

  /** The byte a two-character escape stands for: a table indexed by four bits of 7 times the
      character, whose entries repeat the character they are for. */
  function TableEscape(b: byte): (r: Option<byte>)
    ensures r == if ShortEscape(b) == 0 then None else Some(ShortEscape(b))
  {
    var n: nat := b;
    var e := ESC_TABLE[n * 7 / 16 % 16];
    if e.0 == b then Some(e.1) else None
  }

  /** The four bytes written for a code point above 0x7F; those it does not need are junk. */
  function FourBytes(code: nat): (s: seq<byte>)
    requires 0x80 <= code <= 0x10FFFF
    ensures |s| == 4
  {
    var shifted := if code <= 0x7FF then code * 4096 else if code <= 0xFFFF then code * 64 else code;
    var lead := if code <= 0x7FF then 0xC0 else if code <= 0xFFFF then 0xE0 else 0xF0;
    [lead + shifted / 262144, 0x80 + shifted / 4096 % 64, 0x80 + shifted / 64 % 64, 0x80 + shifted % 64]
  }

  lemma FourBytesEncode(code: nat)
    requires 0x80 <= code <= 0x10FFFF && IsScalar(code)
    ensures FourBytes(code)[..|Encode(code)|] == Encode(code)
  {
    if code <= 0x7FF {
      TwoShifts(code);
    } else if code <= 0xFFFF {
      OneShift(code);
    }
  }

  lemma TwoShifts(code: nat)
    ensures code * 4096 / 262144 == code / 64 && code * 4096 / 4096 % 64 == code % 64
  {
  }

  lemma OneShift(code: nat)
    ensures code * 64 / 262144 == code / 4096 && code * 64 / 4096 % 64 == code / 64 % 64
    ensures code * 64 / 64 % 64 == code % 64
  {
  }

  function WriteAt(text: seq<byte>, out: nat, bytes: seq<byte>): (r: seq<byte>)
    requires out + |bytes| <= |text|
    ensures |r| == |text|
    ensures forall i :: out + |bytes| <= i < |text| ==> r[i] == text[i]
  {
    text[..out] + bytes + text[out + |bytes|..]
  }

  /** Write a code point in place and say how far the write cursor moves. */
  function WriteCode(text: seq<byte>, out: nat, code: nat): (r: (seq<byte>, nat))
    requires IsScalar(code) && out + 4 <= |text|
    ensures |r.0| == |text| && 1 <= r.1 <= 4
    ensures forall i :: out + 4 <= i < |text| ==> r.0[i] == text[i]
    ensures HasEnd(text) && out + 4 < |text| ==> HasEnd(r.0)
  {
    if code <= 0x7F then (text[out := code], 1) else (WriteAt(text, out, FourBytes(code)), |Encode(code)|)
  }

  /** A multi-byte character does not reach the final NUL. */
  lemma CharEndsInside(text: seq<byte>, p: nat)
    requires HasEnd(text) && p < |text| && 0xC2 <= text[p] <= 0xF4
    ensures p + ScanLength(text[p..]) < |text|
  {
    hide ScanLength;
    ScanAcceptsWellFormed(text[p..]);
    var s := text[p..];
    assert s[|s| - 1] == 0;
  }

  /** Decode a string body in place: `p` reads, `out` writes and never passes it. The result is
      the new text and the position behind the closing quote. */
  function DecodeInPlace(text: seq<byte>, p: nat, out: nat): (r: Option<(seq<byte>, nat)>)
    requires HasEnd(text) && out <= p < |text|
    ensures r.Some? ==> |r.value.0| == |text| && p < r.value.1 < |text| && HasEnd(r.value.0)
    decreases |text| - p, 1
  {
    var c := text[p];
    if c == BACKSLASH then
      var e := TableEscape(text[p + 1]);
      if e.Some? then DecodeInPlace(text[out := e.value], p + 2, out + 1)
      else if text[p + 1] == LOWER_U then DecodeUnit(text, p, out, 0)
      else None
    else if c == QUOTE then Some((text[out := 0], p + 1))
    else if 0x20 <= c <= 0x7F then DecodeInPlace(text[out := c], p + 1, out + 1)
    else if 0xC2 <= c <= 0xF4 then
      var n := ScanLength(text[p..]);
      CharEndsInside(text, p);
      if n == 0 then None else DecodeInPlace(CopyDown(text, out, p, n), p + n, out + n)
    else None
  }

  lemma HexEndsInside(text: seq<byte>, p: nat)
    requires HasEnd(text) && p < |text|
    ensures HasHex(text[p..]) ==> p + 6 < |text|
  {
    assert HasHex(text[p..]) ==> text[p..][5] == text[p + 5];
  }

  /** Write U+FFFD for a high surrogate that stays alone. */
  function FlushHigh(text: seq<byte>, out: nat, alone: bool): (r: (seq<byte>, nat))
    requires out + 3 <= |text|
    ensures |r.0| == |text| && out <= r.1 <= out + 3
    ensures forall i :: out + 3 <= i < |text| ==> r.0[i] == text[i]
    ensures HasEnd(text) && out + 3 < |text| ==> HasEnd(r.0)
  {
    if alone then (WriteAt(text, out, [0xEF, 0xBF, 0xBD]), out + 3) else (text, out)
  }

  /** The code point of a unit behind `high`. */
  function CodeOf(high: nat, unit: nat): (code: nat)
    requires unit <= 0xFFFF && (high == 0 || 0x10000 <= high <= 0x10FC00)
    ensures IsScalar(code)
  {
    if high != 0 && IsLow(unit) then high + (unit - 0xDC00) else Replaced(unit)
  }

  /** Decode a `\u` escape at `p`; `high` is what a preceding high surrogate contributes. */
  function DecodeUnit(text: seq<byte>, p: nat, out: nat, high: nat): (r: Option<(seq<byte>, nat)>)
    requires HasEnd(text) && out <= p && p + 1 < |text| && text[p] == BACKSLASH && text[p + 1] == LOWER_U
    requires high == 0 || (0x10000 <= high <= 0x10FC00 && out + 6 <= p)
    ensures r.Some? ==> |r.value.0| == |text| && p < r.value.1 < |text| && HasEnd(r.value.0)
    decreases |text| - p, 0
  {
    HexEndsInside(text, p);
    if !HasHex(text[p..]) then None
    else
      var unit := HexUnit(text[p..]);
      var paired := high != 0 && IsLow(unit);
      var (text1, out1) := FlushHigh(text, out, high != 0 && !paired);
      if !paired && IsHigh(unit) && text1[p + 6] == BACKSLASH && text1[p + 7] == LOWER_U then
        DecodeUnit(text1, p + 6, out1, 0x10000 + (unit - 0xD800) * 1024)
      else
        var (text2, n) := WriteCode(text1, out1, CodeOf(high, unit));
        DecodeInPlace(text2, p + 6, out1 + n)
  }
}
