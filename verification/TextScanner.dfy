/**
  The parser's loops over the buffer: reading ahead, and decoding a string in place.
 */
module TextScanner {
  import opened Options
  import opened Utf8
  import opened JsonText
  import opened Scanning
  import opened Recognizing

  method SkipSpaces(str: array<byte>, p: nat) returns (q: nat)
    requires HasEnd(str[..]) && p < str.Length
    ensures q == SkipWs(str[..], p)
  {
    q := p;
    while Ws(str[q])
      invariant p <= q < str.Length && SkipWs(str[..], q) == SkipWs(str[..], p)
      decreases str.Length - q
    {
      q := q + 1;
    }
  }

  method SkipDigits(str: array<byte>, p: nat) returns (q: nat)
    requires HasEnd(str[..]) && p < str.Length
    ensures q == ScanDigits(str[..], p)
  {
    q := p;
    while IsDigit(str[q])
      invariant p <= q < str.Length && ScanDigits(str[..], q) == ScanDigits(str[..], p)
      decreases str.Length - q
    {
      q := q + 1;
    }
  }

  method FractionEnd(str: array<byte>, p: nat) returns (r: Option<nat>)
    requires HasEnd(str[..]) && p < str.Length
    ensures r == ScanFraction(str[..], p)
  {
    if str[p] != DOT { return Some(p); }
    if !IsDigit(str[p + 1]) { return None; }
    var q := SkipDigits(str, p + 2);
    r := Some(q);
  }

  method ExponentEnd(str: array<byte>, p: nat) returns (r: Option<nat>)
    requires HasEnd(str[..]) && p < str.Length
    ensures r == ScanExponent(str[..], p)
  {
    if Lowered(str[p]) != LOWER_E { return Some(p); }
    var q := p + 1;
    if str[q] == MINUS || str[q] == PLUS { q := q + 1; }
    if !IsDigit(str[q]) { return None; }
    q := SkipDigits(str, q);
    r := Some(q);
  }

  method NumberEnd(str: array<byte>, p: nat) returns (r: Option<nat>)
    requires HasEnd(str[..]) && p < str.Length && (str[p] == MINUS || IsDigit(str[p]))
    ensures r == ScanNumber(str[..], p)
  {
    hide ScanFraction, ScanExponent, ScanDigits;
    var q := p;
    if str[q] == MINUS { q := q + 1; }
    if str[q] == ZERO && IsDigit(str[q + 1]) { return None; }
    q := SkipDigits(str, q);
    r := FractionEnd(str, q);
    if r.Some? {
      r := ExponentEnd(str, r.value);
    }
  }

  /** The end of a word and its hash, in 32 bits. */
  method WordEnd(str: array<byte>, p: nat) returns (e: nat, v: nat)
    requires HasEnd(str[..]) && p < str.Length && IsLetter(str[p])
    ensures e == ScanLetters(str[..], p + 1) && v == Hash(str[..][p..e])
  {
    var text := str[..];
    e, v := p + 1, (31 * 32 + LetterValue(str[p])) % 0x1_0000_0000;
    assert text[p..e] == [] + [text[p]];
    HashStep([], text[p]);
    while IsLetter(str[e])
      invariant p < e < str.Length && ScanLetters(text, e) == ScanLetters(text, p + 1)
      invariant AreLetters(text[p..e]) && v == Hash(text[p..e])
      decreases str.Length - e
    {
      HashStep(text[p..e], text[e]);
      assert text[p..e + 1] == text[p..e] + [text[e]];
      v := (v * 32 + LetterValue(str[e])) % 0x1_0000_0000;
      e := e + 1;
    }
  }

  // ----- characters as they are -----

  lemma CopiedDown(text: seq<byte>, out: nat, p: nat, n: nat, text': seq<byte>)
    requires out <= p && p + n <= |text| && |text'| == |text|
    requires forall i :: 0 <= i < out || out + n <= i < |text| ==> text'[i] == text[i]
    requires forall i :: out <= i < out + n ==> text'[i] == text[p + (i - out)]
    ensures text' == CopyDown(text, out, p, n)
  {
  }

  /** Copy a multi-byte character down while checking it. */
  method CopyChar(str: array<byte>, p: nat, out: nat) returns (n: nat)
    requires HasEnd(str[..]) && out <= p < str.Length && 0xC2 <= str[p] <= 0xF4
    modifies str
    ensures n == ScanLength(old(str[..])[p..])
    ensures n > 0 ==> p + n <= str.Length && str[..] == CopyDown(old(str[..]), out, p, n)
  {
    hide ScanTail, ExtraBytes, FirstCode, CopyDown, IsProper;
    ghost var text := str[..];
    ghost var s := text[p..];
    var len: nat, code: nat := ExtraBytes(str[p]), FirstCode(str[p]);
    str[out] := str[p];
    n := 1;
    while code <= 0x1FFFFF
      invariant 1 <= n < |s| && code > 0 && ScanTail(s, n, code) == ScanTail(s, 1, FirstCode(s[0]))
      invariant forall i :: 0 <= i < out || out + n <= i < str.Length ==> str[i] == text[i]
      invariant forall i :: out <= i < out + n ==> str[i] == text[p + (i - out)]
      decreases 0x200000 - code
    {
      var b := str[p + n];
      assert b == s[n];
      TailSteps(s, n, code);
      if !IsTail(b) { return 0; }
      code := code * 64 + b % 64;
      str[out + n] := b;
      n := n + 1;
    }
    TailSteps(s, n, code);
    if !IsProper(code % 0x200000, len) { return 0; }
    CopiedDown(text, out, p, n, str[..]);
  }

  // ----- escapes -----

  /** The digits read so far behind a marker, four bits each. */
  function Marked(s: seq<byte>, k: nat): (v: nat)
    requires |s| >= k + 2 && forall i :: 2 <= i < k + 2 ==> IsHex(s[i])
  {
    if k == 0 then 1 else Marked(s, k - 1) * 16 + HexValue(s[k + 1])
  }

  lemma MarkedShows(s: seq<byte>, k: nat)
    requires k <= 4 && |s| >= k + 2 && forall i :: 2 <= i < k + 2 ==> IsHex(s[i])
    ensures Marked(s, k) <= 0xFFFF <==> k < 4
    ensures k == 4 ==> HasHex(s) && Marked(s, k) % 0x10000 == HexUnit(s)
  {
    MarkedBound(s, k);
    if k == 4 {
      assert Marked(s, 4) == Marked(s, 3) * 16 + HexValue(s[5]);
      assert Marked(s, 3) == Marked(s, 2) * 16 + HexValue(s[4]);
      assert Marked(s, 2) == Marked(s, 1) * 16 + HexValue(s[3]);
      assert Marked(s, 1) == 16 + HexValue(s[2]);
      hide Marked, HexValue, IsHex;
      assert Marked(s, 4) == 0x10000 + HexUnit(s);
    }
  }

  lemma {:induction false} MarkedBound(s: seq<byte>, k: nat)
    requires k <= 4 && |s| >= k + 2 && forall i :: 2 <= i < k + 2 ==> IsHex(s[i])
    ensures Marked(s, k) >= [1, 16, 0x100, 0x1000, 0x10000][k]
    ensures Marked(s, k) < 2 * [1, 16, 0x100, 0x1000, 0x10000][k]
    decreases k
  {
    hide HexValue, IsHex;
    if k > 0 {
      MarkedBound(s, k - 1);
    }
  }

  /** The UTF-16 unit of the escape at `p`. */
  method ReadUnit(str: array<byte>, p: nat) returns (unit: Option<nat>)
    requires HasEnd(str[..]) && p + 1 < str.Length && str[p] == BACKSLASH && str[p + 1] == LOWER_U
    ensures unit == if HasHex(str[..][p..]) then Some(HexUnit(str[..][p..])) else None
  {
    ghost var s := str[..][p..];
    assert s[1] == str[p + 1] && s[|s| - 1] == 0;
    var code, k := 1, 0;
    while code <= 0xFFFF
      invariant k <= 4 && |s| > k + 2 && (forall i :: 2 <= i < k + 2 ==> IsHex(s[i])) && code == Marked(s, k)
      decreases 4 - k
    {
      MarkedShows(s, k);
      var c := str[p + 2 + k];
      assert c == s[k + 2];
      if IsDigit(c) {
        code := code * 16 + (c - 0x30);
      } else if 0x61 <= Lowered(c) <= 0x66 {
        code := code * 16 + (Lowered(c) - 0x61 + 10);
      } else {
        return None;
      }
      k := k + 1;
    }
    MarkedShows(s, k);
    unit := Some(code % 0x10000);
  }

  method WriteCodePoint(str: array<byte>, out: nat, code: nat) returns (n: nat)
    requires IsScalar(code) && out + 4 <= str.Length
    modifies str
    ensures (str[..], n) == WriteCode(old(str[..]), out, code)
  {
    if code <= 0x7F {
      str[out] := code;
      n := 1;
    } else {
      n := if code <= 0x7FF then 2 else if code <= 0xFFFF then 3 else 4;
      var bytes := FourBytes(code);
      str[out], str[out + 1], str[out + 2], str[out + 3] := bytes[0], bytes[1], bytes[2], bytes[3];
      assert str[..] == WriteAt(old(str[..]), out, bytes);
    }
  }

  /** What a low surrogate behind a high one does. */
  lemma PairedUnitSteps(text: seq<byte>, p: nat, out: nat, high: nat)
    requires HasEnd(text) && out + 6 <= p && p + 6 < |text| && text[p] == BACKSLASH && text[p + 1] == LOWER_U
    requires 0x10000 <= high <= 0x10FC00 && HasHex(text[p..]) && IsLow(HexUnit(text[p..]))
    ensures var (text2, n) := WriteCode(text, out, high + (HexUnit(text[p..]) - 0xDC00));
            HasEnd(text2) && out + n <= p + 6 && DecodeUnit(text, p, out, high) == DecodeInPlace(text2, p + 6, out + n)
  {
    hide DecodeInPlace, HasHex, HexUnit, Replaced, WriteCode;
  }

  /** What any other unit does, once a high surrogate before it has been flushed. */
  lemma SingleUnitSteps(text: seq<byte>, p: nat, out: nat, high: nat)
    requires HasEnd(text) && out <= p && p + 6 < |text| && text[p] == BACKSLASH && text[p + 1] == LOWER_U
    requires high == 0 || (0x10000 <= high <= 0x10FC00 && out + 6 <= p)
    requires HasHex(text[p..]) && (high == 0 || !IsLow(HexUnit(text[p..])))
    ensures var unit := HexUnit(text[p..]);
            var (text1, out1) := FlushHigh(text, out, high != 0);
            && HasEnd(text1) && out1 <= p && text1[p..] == text[p..]
            && if IsHigh(unit) && text1[p + 6] == BACKSLASH && text1[p + 7] == LOWER_U then
                 DecodeUnit(text, p, out, high) == DecodeUnit(text1, p + 6, out1, 0x10000 + (unit - 0xD800) * 1024)
               else
                 var (text2, n) := WriteCode(text1, out1, Replaced(unit));
                 && HasEnd(text2) && out1 + n <= p + 6
                 && DecodeUnit(text, p, out, high) == DecodeInPlace(text2, p + 6, out1 + n)
  {
    hide DecodeInPlace, HasHex, HexUnit, Replaced, WriteCode;
  }

  method FlushSurrogate(str: array<byte>, out: nat, alone: bool) returns (out': nat)
    requires out + 3 <= str.Length
    modifies str
    ensures (str[..], out') == FlushHigh(old(str[..]), out, alone)
  {
    out' := out;
    if alone {
      str[out], str[out + 1], str[out + 2] := 0xEF, 0xBF, 0xBD;
      assert str[..] == WriteAt(old(str[..]), out, [0xEF, 0xBF, 0xBD]);
      out' := out + 3;
    }
  }

  /** Decode the run of `\u` escapes at `p`: all but the last are high surrogates. */
  method DecodeUnits(str: array<byte>, p: nat, out: nat) returns (ok: bool, p': nat, out': nat)
    requires HasEnd(str[..]) && out <= p && p + 1 < str.Length && str[p] == BACKSLASH && str[p + 1] == LOWER_U
    modifies str
    ensures ok ==> HasEnd(str[..]) && out' <= p' && p < p' < str.Length
    ensures DecodeUnit(old(str[..]), p, out, 0) == if ok then DecodeInPlace(str[..], p', out') else None
  {
    hide DecodeInPlace, DecodeUnit, HasHex, HexUnit, Replaced, WriteCode, FlushHigh;
    ghost var goal := DecodeUnit(str[..], p, out, 0);
    var high: nat := 0;
    p', out' := p, out;
    while true
      invariant HasEnd(str[..]) && p <= p' && out' <= p' && p' + 1 < str.Length
      invariant str[p'] == BACKSLASH && str[p' + 1] == LOWER_U
      invariant high == 0 || (0x10000 <= high <= 0x10FC00 && out' + 6 <= p')
      invariant goal == DecodeUnit(str[..], p', out', high)
      decreases str.Length - p'
    {
      ghost var text := str[..];
      HexEndsInside(text, p');
      var unit := ReadUnit(str, p');
      if unit.None? {
        NoUnit(text, p', out', high);
        ok := false;
        return;
      }
      var code := unit.value;
      if high != 0 && IsLow(code) {
        PairedUnitSteps(text, p', out', high);
      } else {
        SingleUnitSteps(text, p', out', high);
      }
      p' := p' + 6;
      if high != 0 && IsLow(code) {
        code := high + (code - 0xDC00);
      } else {
        out' := FlushSurrogate(str, out', high != 0);
        if IsHigh(code) && str[p'] == BACKSLASH && str[p' + 1] == LOWER_U {
          high := 0x10000 + (code - 0xD800) * 1024;
          continue;
        }
        code := Replaced(code);
      }
      var n := WriteCodePoint(str, out', code);
      out' := out' + n;
      ok := true;
      return;
    }
  }

  lemma NoUnit(text: seq<byte>, p: nat, out: nat, high: nat)
    requires HasEnd(text) && out <= p && p + 1 < |text| && text[p] == BACKSLASH && text[p + 1] == LOWER_U
    requires high == 0 || (0x10000 <= high <= 0x10FC00 && out + 6 <= p)
    requires !HasHex(text[p..])
    ensures DecodeUnit(text, p, out, high).None?
  {
  }

  /** What one step inside a string does. */
  lemma InPlaceSteps(text: seq<byte>, p: nat, out: nat)
    requires HasEnd(text) && out <= p < |text|
    ensures var c := text[p]; var r := DecodeInPlace(text, p, out);
            if c == BACKSLASH then
              var e := TableEscape(text[p + 1]);
              if e.Some? then p + 2 < |text| && HasEnd(text[out := e.value]) &&
                 r == DecodeInPlace(text[out := e.value], p + 2, out + 1)
              else if text[p + 1] == LOWER_U then r == DecodeUnit(text, p, out, 0)
              else r.None?
            else if c == QUOTE then r == Some((text[out := 0], p + 1))
            else if 0x20 <= c <= 0x7F then HasEnd(text[out := c]) && r == DecodeInPlace(text[out := c], p + 1, out + 1)
            else if 0xC2 <= c <= 0xF4 then
              var n := ScanLength(text[p..]);
              && p + n < |text|
              && if n == 0 then r.None?
                 else HasEnd(CopyDown(text, out, p, n)) && r == DecodeInPlace(CopyDown(text, out, p, n), p + n, out + n)
            else r.None?
  {
    hide DecodeUnit, ScanLength;
    if 0xC2 <= text[p] <= 0xF4 {
      CharEndsInside(text, p);
    }
  }

  /** Decode the escape at `p`. */
  method DecodeEscape(str: array<byte>, p: nat, out: nat) returns (ok: bool, p': nat, out': nat)
    requires HasEnd(str[..]) && out <= p < str.Length && str[p] == BACKSLASH
    modifies str
    ensures ok ==> HasEnd(str[..]) && out' <= p' && p < p' < str.Length
    ensures DecodeInPlace(old(str[..]), p, out) == if ok then DecodeInPlace(str[..], p', out') else None
  {
    hide DecodeInPlace, DecodeUnit, ScanLength, TableEscape, ShortEscape, CopyDown;
    InPlaceSteps(str[..], p, out);
    var esc := TableEscape(str[p + 1]);
    if esc.Some? {
      str[out] := esc.value;
      assert str[..] == old(str[..])[out := esc.value];
      ok, p', out' := true, p + 2, out + 1;
    } else if str[p + 1] == LOWER_U {
      ok, p', out' := DecodeUnits(str, p, out);
    } else {
      ok, p', out' := false, p, out;
    }
  }

  /** Decode the character at `p`, which is neither an escape nor the closing quote. */
  method DecodeChar(str: array<byte>, p: nat, out: nat) returns (ok: bool, p': nat, out': nat)
    requires HasEnd(str[..]) && out <= p < str.Length && str[p] != BACKSLASH && str[p] != QUOTE
    modifies str
    ensures ok ==> HasEnd(str[..]) && out' <= p' && p < p' < str.Length
    ensures DecodeInPlace(old(str[..]), p, out) == if ok then DecodeInPlace(str[..], p', out') else None
  {
    hide DecodeInPlace, ScanLength, CopyDown;
    InPlaceSteps(str[..], p, out);
    var c := str[p];
    if 0x20 <= c <= 0x7F {
      str[out] := c;
      assert str[..] == old(str[..])[out := c];
      ok, p', out' := true, p + 1, out + 1;
    } else if 0xC2 <= c <= 0xF4 {
      var n := CopyChar(str, p, out);
      ok, p', out' := n > 0, p + n, out + n;
    } else {
      ok, p', out' := false, p, out;
    }
  }

  /** Decode the string body at `p` in place. */
  method DecodeString(str: array<byte>, p: nat) returns (ok: bool, e: nat)
    requires HasEnd(str[..]) && p < str.Length
    modifies str
    ensures var d := DecodeInPlace(old(str[..]), p, p);
            ok == d.Some? && (ok ==> str[..] == d.value.0 && e == d.value.1)
  {
    hide DecodeInPlace;
    ghost var goal := DecodeInPlace(str[..], p, p);
    var out: nat := p;
    e := p;
    while str[e] != QUOTE
      invariant HasEnd(str[..]) && out <= e < str.Length && goal == DecodeInPlace(str[..], e, out)
      decreases str.Length - e
    {
      if str[e] == BACKSLASH {
        ok, e, out := DecodeEscape(str, e, out);
      } else {
        ok, e, out := DecodeChar(str, e, out);
      }
      if !ok { return; }
    }
    ghost var text := str[..];
    InPlaceSteps(text, e, out);
    str[out] := 0;
    assert str[..] == text[out := 0];
    e, ok := e + 1, true;
  }
}
