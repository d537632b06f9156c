/**
  Escaping text for a response, and reading it back.
 */
module Escaping {
  import opened Options
  import opened Utf8
  import opened JsonText
  import opened Recognizing

  const HEX: seq<byte> :=
    [0x30, 0x31, 0x32, 0x33, 0x34, 0x35, 0x36, 0x37, 0x38, 0x39, 0x61, 0x62, 0x63, 0x64, 0x65, 0x66]

  predicate IsPlainByte(c: byte) { c >= 0x20 && c != BACKSLASH && c != QUOTE }

  /** The letter of a two-character escape, 0 if the byte has none. */
  function EscapeLetter(c: byte): (l: byte)
    ensures l != 0 ==> ShortEscape(l) == c
  {
    if c == QUOTE || c == BACKSLASH then c
    else if c == 0x08 then 0x62
    else if c == 0x0C then 0x66
    else if c == 0x0A then 0x6E
    else if c == 0x0D then 0x72
    else if c == 0x09 then 0x74
    else 0
  }

  function EscapeByte(c: byte): (s: seq<byte>)
    ensures 1 <= |s| <= 6
  {
    var n: nat := c;
    if IsPlainByte(c) then [c]
    else if EscapeLetter(c) != 0 then [BACKSLASH, EscapeLetter(c)]
    else [BACKSLASH, LOWER_U, ZERO, ZERO, HEX[n / 16 % 16], HEX[n % 16]]
  }

  function Escape(s: seq<byte>): (t: seq<byte>) {
    if s == [] then [] else EscapeByte(s[0]) + Escape(s[1..])
  }

  lemma {:induction false} EscapePlain(a: seq<byte>, b: seq<byte>)
    requires forall i :: 0 <= i < |a| ==> IsPlainByte(a[i])
    ensures Escape(a + b) == a + Escape(b)
    decreases |a|
  {
    hide Escape, EscapeByte;
    if a == [] {
      assert a + b == b;
    } else {
      EscapePlain(a[1..], b);
      EscapeCons(a[0], a[1..] + b);
      assert a + b == [a[0]] + (a[1..] + b);
      assert a + Escape(b) == [a[0]] + (a[1..] + Escape(b));
      PlainEscape(a[0]);
    }
  }

  lemma EscapeCons(c: byte, s: seq<byte>)
    ensures Escape([c] + s) == EscapeByte(c) + Escape(s)
  {
    hide EscapeByte;
    assert ([c] + s)[1..] == s;
  }

  lemma PlainEscape(c: byte)
    requires IsPlainByte(c)
    ensures EscapeByte(c) == [c]
  {
  }

  /** One character, and what escaping makes of it. */
  lemma EscapeStarts(s: seq<byte>)
    requires IsCText(s) && s != []
    ensures var n := CharLength(s);
            Escape(s) == (if IsPlainByte(s[0]) then s[..n] else EscapeByte(s[0])) + Escape(s[n..])
  {
    CharIsPlain(s);
    hide CharLength, IsCText, Escape, EscapeByte;
    var n := CharLength(s);
    if IsPlainByte(s[0]) {
      assert s == s[..n] + s[n..];
      EscapePlain(s[..n], s[n..]);
    } else {
      assert s == [s[0]] + s[1..];
      EscapeCons(s[0], s[1..]);
    }
  }

  /** A character is of one byte if it has to be escaped, and otherwise none of its bytes has. */
  lemma CharIsPlain(s: seq<byte>)
    requires IsCText(s) && s != []
    ensures var n := CharLength(s);
            if IsPlainByte(s[0]) then forall i :: 0 <= i < n ==> IsPlainByte(s[i]) else n == 1
  {
    hide IsCText;
    assert CharLength(s) > 0 by { CTextStarts(s); }
  }

  lemma HexShows(c: byte)
    requires c < 0x20
    ensures var t := [BACKSLASH, LOWER_U, ZERO, ZERO, HEX[c as nat / 16 % 16], HEX[c as nat % 16]];
            HasHex(t) && HexUnit(t) == c
  {
  }

  /** What was escaped decodes to the text, whatever follows the closing quote. */
  lemma {:induction false} EscapeRoundTrip(s: seq<byte>, rest: seq<byte>)
    requires IsCText(s)
    ensures Decode(Escape(s) + [QUOTE] + rest) == Some(Decoded(s, |Escape(s)|))
    decreases |s|
  {
    hide Decode, EscapeByte, CharLength, IsCText;
    var t := Escape(s) + [QUOTE] + rest;
    if s == [] {
      assert t == [QUOTE] + rest;
      ClosingQuote(t);
    } else {
      hide Escape;
      var n := CharLength(s);
      CTextStarts(s);
      var head := if IsPlainByte(s[0]) then s[..n] else EscapeByte(s[0]);
      var tail := Escape(s[n..]) + [QUOTE] + rest;
      EscapeStarts(s);
      EscapeRoundTrip(s[n..], rest);
      assert t == head + tail;
      HeadDecodes(s, head, tail);
      assert s[..n] + s[n..] == s;
    }
  }

  lemma ClosingQuote(t: seq<byte>)
    requires t != [] && t[0] == QUOTE
    ensures Decode(t) == Some(Decoded([], 0))
  {
  }

  /** The first character decodes to itself. */
  lemma HeadDecodes(s: seq<byte>, head: seq<byte>, tail: seq<byte>)
    requires IsCText(s) && s != []
    requires head == if IsPlainByte(s[0]) then s[..CharLength(s)] else EscapeByte(s[0])
    ensures Decode(head + tail) == Prepend(s[..CharLength(s)], |head|, Decode(tail))
  {
    hide Decode, CharLength, IsCText;
    var n := CharLength(s);
    var t := head + tail;
    assert t[|head|..] == tail && t[..|head|] == head;
    CTextStarts(s);
    if IsPlainByte(s[0]) {
      PlainDecodes(s, t, n);
    } else {
      ControlIsAlone(s);
      if EscapeLetter(s[0]) != 0 {
        ShortDecodes(s[0], t);
      } else {
        UnitDecodes(s[0], t);
      }
    }
  }

  lemma CTextStarts(s: seq<byte>)
    requires IsCText(s) && s != []
    ensures CharLength(s) > 0 && IsCText(s[CharLength(s)..])
  {
    hide CharLength;
  }

  lemma ControlIsAlone(s: seq<byte>)
    requires IsCText(s) && s != [] && !IsPlainByte(s[0])
    ensures CharLength(s) == 1 && s[..1] == [s[0]] && s[0] != 0
  {
  }

  lemma PlainDecodes(s: seq<byte>, t: seq<byte>, n: nat)
    requires s != [] && IsPlainByte(s[0]) && n == CharLength(s) > 0 && n <= |t| && t[..n] == s[..n]
    ensures Decode(t) == Prepend(s[..n], n, Decode(t[n..]))
  {
    hide CharLength;
    assert forall i :: 0 <= i < n ==> t[i] == t[..n][i] && s[i] == s[..n][i];
    CharIsLocal(s, t);
    assert PieceAt(t) == Plain(n);
  }

  lemma ShortDecodes(c: byte, t: seq<byte>)
    requires EscapeLetter(c) != 0 && c != 0 && |t| >= 2 && t[..2] == [BACKSLASH, EscapeLetter(c)]
    ensures Decode(t) == Prepend([c], 2, Decode(t[2..]))
  {
    hide ShortEscape, EscapeLetter;
    assert t[0] == t[..2][0] && t[1] == t[..2][1];
    assert PieceAt(t) == Short(c);
  }

  lemma UnitDecodes(c: byte, t: seq<byte>)
    requires 0 < c < 0x20 && EscapeLetter(c) == 0 && |t| >= 6 && t[..6] == EscapeByte(c)
    ensures Decode(t) == Prepend([c], 6, Decode(t[6..]))
  {
    assert PieceAt(t) == Unit(c) by { UnitStarts(c, t); }
    hide PieceAt;
    assert Replaced(c) == c && Encode(c) == [c];
  }

  lemma UnitStarts(c: byte, t: seq<byte>)
    requires 0 < c < 0x20 && EscapeLetter(c) == 0 && |t| >= 6 && t[..6] == EscapeByte(c)
    ensures PieceAt(t) == Unit(c)
  {
    HexShows(c);
    var e := EscapeByte(c);
    assert e[0] == BACKSLASH && e[1] == LOWER_U && HasHex(e) && HexUnit(e) == c;
    hide HexUnit, HasHex, HexValue, EscapeByte, EscapeLetter, CharLength;
    assert forall i :: 0 <= i < 6 ==> t[i] == t[..6][i];
    UnitIsLocal(e, t);
  }

  lemma UnitIsLocal(e: seq<byte>, t: seq<byte>)
    requires HasHex(e) && |t| >= 6 && forall i :: 0 <= i < 6 ==> t[i] == e[i]
    ensures HasHex(t) && HexUnit(t) == HexUnit(e)
  {
  }

  /** Escaping and decoding gives a text back exactly when it is NUL-free, well-formed UTF-8. */
  lemma EscapeIsReversible(s: seq<byte>)
    ensures Decode(Escape(s) + [QUOTE]) == Some(Decoded(s, |Escape(s)|)) <==> IsCText(s)
  {
    if IsCText(s) {
      EscapeRoundTrip(s, []);
      assert Escape(s) + [QUOTE] + [] == Escape(s) + [QUOTE];
    } else {
      DecodedIsCText(Escape(s) + [QUOTE]);
    }
  }

  lemma EscapedIsBody(s: seq<byte>)
    requires IsCText(s)
    ensures IsBody(Escape(s)) && BodyBytes(Escape(s)) == s
  {
    EscapeIsReversible(s);
  }
}
