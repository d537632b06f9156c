/**
  Decoding in place writes exactly what the string decodes to: the write cursor stays behind
  the read cursor, and nothing at or after the read cursor is touched.
 */
module InPlace {
  import opened Options
  import opened Utf8
  import opened JsonText
  import opened Scanning

  /** Decoding `text` from `p` into `out` ended as `d` says: the bytes stand at `out`, closed by
      a NUL, what precedes them and what follows the closing quote is as before. */
  predicate Lands(text: seq<byte>, p: nat, out: nat, r: Option<(seq<byte>, nat)>, d: Option<Decoded>)
    requires out <= p < |text|
  {
    && r.Some? == d.Some?
    && (d.Some? ==>
          && |r.value.0| == |text|
          && r.value.1 == p + d.value.length + 1 < |text|
          && out + |d.value.bytes| <= p + d.value.length
          && r.value.0[..out] == text[..out]
          && r.value.0[out..out + |d.value.bytes|] == d.value.bytes
          && r.value.0[out + |d.value.bytes|] == 0
          && r.value.0[r.value.1..] == text[r.value.1..])
  }

  /** Some bytes have been written and some have been read. */
  predicate Advances(text: seq<byte>, p: nat, out: nat, bytes: seq<byte>, text': seq<byte>, p': nat) {
    && |text'| == |text| && out + |bytes| <= p' <= |text| && out <= p <= p'
    && text'[..out] == text[..out] && text'[out..out + |bytes|] == bytes
    && text'[p'..] == text[p'..]
  }

  lemma LandsAfter(text: seq<byte>, p: nat, out: nat, bytes: seq<byte>, text': seq<byte>, p': nat,
                   r: Option<(seq<byte>, nat)>, d: Option<Decoded>)
    requires p < |text| && p' < |text| && Advances(text, p, out, bytes, text', p')
    requires Lands(text', p', out + |bytes|, r, d)
    ensures Lands(text, p, out, r, Prepend(bytes, p' - p, d))
  {
    if d.Some? {
      var t := r.value.0;
      var all := bytes + d.value.bytes;
      assert t[..out] == t[..out + |bytes|][..out] == text'[..out + |bytes|][..out] == text'[..out];
      assert t[out..out + |bytes|] == t[..out + |bytes|][out..] == text'[..out + |bytes|][out..] ==
             text'[out..out + |bytes|];
      assert t[out..out + |all|] == t[out..out + |bytes|] + t[out + |bytes|..out + |all|];
      assert t[r.value.1..] == text'[r.value.1..] == text'[p'..][r.value.1 - p'..] == text[p'..][r.value.1 - p'..];
    }
  }

  // ----- escapes for UTF-16 units -----

  /** What remains to be decoded when a high surrogate `h` has been read and nothing written. */
  function DecodeAfterHigh(h: nat, s: seq<byte>): Option<Decoded>
    requires IsHigh(h)
  {
    var next := PieceAt(s);
    if next.Unit? && IsLow(next.unit) then Prepend(Encode(Pair(h, next.unit)), 6, Decode(s[6..]))
    else Prepend(Encode(0xFFFD), 0, Decode(s))
  }

  lemma PrependTwice(a: seq<byte>, m: nat, b: seq<byte>, n: nat, d: Option<Decoded>)
    ensures Prepend(a, m, Prepend(b, n, d)) == Prepend(a + b, m + n, d)
  {
    if d.Some? {
      assert a + (b + d.value.bytes) == a + b + d.value.bytes;
    }
  }

  /** Reading the high surrogate first changes nothing. */
  lemma DecodeHighFirst(s: seq<byte>)
    requires PieceAt(s).Unit? && IsHigh(PieceAt(s).unit)
    ensures Decode(s) == Prepend([], 6, DecodeAfterHigh(PieceAt(s).unit, s[6..]))
  {
    hide PieceAt, Encode, Pair;
    var next := PieceAt(s[6..]);
    if next.Unit? && IsLow(next.unit) {
      var code := Encode(Pair(PieceAt(s).unit, next.unit));
      PrependTwice([], 6, code, 6, Decode(s[12..]));
      assert s[6..][6..] == s[12..] && [] + code == code;
    } else {
      PrependTwice([], 6, Encode(0xFFFD), 0, Decode(s[6..]));
      assert [] + Encode(0xFFFD) == Encode(0xFFFD);
    }
  }

  lemma WriteCodeAdvances(text: seq<byte>, p: nat, out: nat, code: nat)
    requires IsScalar(code) && out <= p && p + 6 <= |text|
    ensures var (text', n) := WriteCode(text, out, code);
            n == |Encode(code)| && Advances(text, p, out, Encode(code), text', p + 6)
  {
    if code > 0x7F {
      FourBytesEncode(code);
      var bytes := FourBytes(code);
      assert WriteAt(text, out, bytes)[out..out + 4] == bytes;
      assert WriteAt(text, out, bytes)[out..out + |Encode(code)|] == bytes[..|Encode(code)|];
    }
  }

  lemma FlushAdvances(text: seq<byte>, p: nat, out: nat, alone: bool)
    requires p < |text| && (if alone then out + 6 <= p else out + 3 <= |text| && out <= p)
    ensures var (text1, out1) := FlushHigh(text, out, alone);
            var bytes := if alone then Encode(0xFFFD) else [];
            out1 == out + |bytes| && Advances(text, p, out, bytes, text1, p)
  {
  }

  lemma NothingToFlush(text: seq<byte>, out: nat)
    requires out + 3 <= |text|
    ensures FlushHigh(text, out, false) == (text, out)
  {
  }

  lemma UnitPiece(s: seq<byte>)
    requires |s| >= 2 && s[0] == BACKSLASH && s[1] == LOWER_U
    ensures PieceAt(s) == if HasHex(s) then Unit(HexUnit(s)) else Malformed
  {
  }

  lemma NotUnitPiece(s: seq<byte>)
    requires s != [] && !(s[0] == BACKSLASH && |s| >= 2 && s[1] == LOWER_U)
    ensures !PieceAt(s).Unit?
  {
  }

  function HighPart(h: nat): nat
    requires IsHigh(h)
  {
    0x10000 + (h - 0xD800) * 1024
  }

  lemma NothingLands(text: seq<byte>, p: nat, out: nat)
    requires out <= p < |text|
    ensures Lands(text, p, out, None, None)
  {
  }

  lemma SuffixStays(text: seq<byte>, p: nat, out: nat, bytes: seq<byte>, text': seq<byte>, p': nat, q: nat)
    requires Advances(text, p, out, bytes, text', p') && p' <= q <= |text|
    ensures |text'| == |text| && text'[q..] == text[q..]
    ensures forall i :: q <= i < |text| ==> text'[i] == text[i]
  {
    assert text'[q..] == text'[p'..][q - p'..];
    forall i | q <= i < |text| ensures text'[i] == text[i] {
      assert text'[i] == text'[q..][i - q];
    }
  }

  lemma StandStill(text: seq<byte>, p: nat, out: nat, p': nat)
    requires out <= p <= p' <= |text|
    ensures Advances(text, p, out, [], text, p')
  {
  }

  lemma EndStays(text: seq<byte>, p: nat, out: nat, bytes: seq<byte>, text': seq<byte>, p': nat)
    requires HasEnd(text) && Advances(text, p, out, bytes, text', p') && p' < |text|
    ensures HasEnd(text')
  {
    SuffixStays(text, p, out, bytes, text', p', p');
  }

  /** Writing a code point and going on. */
  lemma {:induction false} FinishLands(text: seq<byte>, p: nat, out: nat, code: nat)
    requires HasEnd(text) && out <= p && p + 6 < |text| && IsScalar(code)
    ensures var (text', n) := WriteCode(text, out, code);
            && HasEnd(text') && out + n <= p + 6
            && Lands(text, p, out, DecodeInPlace(text', p + 6, out + n),
                     Prepend(Encode(code), 6, Decode(text[p + 6..])))
    decreases |text| - p - 6, 3
  {
    hide Lands, Advances, Encode, WriteCode, DecodeInPlace, Decode, IsScalar, HasEnd;
    var (text', n) := WriteCode(text, out, code);
    WriteCodeAdvances(text, p, out, code);
    EndStays(text, p, out, Encode(code), text', p + 6);
    SuffixStays(text, p, out, Encode(code), text', p + 6, p + 6);
    DecodeInPlaceLands(text', p + 6, out + n);
    LandsAfter(text, p, out, Encode(code), text', p + 6, DecodeInPlace(text', p + 6, out + n), Decode(text[p + 6..]));
  }

  /** A unit that does not pair with what precedes it. */
  lemma {:induction false} LoneUnitLands(text: seq<byte>, p: nat, out: nat, unit: nat)
    requires HasEnd(text) && out <= p && p + 6 < |text| && PieceAt(text[p..]) == Unit(unit)
    ensures var again := IsHigh(unit) && text[p + 6] == BACKSLASH && text[p + 7] == LOWER_U;
            var (text', n) := WriteCode(text, out, Replaced(unit));
            && HasEnd(text') && out + n <= p + 6
            && Lands(text, p, out,
                     if again then DecodeUnit(text, p + 6, out, HighPart(unit))
                     else DecodeInPlace(text', p + 6, out + n),
                     Decode(text[p..]))
    decreases |text| - p - 6, 4
  {
    hide Lands, Advances, Encode, WriteCode, DecodeInPlace, DecodeUnit, PieceAt, Replaced, IsScalar;
    var s := text[p..];
    assert s[6..] == text[p + 6..];
    FinishLands(text, p, out, Replaced(unit));
    if IsHigh(unit) && text[p + 6] == BACKSLASH && text[p + 7] == LOWER_U {
      DecodeUnitLands(text, p + 6, out, true, unit);
      StandStill(text, p, out, p + 6);
      LandsAfter(text, p, out, [], text, p + 6, DecodeUnit(text, p + 6, out, HighPart(unit)),
                 DecodeAfterHigh(unit, text[p + 6..]));
      DecodeHighFirst(s);
    } else if IsHigh(unit) {
      assert s[6..][0] == text[p + 6] && (|s| > 7 ==> s[6..][1] == text[p + 7]);
      NotUnitPiece(s[6..]);
    }
  }

  lemma {:induction false} DecodeUnitLands(text: seq<byte>, p: nat, out: nat, pending: bool, h: nat)
    requires HasEnd(text) && out <= p && p + 1 < |text| && text[p] == BACKSLASH && text[p + 1] == LOWER_U
    requires pending ==> IsHigh(h) && out + 6 <= p
    ensures Lands(text, p, out, DecodeUnit(text, p, out, if pending then HighPart(h) else 0),
                  if pending then DecodeAfterHigh(h, text[p..]) else Decode(text[p..]))
    decreases |text| - p, 0
  {
    hide Lands, Advances, HexUnit, HasHex, Encode, WriteCode, FlushHigh, PieceAt, Replaced, DecodeInPlace;
    var s := text[p..];
    UnitPiece(s);
    HexEndsInside(text, p);
    if !HasHex(s) {
      NothingLands(text, p, out);
    } else {
      var unit := HexUnit(s);
      if pending && IsLow(unit) {
        FinishLands(text, p, out, Pair(h, unit));
        NothingToFlush(text, out);
        assert s[6..] == text[p + 6..];
      } else {
        var bytes := if pending then Encode(0xFFFD) else [];
        var (text1, out1) := FlushHigh(text, out, pending);
        FlushAdvances(text, p, out, pending);
        EndStays(text, p, out, bytes, text1, p);
        SuffixStays(text, p, out, bytes, text1, p, p);
        LoneUnitLands(text1, p, out1, unit);
        LandsAfter(text, p, out, bytes, text1, p, DecodeUnit(text, p, out, if pending then HighPart(h) else 0),
                   Decode(s));
        PrependNothing(Decode(s));
      }
    }
  }

  lemma PrependNothing(d: Option<Decoded>)
    ensures Prepend([], 0, d) == d
  {
    if d.Some? {
      assert [] + d.value.bytes == d.value.bytes;
    }
  }

  lemma {:induction false} ShortLands(text: seq<byte>, p: nat, out: nat)
    requires HasEnd(text) && out <= p < |text| && text[p] == BACKSLASH && ShortEscape(text[p + 1]) != 0
    ensures Lands(text, p, out, DecodeInPlace(text, p, out), Decode(text[p..]))
    decreases |text| - p, 1
  {
    assert p + 2 < |text|;
    hide Lands, DecodeInPlace, Decode, ShortEscape;
    var b := ShortEscape(text[p + 1]);
    StepLands(text, p, out, [b], text[out := b], p + 2);
    ShortUnfolds(text, p, out, b);
  }

  lemma ShortUnfolds(text: seq<byte>, p: nat, out: nat, b: byte)
    requires HasEnd(text) && out <= p && p + 2 < |text| && text[p] == BACKSLASH && b == ShortEscape(text[p + 1]) != 0
    ensures Decode(text[p..]) == Prepend([b], 2, Decode(text[p + 2..]))
    ensures HasEnd(text[out := b]) && DecodeInPlace(text, p, out) == DecodeInPlace(text[out := b], p + 2, out + 1)
  {
    hide ShortEscape, TableEscape, CharLength, ScanLength, DecodeUnit;
    var s := text[p..];
    assert s[1] == text[p + 1] && s[2..] == text[p + 2..];
    assert PieceAt(s) == Short(b);
  }

  lemma BadEscapeLands(text: seq<byte>, p: nat, out: nat)
    requires HasEnd(text) && out <= p < |text| && text[p] == BACKSLASH
    requires ShortEscape(text[p + 1]) == 0 && text[p + 1] != LOWER_U
    ensures Lands(text, p, out, DecodeInPlace(text, p, out), Decode(text[p..]))
  {
    hide ShortEscape, TableEscape, CharLength, ScanLength, DecodeUnit;
    var s := text[p..];
    assert s[1] == text[p + 1];
    assert PieceAt(s).Malformed?;
  }

  lemma {:induction false} UnitEscapeLands(text: seq<byte>, p: nat, out: nat)
    requires HasEnd(text) && out <= p < |text| && text[p] == BACKSLASH && text[p + 1] == LOWER_U
    ensures Lands(text, p, out, DecodeInPlace(text, p, out), Decode(text[p..]))
    decreases |text| - p, 1
  {
    hide Lands, Decode, DecodeUnit;
    DecodeUnitLands(text, p, out, false, 0);
  }

  lemma {:induction false} AsciiLands(text: seq<byte>, p: nat, out: nat)
    requires HasEnd(text) && out <= p < |text| && 0x20 <= text[p] <= 0x7F && text[p] != QUOTE && text[p] != BACKSLASH
    ensures Lands(text, p, out, DecodeInPlace(text, p, out), Decode(text[p..]))
    decreases |text| - p, 1
  {
    hide Lands, Decode, DecodeInPlace;
    var c := text[p];
    assert p + 1 < |text|;
    AsciiSteps(text, p, out);
    AsciiDecodes(text[p..]);
    assert text[p..][1..] == text[p + 1..];
    StepLands(text, p, out, [c], text[out := c], p + 1);
  }

  lemma AsciiSteps(text: seq<byte>, p: nat, out: nat)
    requires HasEnd(text) && out <= p && p + 1 < |text| && 0x20 <= text[p] <= 0x7F
    requires text[p] != QUOTE && text[p] != BACKSLASH
    ensures HasEnd(text[out := text[p]])
    ensures DecodeInPlace(text, p, out) == DecodeInPlace(text[out := text[p]], p + 1, out + 1)
  {
    hide ScanLength, TableEscape, ShortEscape, DecodeUnit, CharLength;
  }

  lemma AsciiDecodes(s: seq<byte>)
    requires s != [] && 0x20 <= s[0] <= 0x7F && s[0] != QUOTE && s[0] != BACKSLASH
    ensures Decode(s) == Prepend([s[0]], 1, Decode(s[1..]))
  {
    assert PieceAt(s) == Plain(1) && s[..1] == [s[0]];
    hide PieceAt;
  }

  lemma {:induction false} WideLands(text: seq<byte>, p: nat, out: nat)
    requires HasEnd(text) && out <= p < |text| && 0xC2 <= text[p] <= 0xF4
    ensures Lands(text, p, out, DecodeInPlace(text, p, out), Decode(text[p..]))
    decreases |text| - p, 1
  {
    hide Lands, Decode, DecodeInPlace, ScanLength;
    CharEndsInside(text, p);
    var n := ScanLength(text[p..]);
    WideUnfolds(text, p, out, n);
    if n == 0 {
      NothingLands(text, p, out);
    } else {
      StepLands(text, p, out, text[p..p + n], CopyDown(text, out, p, n), p + n);
    }
  }

  lemma WideUnfolds(text: seq<byte>, p: nat, out: nat, n: nat)
    requires HasEnd(text) && out <= p && p + n < |text| && 0xC2 <= text[p] <= 0xF4 && n == ScanLength(text[p..])
    ensures Decode(text[p..]) == if n == 0 then None else Prepend(text[p..p + n], n, Decode(text[p + n..]))
    ensures n == 0 ==> DecodeInPlace(text, p, out).None?
    ensures n > 0 ==> HasEnd(CopyDown(text, out, p, n))
    ensures n > 0 ==> DecodeInPlace(text, p, out) == DecodeInPlace(CopyDown(text, out, p, n), p + n, out + n)
  {
    hide Decode, DecodeInPlace, ScanLength;
    WideDecodes(text[p..], n);
    WideSteps(text, p, out, n);
    assert text[p..][..n] == text[p..p + n] && text[p..][n..] == text[p + n..];
  }

  lemma WideSteps(text: seq<byte>, p: nat, out: nat, n: nat)
    requires HasEnd(text) && out <= p && p + n < |text| && 0xC2 <= text[p] <= 0xF4 && n == ScanLength(text[p..])
    ensures n == 0 ==> DecodeInPlace(text, p, out).None?
    ensures n > 0 ==> HasEnd(CopyDown(text, out, p, n))
    ensures n > 0 ==> DecodeInPlace(text, p, out) == DecodeInPlace(CopyDown(text, out, p, n), p + n, out + n)
  {
    hide ScanLength, TableEscape, ShortEscape, DecodeUnit, CharLength;
  }

  lemma WideDecodes(s: seq<byte>, n: nat)
    requires s != [] && 0xC2 <= s[0] <= 0xF4 && n == ScanLength(s)
    ensures Decode(s) == if n == 0 then None else Prepend(s[..n], n, Decode(s[n..]))
  {
    hide ShortEscape, CharLength, ScanLength;
    ScanAcceptsWellFormed(s);
    assert PieceAt(s) == if n == 0 then Malformed else Plain(n);
  }

  /** Decoding in place agrees with decoding: it fails on the same bodies, and otherwise leaves
      the decoded bytes where the body began. */
  lemma {:induction false} DecodeInPlaceLands(text: seq<byte>, p: nat, out: nat)
    requires HasEnd(text) && out <= p < |text|
    ensures Lands(text, p, out, DecodeInPlace(text, p, out), Decode(text[p..]))
    decreases |text| - p, 2
  {
    hide Lands, DecodeInPlace, Decode, ShortEscape;
    var c := text[p];
    if c == BACKSLASH {
      if ShortEscape(text[p + 1]) != 0 {
        ShortLands(text, p, out);
      } else if text[p + 1] == LOWER_U {
        UnitEscapeLands(text, p, out);
      } else {
        BadEscapeLands(text, p, out);
      }
    } else if c == QUOTE {
      CloseLands(text, p, out);
    } else if 0x20 <= c <= 0x7F {
      AsciiLands(text, p, out);
    } else if 0xC2 <= c <= 0xF4 {
      WideLands(text, p, out);
    } else {
      BadLands(text, p, out);
    }
  }

  /** A piece that is written at once. */
  lemma {:induction false} StepLands(text: seq<byte>, p: nat, out: nat, bytes: seq<byte>, text': seq<byte>, p': nat)
    requires HasEnd(text) && out <= p < p' < |text| && |bytes| <= p' - p
    requires text' == text[..out] + bytes + text[out + |bytes|..]
    ensures HasEnd(text') && |text'| == |text|
    ensures Lands(text, p, out, DecodeInPlace(text', p', out + |bytes|), Prepend(bytes, p' - p, Decode(text[p'..])))
    decreases |text| - p', 3
  {
    hide Lands, DecodeInPlace, Decode;
    assert Advances(text, p, out, bytes, text', p');
    DecodeInPlaceLands(text', p', out + |bytes|);
    LandsAfter(text, p, out, bytes, text', p', DecodeInPlace(text', p', out + |bytes|), Decode(text[p'..]));
  }

  lemma CloseLands(text: seq<byte>, p: nat, out: nat)
    requires HasEnd(text) && out <= p < |text| && text[p] == QUOTE
    ensures Lands(text, p, out, DecodeInPlace(text, p, out), Decode(text[p..]))
  {
    assert PieceAt(text[p..]) == Close;
  }

  lemma BadLands(text: seq<byte>, p: nat, out: nat)
    requires HasEnd(text) && out <= p < |text| && (text[p] < 0x20 || 0x80 <= text[p] < 0xC2 || text[p] > 0xF4)
    ensures Lands(text, p, out, DecodeInPlace(text, p, out), Decode(text[p..]))
  {
    assert PieceAt(text[p..]).Malformed?;
  }
}
