/**
  The scanners recognize the grammar: numbers, the three words, and string bodies.
 */
module Recognizing {
  import opened Options
  import opened Utf8
  import opened JsonText
  import opened JsonTree
  import opened Scanning
  import opened Jstr
  import Words

  /** `t` stands at position `p` of the text. */
  predicate At(text: seq<byte>, p: nat, t: seq<byte>) {
    p + |t| <= |text| && text[p..p + |t|] == t
  }

  lemma AtSplits(text: seq<byte>, p: nat, a: seq<byte>, b: seq<byte>)
    ensures At(text, p, a + b) <==> At(text, p, a) && At(text, p + |a|, b)
  {
    if p + |a| + |b| <= |text| {
      var t := text[p..p + |a| + |b|];
      assert t == text[p..p + |a|] + text[p + |a|..p + |a| + |b|];
      assert (a + b)[..|a|] == a && (a + b)[|a|..] == b;
      assert t[..|a|] == text[p..p + |a|] && t[|a|..] == text[p + |a|..p + |a| + |b|];
    }
  }

  lemma AtIndex(text: seq<byte>, p: nat, t: seq<byte>, i: nat)
    requires At(text, p, t) && i < |t|
    ensures p + i < |text| && text[p + i] == t[i]
  {
    assert text[p..p + |t|][i] == text[p + i];
  }

  lemma SkipWsStops(text: seq<byte>, p: nat, pad: seq<byte>)
    requires HasEnd(text) && At(text, p, pad) && AreWs(pad) && p + |pad| < |text| && !IsWs(text[p + |pad|])
    ensures SkipWs(text, p) == p + |pad|
  {
    forall i | p <= i < p + |pad| ensures IsWs(text[i]) {
      AtIndex(text, p, pad, i - p);
    }
  }

  // ----- numbers -----

  lemma DigitsStop(text: seq<byte>, p: nat, digits: seq<byte>)
    requires HasEnd(text) && At(text, p, digits) && AreDigits(digits)
    requires p + |digits| < |text| && !IsDigit(text[p + |digits|])
    ensures ScanDigits(text, p) == p + |digits|
  {
    forall i | p <= i < p + |digits| ensures IsDigit(text[i]) {
      AtIndex(text, p, digits, i - p);
    }
  }

  lemma FractionStops(text: seq<byte>, p: nat, fraction: seq<byte>)
    requires HasEnd(text) && At(text, p, FractionText(fraction)) && AreDigits(fraction)
    requires var e := p + |FractionText(fraction)|; e < |text| && !IsDigit(text[e]) && text[e] != DOT
    ensures ScanFraction(text, p) == Some(p + |FractionText(fraction)|)
  {
    if fraction != [] {
      AtSplits(text, p, [DOT], fraction);
      AtIndex(text, p, [DOT], 0);
      AtIndex(text, p + 1, fraction, 0);
      DigitsStop(text, p + 1, fraction);
    }
  }

  lemma ExponentStops(text: seq<byte>, p: nat, e: Exponent)
    requires HasEnd(text) && At(text, p, ExponentText(e)) && IsExponent(e)
    requires p + |ExponentText(e)| < |text| && IsDelimiter(text[p + |ExponentText(e)|])
    ensures ScanExponent(text, p) == Some(p + |ExponentText(e)|)
  {
    hide At, AreDigits, ScanDigits, ExponentText;
    if e.Exponent? {
      ExponentParts(text, p, e);
      DigitsStop(text, p + 1 + |e.sign|, e.digits);
      ExponentIsRead(text, p, e);
    } else {
      NoExponentText(e);
    }
  }

  lemma NoExponentText(e: Exponent)
    requires e.NoExponent?
    ensures ExponentText(e) == []
  {
  }

  lemma FirstDigit(digits: seq<byte>)
    requires AreDigits(digits) && digits != []
    ensures IsDigit(digits[0])
  {
  }

  /** Marker, sign and digits are read as such. */
  lemma ExponentIsRead(text: seq<byte>, p: nat, e: Exponent)
    requires e.Exponent? && IsExponent(e) && HasEnd(text) && p + 1 + |e.sign| < |text|
    requires text[p] == e.marker && IsDigit(text[p + 1 + |e.sign|]) && (e.sign != [] ==> text[p + 1] == e.sign[0])
    ensures ScanExponent(text, p) == Some(ScanDigits(text, p + 1 + |e.sign|))
  {
    hide AreDigits, ScanDigits;
  }

  lemma ExponentParts(text: seq<byte>, p: nat, e: Exponent)
    requires e.Exponent? && At(text, p, ExponentText(e)) && IsExponent(e)
    ensures |ExponentText(e)| == 1 + |e.sign| + |e.digits|
    ensures p + 1 + |e.sign| < |text| && text[p] == e.marker && IsDigit(text[p + 1 + |e.sign|])
    ensures At(text, p + 1 + |e.sign|, e.digits) && (e.sign != [] ==> text[p + 1] == e.sign[0])
  {
    hide At, AreDigits;
    AtSplits(text, p, [e.marker] + e.sign, e.digits);
    AtSplits(text, p, [e.marker], e.sign);
    FirstDigit(e.digits);
    AtIndex(text, p, [e.marker], 0);
    AtIndex(text, p + 1 + |e.sign|, e.digits, 0);
    if e.sign != [] {
      AtIndex(text, p + 1, e.sign, 0);
    }
  }

  /** What may follow the digits of a number's integer part or fraction. */
  predicate EndsDigits(b: byte) { !IsDigit(b) && b != DOT }

  lemma ExponentEndsDigits(text: seq<byte>, p: nat, e: Exponent)
    requires At(text, p, ExponentText(e)) && IsExponent(e)
    requires p + |ExponentText(e)| < |text| && IsDelimiter(text[p + |ExponentText(e)|])
    ensures EndsDigits(text[p])
  {
    if e.Exponent? {
      AtIndex(text, p, ExponentText(e), 0);
    }
  }

  lemma FractionEndsDigits(text: seq<byte>, p: nat, fraction: seq<byte>)
    requires At(text, p, FractionText(fraction)) && p + |FractionText(fraction)| < |text|
    requires EndsDigits(text[p + |FractionText(fraction)|])
    ensures !IsDigit(text[p])
  {
    if fraction != [] {
      AtIndex(text, p, FractionText(fraction), 0);
    }
  }

  /** Every number followed by a delimiter is scanned to its end. */
  lemma NumberIsScanned(text: seq<byte>, p: nat, n: Number)
    requires HasEnd(text) && IsNumber(n) && At(text, p, NumberText(n))
    requires p + |NumberText(n)| < |text| && IsDelimiter(text[p + |NumberText(n)|])
    ensures text[p] == MINUS || IsDigit(text[p])
    ensures ScanNumber(text, p) == Some(p + |NumberText(n)|)
  {
    hide ScanFraction, ScanExponent, ScanDigits, FractionText, ExponentText, At, AreDigits, IsExponent, IsDelimiter,
         NumberText;
    var p1 := if n.minus then p + 1 else p;
    var p2 := p1 + |n.whole|;
    var p3 := p2 + |FractionText(n.fraction)|;
    NumberParts(text, p, n);
    ExponentEndsDigits(text, p3, n.exponent);
    FractionEndsDigits(text, p2, n.fraction);
    WholeStarts(text, p, n);
    DigitsStop(text, p1, n.whole);
    FractionStops(text, p2, n.fraction);
    ExponentStops(text, p3, n.exponent);
  }

  /** Where the parts of a number stand. */
  lemma NumberParts(text: seq<byte>, p: nat, n: Number)
    requires At(text, p, NumberText(n))
    ensures var p1 := if n.minus then p + 1 else p; var p2 := p1 + |n.whole|; var p3 := p2 + |FractionText(n.fraction)|;
            && At(text, p, if n.minus then [MINUS] else []) && At(text, p1, n.whole)
            && At(text, p2, FractionText(n.fraction)) && At(text, p3, ExponentText(n.exponent))
            && p3 + |ExponentText(n.exponent)| == p + |NumberText(n)|
  {
    hide FractionText, ExponentText, At;
    var sign := if n.minus then [MINUS] else [];
    AtSplits(text, p, sign + n.whole + FractionText(n.fraction), ExponentText(n.exponent));
    AtSplits(text, p, sign + n.whole, FractionText(n.fraction));
    AtSplits(text, p, sign, n.whole);
  }

  lemma WholeStarts(text: seq<byte>, p: nat, n: Number)
    requires HasEnd(text) && IsNumber(n)
    requires var sign := if n.minus then [MINUS] else [];
             At(text, p, sign) && At(text, p + |sign|, n.whole) && p + |sign| + |n.whole| < |text|
             && !IsDigit(text[p + |sign| + |n.whole|])
    ensures text[p] == if n.minus then MINUS else n.whole[0]
    ensures text[p] == MINUS || IsDigit(text[p])
    ensures var p1 := if text[p] == MINUS then p + 1 else p; !(text[p1] == ZERO && IsDigit(text[p1 + 1]))
  {
    var sign := if n.minus then [MINUS] else [];
    if n.minus {
      AtIndex(text, p, sign, 0);
    }
    if n.whole != [] {
      AtIndex(text, p + |sign|, n.whole, 0);
      if |n.whole| > 1 {
        AtIndex(text, p + |sign|, n.whole, 1);
      }
    }
  }

  lemma Slices(text: seq<byte>, a: nat, b: nat, c: nat)
    requires a <= b <= c <= |text|
    ensures text[a..b] + text[b..c] == text[a..c]
  {
  }

  lemma FractionIsFound(text: seq<byte>, p: nat, e: nat) returns (fraction: seq<byte>)
    requires HasEnd(text) && p < |text| && ScanFraction(text, p) == Some(e)
    ensures AreDigits(fraction) && FractionText(fraction) == text[p..e]
  {
    if e == p {
      fraction := [];
    } else {
      fraction := text[p + 1..e];
      assert text[p..e] == [text[p]] + fraction;
    }
  }

  lemma ExponentIsFound(text: seq<byte>, p: nat, e: nat) returns (x: Exponent)
    requires HasEnd(text) && p < |text| && ScanExponent(text, p) == Some(e)
    ensures IsExponent(x) && ExponentText(x) == text[p..e]
  {
    if e == p {
      x := NoExponent;
    } else {
      var q := if text[p + 1] == MINUS || text[p + 1] == PLUS then p + 2 else p + 1;
      x := Exponent(text[p], text[p + 1..q], text[q..e]);
      assert text[p] == LOWER_E || text[p] == UPPER_E;
      assert text[p..e] == [text[p]] + text[p + 1..q] + text[q..e];
    }
  }

  /** What is scanned as a number is one. */
  lemma NumberIsFound(text: seq<byte>, p: nat, e: nat) returns (n: Number)
    requires HasEnd(text) && p < |text| && (text[p] == MINUS || IsDigit(text[p])) && ScanNumber(text, p) == Some(e)
    ensures IsNumber(n) && NumberText(n) == text[p..e]
  {
    hide ScanFraction, ScanExponent, FractionText, ExponentText;
    var minus := text[p] == MINUS;
    var p1 := if minus then p + 1 else p;
    var p2 := ScanDigits(text, p1);
    var p3 := ScanFraction(text, p2).value;
    var fraction := FractionIsFound(text, p2, p3);
    var exponent := ExponentIsFound(text, p3, e);
    n := Number(minus, text[p1..p2], fraction, exponent);
    assert IsNumber(n) by { assert AreDigits(n.whole); }
    hide IsNumber, ScanNumber, ScanDigits;
    assert text[p..p1] == if minus then [MINUS] else [];
    Slices(text, p, p1, p2);
    Slices(text, p, p2, p3);
    Slices(text, p, p3, e);
  }

  // ----- words -----

  /** 32 to the power of `k`. */
  function Pow32(k: nat): (n: nat)
    ensures n > 0
  {
    if k == 0 then 1 else 32 * Pow32(k - 1)
  }

  lemma PowersOf32()
    ensures Pow32(0) == 1 && Pow32(1) == 32 && Pow32(2) == 1024 && Pow32(3) == 32768
    ensures Pow32(4) == 1048576 && Pow32(5) == 33554432 && Pow32(6) == 1073741824
  {
    assert Pow32(2) == 32 * Pow32(1) && Pow32(4) == 32 * Pow32(3) && Pow32(6) == 32 * Pow32(5);
  }

  lemma LastDigit(x: nat, l: nat, m: nat)
    requires l < 32 && m > 0
    ensures (x * 32 + l) % (32 * m) == x % m * 32 + l
  {
    var q, r := x / m, x % m;
    assert x == m * q + r;
    assert x * 32 + l == 32 * m * q + (r * 32 + l);
    Words.DivUnique(x * 32 + l, 32 * m, q, r * 32 + l);
  }

  lemma LowDigits(x: nat, k: nat)
    requires k <= 6
    ensures x % 0x1_0000_0000 % Pow32(k) == x % Pow32(k)
  {
    PowersOf32();
    hide Pow32;
    var q, y := x / 0x1_0000_0000, x % 0x1_0000_0000;
    match k
    case 0 =>
    case 1 => Words.DivUnique(x, 32, 0x800_0000 * q + y / 32, y % 32);
    case 2 => Words.DivUnique(x, 1024, 0x40_0000 * q + y / 1024, y % 1024);
    case 3 => Words.DivUnique(x, 32768, 0x2_0000 * q + y / 32768, y % 32768);
    case 4 => Words.DivUnique(x, 1048576, 0x1000 * q + y / 1048576, y % 1048576);
    case 5 => Words.DivUnique(x, 33554432, 0x80 * q + y / 33554432, y % 33554432);
    case 6 => Words.DivUnique(x, 1073741824, 4 * q + y / 1073741824, y % 1073741824);
  }

  predicate AreLetters(w: seq<byte>) { forall i :: 0 <= i < |w| ==> IsLetter(w[i]) }

  /** The last `k` digits of a hash to the base 32. */
  function Tail(w: seq<byte>, k: nat): (n: nat)
    requires AreLetters(w)
  {
    Hash(w) % Pow32(k)
  }

  /** The hash tells a word of up to five letters from every other word, however long: its marker,
      31, is not the value of any letter. */
  lemma {:induction false} HashTells(w: seq<byte>, u: seq<byte>)
    requires AreLetters(w) && AreLetters(u) && |u| <= 5
    requires Tail(w, |u| + 1) == Tail(u, |u| + 1)
    ensures w == u
    decreases |u|
  {
    hide Tail;
    HashDigits(w, |u|);
    HashDigits(u, |u|);
    if u != [] && w != [] {
      var w', u' := w[..|w| - 1], u[..|u| - 1];
      HashTells(w', u');
      assert w == w' + [w[|w| - 1]] && u == u' + [u[|u| - 1]];
    }
  }

  lemma HashDigits(w: seq<byte>, k: nat)
    requires AreLetters(w) && k <= 5
    ensures w == [] ==> Tail(w, k + 1) == 31
    ensures w != [] ==> Tail(w, k + 1) == Tail(w[..|w| - 1], k) * 32 + LetterValue(w[|w| - 1])
  {
    if w == [] {
      EmptyHash();
      PowersOf32();
      hide Hash, Pow32;
    } else {
      MoreDigits(w, k);
    }
  }

  lemma MoreDigits(w: seq<byte>, k: nat)
    requires AreLetters(w) && k <= 5 && w != []
    ensures Hash(w) % Pow32(k + 1) == Hash(w[..|w| - 1]) % Pow32(k) * 32 + LetterValue(w[|w| - 1])
  {
    var h, l := Hash(w[..|w| - 1]), LetterValue(w[|w| - 1]);
    var x := h * 32 + l;
    assert Hash(w) == x % 0x1_0000_0000;
    LowDigits(x, k + 1);
    LastDigits(h, l, k);
    hide Hash, Pow32, LetterValue;
  }

  lemma LastDigits(h: nat, l: nat, k: nat)
    requires l < 32
    ensures (h * 32 + l) % Pow32(k + 1) == h % Pow32(k) * 32 + l
  {
    assert Pow32(k + 1) == 32 * Pow32(k);
    hide Pow32;
    LastDigit(h, l, Pow32(k));
  }

  /** A hash that equals a keyword's is the hash of that keyword. */
  lemma KeywordIsFound(w: seq<byte>, l: Literal)
    requires AreLetters(w)
    ensures AreLetters(LiteralText(l))
    ensures Hash(w) == Keyword(LiteralKind(l)) <==> w == LiteralText(l)
  {
    KeywordHash(l);
    if Hash(w) == Keyword(LiteralKind(l)) {
      HashTells(w, LiteralText(l));
    }
  }

  lemma HashStep(w: seq<byte>, b: byte)
    requires AreLetters(w) && IsLetter(b)
    ensures AreLetters(w + [b]) && Hash(w + [b]) == (Hash(w) * 32 + (b - 0x61)) % 0x1_0000_0000
  {
    assert (w + [b])[..|w|] == w;
  }

  lemma KeywordHash(l: Literal)
    ensures AreLetters(LiteralText(l)) && Hash(LiteralText(l)) == Keyword(LiteralKind(l))
  {
    hide Hash;
    var t := LiteralText(l);
    HashOfFour(t[0], t[1], t[2], t[3]);
    if l == FalseWord {
      HashStep([t[0], t[1], t[2], t[3]], t[4]);
      assert t == [t[0], t[1], t[2], t[3]] + [t[4]];
    } else {
      assert t == [t[0], t[1], t[2], t[3]];
    }
  }

  lemma HashOfFour(a: byte, b: byte, c: byte, d: byte)
    requires IsLetter(a) && IsLetter(b) && IsLetter(c) && IsLetter(d)
    ensures AreLetters([a, b, c, d])
    ensures Hash([a, b, c, d]) == (((31 * 32 + (a - 0x61)) * 32 + (b - 0x61)) * 32 + (c - 0x61)) * 32 + (d - 0x61)
  {
    hide Hash;
    HashOfTwo(a, b);
    HashStep([a, b], c);
    HashStep([a, b, c], d);
    assert [a, b] + [c] == [a, b, c] && [a, b, c] + [d] == [a, b, c, d];
  }

  lemma HashOfTwo(a: byte, b: byte)
    requires IsLetter(a) && IsLetter(b)
    ensures AreLetters([a, b]) && Hash([a, b]) == (31 * 32 + (a - 0x61)) * 32 + (b - 0x61)
  {
    hide Hash;
    EmptyHash();
    HashStep([], a);
    HashStep([a], b);
    assert [] + [a] == [a] && [a] + [b] == [a, b];
  }

  lemma EmptyHash()
    ensures Hash([]) == 31
  {
  }

  lemma WordIsScanned(text: seq<byte>, p: nat, l: Literal)
    requires HasEnd(text) && At(text, p, LiteralText(l))
    requires p + |LiteralText(l)| < |text| && IsDelimiter(text[p + |LiteralText(l)|])
    ensures ScanLetters(text, p + 1) == p + |LiteralText(l)|
  {
    var t := LiteralText(l);
    forall i | p <= i < p + |t| ensures IsLetter(text[i]) {
      AtIndex(text, p, t, i - p);
    }
  }

  // ----- strings -----

  function PieceLength(piece: Piece): nat {
    match piece
    case Close => 1
    case Plain(n) => n
    case Short(_) => 2
    case Unit(_) => 6
    case Malformed => 0
  }

  /** Whether a piece stands at the start is settled by its own bytes. */
  lemma PieceIsLocal(s: seq<byte>, t: seq<byte>)
    requires var n := PieceLength(PieceAt(s)); n > 0 && n <= |s| && n <= |t| && t[..n] == s[..n]
    ensures PieceAt(t) == PieceAt(s)
  {
    var n := PieceLength(PieceAt(s));
    assert forall i :: 0 <= i < n ==> t[i] == t[..n][i] && s[i] == s[..n][i];
    if PieceAt(s).Plain? {
      CharIsLocal(s, t);
    }
  }

  lemma CharIsLocal(s: seq<byte>, t: seq<byte>)
    requires var n := CharLength(s); n > 0 && n <= |t| && forall i :: 0 <= i < n ==> t[i] == s[i]
    ensures CharLength(t) == CharLength(s)
  {
  }

  /** A high surrogate and the low one that follows it. */
  predicate IsPaired(s: seq<byte>) {
    && PieceAt(s).Unit? && IsHigh(PieceAt(s).unit)
    && PieceAt(s[6..]).Unit? && IsLow(PieceAt(s[6..]).unit)
  }

  /** The bytes one step of decoding yields, and the bytes it takes. */
  function Step(s: seq<byte>): (r: (seq<byte>, nat))
    requires var piece := PieceAt(s); !piece.Close? && !piece.Malformed?
    ensures r.1 <= |s|
  {
    if IsPaired(s) then (Encode(Pair(PieceAt(s).unit, PieceAt(s[6..]).unit)), 12)
    else match PieceAt(s)
      case Plain(n) => (s[..n], n)
      case Short(b) => ([b], 2)
      case Unit(u) => (Encode(Replaced(u)), 6)
  }

  lemma DecodeSteps(s: seq<byte>)
    requires var piece := PieceAt(s); !piece.Close? && !piece.Malformed?
    ensures Decode(s) == Prepend(Step(s).0, Step(s).1, Decode(s[Step(s).1..]))
  {
    hide PieceAt, Encode, Pair, Replaced;
  }

  /** The first piece of a body that decodes does not reach behind its closing quote. */
  lemma FirstPieceIsLocal(s: seq<byte>, t: seq<byte>)
    requires var d := Decode(s); d.Some? && d.value.length < |t| && t[..d.value.length + 1] == s[..d.value.length + 1]
    ensures PieceAt(t) == PieceAt(s)
  {
    hide PieceAt, Encode, Pair, Replaced;
    var n := Decode(s).value.length + 1;
    var k := PieceLength(PieceAt(s));
    assert k <= n by {
      if !PieceAt(s).Close? { DecodeSteps(s); }
    }
    hide Decode;
    assert t[..k] == t[..n][..k] == s[..n][..k] == s[..k];
    PieceIsLocal(s, t);
  }

  lemma StepIsLocal(s: seq<byte>, t: seq<byte>)
    requires var d := Decode(s); d.Some? && d.value.length < |t| && t[..d.value.length + 1] == s[..d.value.length + 1]
    requires !PieceAt(s).Close? && !PieceAt(s).Malformed?
    ensures PieceAt(t) == PieceAt(s) && Step(t) == Step(s)
  {
    hide PieceAt, Encode, Pair, Replaced, Decode;
    FirstPieceIsLocal(s, t);
    DecodeSteps(s);
    var n := Decode(s).value.length + 1;
    RestIsLocal(s, t, n, Step(s).1);
    if PieceAt(s).Unit? {
      RestIsLocal(s, t, n, 6);
      if IsPaired(s) {
        assert t[6..][..6] == t[6..][..n - 6][..6] == s[6..][..n - 6][..6] == s[6..][..6];
        PieceIsLocal(s[6..], t[6..]);
      } else {
        FirstPieceIsLocal(s[6..], t[6..]);
      }
    } else if PieceAt(s).Plain? {
      var k := Step(s).1;
      assert t[..k] == t[..n][..k] == s[..n][..k] == s[..k];
    }
  }

  /** Decoding a body does not depend on what follows its closing quote. */
  lemma {:induction false} DecodeIsLocal(s: seq<byte>, t: seq<byte>)
    requires var d := Decode(s); d.Some? && d.value.length < |t| && t[..d.value.length + 1] == s[..d.value.length + 1]
    ensures Decode(t) == Decode(s)
    decreases |s|
  {
    hide Step, PieceAt, Decode;
    FirstPieceIsLocal(s, t);
    if PieceAt(s).Close? {
      CloseDecodes(s);
      CloseDecodes(t);
    } else {
      assert !PieceAt(s).Malformed? by { MalformedFails(s); }
      StepIsLocal(s, t);
      DecodeSteps(s);
      DecodeSteps(t);
      var k := Step(s).1;
      assert k > 0 by { StepTakes(s); }
      RestIsLocal(s, t, Decode(s).value.length + 1, k);
      DecodeIsLocal(s[k..], t[k..]);
    }
  }

  lemma CloseDecodes(s: seq<byte>)
    requires PieceAt(s).Close?
    ensures Decode(s) == Some(Decoded([], 0))
  {
    hide PieceAt;
  }

  lemma MalformedFails(s: seq<byte>)
    ensures PieceAt(s).Malformed? ==> Decode(s).None?
  {
    hide PieceAt;
  }

  lemma StepTakes(s: seq<byte>)
    requires !PieceAt(s).Close? && !PieceAt(s).Malformed?
    ensures Step(s).1 > 0
  {
  }

  lemma RestIsLocal(s: seq<byte>, t: seq<byte>, n: nat, k: nat)
    requires k <= n <= |s| && n <= |t| && t[..n] == s[..n]
    ensures t[k..][..n - k] == s[k..][..n - k]
  {
    assert t[k..][..n - k] == t[..n][k..] && s[k..][..n - k] == s[..n][k..];
  }

  /** A body and its closing quote are decoded as they are, whatever follows. */
  lemma BodyIsDecoded(text: seq<byte>, p: nat, raw: seq<byte>)
    requires IsBody(raw) && At(text, p, raw + [QUOTE])
    ensures Decode(text[p..]) == Some(Decoded(BodyBytes(raw), |raw|))
  {
    hide Decode;
    var s := raw + [QUOTE];
    assert text[p..][..|s|] == text[p..p + |s|];
    assert s[..|s|] == s;
    DecodeIsLocal(s, text[p..]);
  }

  /** What is decoded is a body. */
  lemma BodyIsFound(text: seq<byte>, p: nat)
    requires p <= |text| && Decode(text[p..]).Some?
    ensures var d := Decode(text[p..]).value; var raw := text[p..p + d.length];
            IsBody(raw) && BodyBytes(raw) == d.bytes
  {
    hide Decode;
    var s := text[p..];
    var d := Decode(s).value;
    var t := text[p..p + d.length] + [QUOTE];
    assert t == s[..d.length + 1];
    assert t[..d.length + 1] == t;
    DecodeIsLocal(s, t);
  }
}
