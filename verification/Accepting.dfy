/**
  Every JSON text is accepted, and the tokens and the decoded text encode its value.
 */
module Accepting {
  import opened Options
  import opened Utf8
  import opened JsonText
  import opened JsonTree
  import opened Scanning
  import opened InPlace
  import opened Jstr
  import opened Recognizing

  // ----- what is written stays -----

  predicate SameStart(text: seq<byte>, text': seq<byte>, hi: nat, hi': nat) {
    hi <= |text| && hi <= hi' <= |text'| && text'[..hi] == text[..hi]
  }

  predicate SameTokens(tokens: seq<Token>, tokens': seq<Token>, k: nat, n: nat) {
    k + n <= |tokens| && k + n <= |tokens'| && forall i :: k <= i < k + n ==> tokens'[i] == tokens[i]
  }

  lemma CStringStays(text: seq<byte>, text': seq<byte>, at: nat, bytes: seq<byte>, hi: nat, hi': nat)
    requires IsCString(text, at, bytes, hi) && SameStart(text, text', hi, hi')
    ensures IsCString(text', at, bytes, hi')
  {
    assert text'[at..at + |bytes|] == text'[..hi][at..at + |bytes|] == text[..hi][at..at + |bytes|] ==
           text[at..at + |bytes|];
    assert text'[at + |bytes|] == text'[..hi][at + |bytes|] == text[..hi][at + |bytes|];
  }

  lemma {:induction false} EncodesStays(text: seq<byte>, tokens: seq<Token>, text': seq<byte>, tokens': seq<Token>,
                                        k: nat, v: Json, hi: nat, hi': nat)
    requires IsJson(v) && Encodes(text, tokens, k, v, hi)
    requires SameStart(text, text', hi, hi') && SameTokens(tokens, tokens', k, Size(v))
    ensures Encodes(text', tokens', k, v, hi')
    decreases v
  {
    hide IsCString, SameStart;
    match v
    case Str(raw) => CStringStays(text, text', tokens[k].value, BodyBytes(raw), hi, hi');
    case Num(n) => CStringStays(text, text', tokens[k].value, NumberText(n), hi, hi');
    case Lit(l) => CStringStays(text, text', tokens[k].value, LiteralText(l), hi, hi');
    case EmptyArray(_) =>
    case Array(items) => EncodesItemsStays(text, tokens, text', tokens', k + 1, items, hi, hi');
    case EmptyObject(_) =>
    case Object(members) => EncodesMembersStays(text, tokens, text', tokens', k + 1, members, hi, hi');
  }

  lemma {:induction false} EncodesItemsStays(text: seq<byte>, tokens: seq<Token>, text': seq<byte>, tokens': seq<Token>,
                                             k: nat, items: Items, hi: nat, hi': nat)
    requires AreItems(items) && EncodesItems(text, tokens, k, items, hi)
    requires SameStart(text, text', hi, hi') && SameTokens(tokens, tokens', k, ItemsSize(items))
    ensures EncodesItems(text', tokens', k, items, hi')
    decreases items
  {
    hide IsCString, SameStart;
    EncodesStays(text, tokens, text', tokens', k, items.value, hi, hi');
    if items.MoreItems? {
      EncodesItemsStays(text, tokens, text', tokens', k + Size(items.value), items.rest, hi, hi');
    }
  }

  lemma {:induction false} EncodesMembersStays(text: seq<byte>, tokens: seq<Token>, text': seq<byte>,
                                               tokens': seq<Token>, k: nat, members: Members, hi: nat, hi': nat)
    requires AreMembers(members) && EncodesMembers(text, tokens, k, members, hi)
    requires SameStart(text, text', hi, hi') && SameTokens(tokens, tokens', k, MembersSize(members))
    ensures EncodesMembers(text', tokens', k, members, hi')
    decreases members
  {
    hide IsCString, SameStart;
    CStringStays(text, text', tokens[k].value, BodyBytes(members.key.raw), hi, hi');
    EncodesStays(text, tokens, text', tokens', k + 1, members.value, hi, hi');
    if members.MoreMembers? {
      EncodesMembersStays(text, tokens, text', tokens', k + 1 + Size(members.value), members.rest, hi, hi');
    }
  }

  // ----- frames -----

  /** From `m` to `m'` the parser added `n` tokens, wrote between the two positions only, and is
      in the same container. */
  predicate Frame(m: State, m': State, n: nat) {
    && |m'.text| == |m.text| && m.p <= m'.p < |m.text|
    && m'.text[..m.p] == m.text[..m.p] && m'.text[m'.p..] == m.text[m'.p..]
    && m'.parent == m.parent
    && |m'.tokens| == |m.tokens| + n && m'.tokens[..|m.tokens|] == m.tokens
  }

  lemma FrameTrans(m: State, m1: State, m2: State, a: nat, b: nat)
    requires Frame(m, m1, a) && Frame(m1, m2, b)
    ensures Frame(m, m2, a + b)
  {
    assert m2.text[..m.p] == m2.text[..m1.p][..m.p] == m1.text[..m1.p][..m.p] == m1.text[..m.p];
    assert m2.text[m2.p..] == m1.text[m2.p..] == m1.text[m1.p..][m2.p - m1.p..] == m.text[m1.p..][m2.p - m1.p..];
    var n := |m.tokens|;
    assert m2.tokens[..n] == m2.tokens[..|m1.tokens|][..n] == m1.tokens[..n];
  }

  lemma FrameSuffix(m: State, m': State, n: nat, p: nat, t: seq<byte>)
    requires Frame(m, m', n) && m'.p <= p && At(m.text, p, t)
    ensures At(m'.text, p, t)
  {
    assert m'.text[p..p + |t|] == m'.text[m'.p..][p - m'.p..p - m'.p + |t|];
    assert m.text[p..p + |t|] == m.text[m'.p..][p - m'.p..p - m'.p + |t|];
  }

  lemma FrameByte(m: State, m': State, n: nat, p: nat)
    requires Frame(m, m', n) && m'.p <= p < |m.text|
    ensures m'.text[p] == m.text[p]
  {
    assert m'.text[p] == m'.text[m'.p..][p - m'.p] && m.text[p] == m.text[m'.p..][p - m'.p];
  }

  lemma FrameReads(m: State, m': State, n: nat)
    requires IsReading(m) && Frame(m, m', n)
    ensures IsReading(m')
  {
    FrameByte(m, m', n, |m.text| - 1);
  }

  lemma FrameContext(m: State, m': State, n: nat, cs: Context)
    requires Frame(m, m', n) && InContext(m.tokens, m.parent, cs)
    ensures InContext(m'.tokens, m'.parent, cs)
  {
    assert forall i :: 0 <= i < |m.tokens| ==> m'.tokens[i] == m'.tokens[..|m.tokens|][i];
    if cs != Top {
      ChainStays(m.tokens, m'.tokens, m.parent);
    }
  }

  /** What is encoded behind `m` stays encoded. */
  lemma EncodesFramed(m: State, m': State, n: nat, k: nat, v: Json, hi: nat)
    requires IsJson(v) && Frame(m, m', n) && Encodes(m.text, m.tokens, k, v, hi) && hi <= m.p
    ensures Encodes(m'.text, m'.tokens, k, v, m'.p)
  {
    hide Encodes;
    assert SameTokens(m.tokens, m'.tokens, k, Size(v)) by {
      SizeFits(m.text, m.tokens, k, v, hi);
      assert forall i :: 0 <= i < |m.tokens| ==> m'.tokens[i] == m'.tokens[..|m.tokens|][i];
    }
    assert m'.text[..hi] == m'.text[..m.p][..hi] == m.text[..m.p][..hi] == m.text[..hi];
    EncodesStays(m.text, m.tokens, m'.text, m'.tokens, k, v, hi, m'.p);
  }

  lemma SizeFits(text: seq<byte>, tokens: seq<Token>, k: nat, v: Json, hi: nat)
    requires IsJson(v) && Encodes(text, tokens, k, v, hi)
    ensures k + Size(v) <= |tokens|
  {
  }

  // ----- scalars -----

  /** The parser has read `v`: it is about to commit, and when it has, the tokens from where `m`
      ended encode `v`. */
  predicate Ran(m: State, v: Json, m': State)
    requires IsJson(v)
  {
    Frame(m, m', Size(v)) && Encodes(m'.text[m'.p := 0], m'.tokens, |m.tokens|, v, m'.p + 1)
  }

  lemma ValueSkips(m: State, cs: Context, cap: nat, pad: seq<byte>)
    requires IsAtValue(m, cs, cap) && |m.tokens| + 2 <= cap
    requires At(m.text, m.p, pad) && AreWs(pad) && m.p + |pad| < |m.text| && !IsWs(m.text[m.p + |pad|])
    ensures ParseValue(m, cs, cap) == ParseToken(m.(p := m.p + |pad|), cs, cap)
  {
    hide ParseToken, Chain;
    SkipWsStops(m.text, m.p, pad);
  }

  lemma ScalarRan(m: State, kind: Kind, t: seq<byte>, v: Json)
    requires IsReading(m) && At(m.text, m.p, t) && m.p + |t| < |m.text| && IsJson(v)
    requires v.Num? || v.Lit?
    requires t == Text(v) && kind == if v.Num? then NumberToken else LiteralKind(v.literal)
    ensures Ran(m, v, Add(m, kind, m.p, m.p + |t|))
  {
    var m' := Add(m, kind, m.p, m.p + |t|);
    var text := m'.text[m'.p := 0];
    assert text[m.p..m.p + |t|] == m.text[m.p..m.p + |t|];
    assert IsCString(text, m.p, t, m'.p + 1);
  }

  lemma NumberRuns(m: State, cs: Context, cap: nat, n: Number) returns (m': State)
    requires IsAtValue(m, cs, cap) && |m.tokens| + 2 <= cap && IsNumber(n) && At(m.text, m.p, NumberText(n))
    requires m.p + |NumberText(n)| < |m.text| && IsDelimiter(m.text[m.p + |NumberText(n)|])
    ensures m'.p == m.p + |NumberText(n)| && Ran(m, Num(n), m')
    ensures IsAtCommit(m', cs, cap) && ParseToken(m, cs, cap) == Commit(m', cs, cap)
  {
    hide ParseToken, Commit, Chain, ScanNumber, Ran, NumberText, IsNumber, IsDelimiter;
    NumberIsScanned(m.text, m.p, n);
    NumberCommits(m, cs, cap, m.p + |NumberText(n)|);
    ScalarRan(m, NumberToken, NumberText(n), Num(n));
    m' := Add(m, NumberToken, m.p, m.p + |NumberText(n)|);
  }

  lemma NumberCommits(m: State, cs: Context, cap: nat, e: nat)
    requires IsAtValue(m, cs, cap) && |m.tokens| + 2 <= cap && (m.text[m.p] == MINUS || IsDigit(m.text[m.p]))
    requires ScanNumber(m.text, m.p) == Some(e)
    ensures var m' := Add(m, NumberToken, m.p, e);
            IsAtCommit(m', cs, cap) && ParseToken(m, cs, cap) == Commit(m', cs, cap)
  {
    hide Chain, ParseValue, ParseString, ParseWord, ParseKey, Commit, Pop, Open, ScanNumber;
    ContextStays(m.tokens, Token(NumberToken, m.p), m.parent, cs);
  }

  lemma WordRuns(m: State, cs: Context, cap: nat, l: Literal) returns (m': State)
    requires IsAtValue(m, cs, cap) && |m.tokens| + 2 <= cap && At(m.text, m.p, LiteralText(l))
    requires m.p + |LiteralText(l)| < |m.text| && IsDelimiter(m.text[m.p + |LiteralText(l)|])
    ensures m'.p == m.p + |LiteralText(l)| && Ran(m, Lit(l), m')
    ensures IsAtCommit(m', cs, cap) && ParseToken(m, cs, cap) == Commit(m', cs, cap)
  {
    hide ParseToken, ParseWord, Hash, Keyword, Commit, Chain, LiteralText, LiteralKind, IsDelimiter, Ran;
    var t := LiteralText(l);
    TokenIsWord(m, cs, cap, l);
    WordCommits(m, cs, cap, l);
    ScalarRan(m, LiteralKind(l), t, Lit(l));
    m' := Add(m, LiteralKind(l), m.p, m.p + |t|);
  }

  lemma WordCommits(m: State, cs: Context, cap: nat, l: Literal)
    requires IsAtValue(m, cs, cap) && |m.tokens| + 2 <= cap && At(m.text, m.p, LiteralText(l))
    requires m.p + |LiteralText(l)| < |m.text| && IsDelimiter(m.text[m.p + |LiteralText(l)|])
    requires IsLetter(m.text[m.p])
    ensures var m' := Add(m, LiteralKind(l), m.p, m.p + |LiteralText(l)|);
            IsAtCommit(m', cs, cap) && ParseWord(m, LiteralKind(l), cs, cap) == Commit(m', cs, cap)
  {
    hide ParseToken, Hash, Keyword, Commit, Chain, LiteralText, LiteralKind, IsDelimiter;
    var t := LiteralText(l);
    WordIsScanned(m.text, m.p, l);
    KeywordIsFound(t, l);
    ContextStays(m.tokens, Token(LiteralKind(l), m.p), m.parent, cs);
  }

  lemma TokenIsWord(m: State, cs: Context, cap: nat, l: Literal)
    requires IsAtValue(m, cs, cap) && |m.tokens| + 2 <= cap && At(m.text, m.p, LiteralText(l)) && m.p < |m.text|
    ensures IsLetter(m.text[m.p]) && ParseToken(m, cs, cap) == ParseWord(m, LiteralKind(l), cs, cap)
  {
    hide Chain, ParseValue, ParseString, ParseWord, ParseKey, Commit, Pop, Open, ScanNumber;
    AtIndex(m.text, m.p, LiteralText(l), 0);
  }

  lemma StringRuns(m: State, cs: Context, cap: nat, raw: seq<byte>) returns (m': State)
    requires IsReading(m) && InContext(m.tokens, m.parent, cs) && IsBody(raw)
    requires |m.tokens| + (if cs == ObjectKey then 1 else 2) <= cap
    requires At(m.text, m.p, [QUOTE] + raw + [QUOTE]) && m.p + |raw| + 2 < |m.text|
    ensures m'.p == m.p + |raw| + 2 && Frame(m, m', 1)
    ensures m'.tokens[|m.tokens|] == Token(StringToken, m.p + 1)
    ensures IsCString(m'.text, m.p + 1, BodyBytes(raw), m'.p)
    ensures m.text[m.p] == QUOTE
    ensures IsAtCommit(m', cs, cap) && ParseString(m, cs, cap) == Commit(m', cs, cap)
  {
    hide Chain, Commit, DecodeInPlace, Decode, IsBody, BodyBytes, Lands;
    assert m.text[m.p] == QUOTE && At(m.text, m.p + 1, raw + [QUOTE]) by {
      assert [QUOTE] + raw + [QUOTE] == [QUOTE] + (raw + [QUOTE]);
      AtSplits(m.text, m.p, [QUOTE], raw + [QUOTE]);
      AtIndex(m.text, m.p, [QUOTE], 0);
    }
    BodyIsDecoded(m.text, m.p + 1, raw);
    hide At;
    DecodeInPlaceLands(m.text, m.p + 1, m.p + 1);
    var r := DecodeInPlace(m.text, m.p + 1, m.p + 1);
    StringLands(m, r, BodyBytes(raw), |raw|);
    m' := Add(m.(text := r.value.0), StringToken, m.p + 1, r.value.1);
    hide Frame, IsCString;
    ContextStays(m.tokens, Token(StringToken, m.p + 1), m.parent, cs);
  }

  lemma StringLands(m: State, r: Option<(seq<byte>, nat)>, bytes: seq<byte>, n: nat)
    requires m.p + 1 < |m.text| && Lands(m.text, m.p + 1, m.p + 1, r, Some(Decoded(bytes, n)))
    ensures r.Some? && r.value.1 == m.p + n + 2
    ensures var m' := Add(m.(text := r.value.0), StringToken, m.p + 1, r.value.1);
            Frame(m, m', 1) && IsCString(m'.text, m.p + 1, bytes, m'.p)
  {
    var text' := r.value.0;
    assert text'[..m.p] == text'[..m.p + 1][..m.p] == m.text[..m.p + 1][..m.p];
  }

  lemma TextRuns(m: State, cs: Context, cap: nat, raw: seq<byte>) returns (m': State)
    requires IsAtValue(m, cs, cap) && |m.tokens| + 2 <= cap && IsBody(raw)
    requires At(m.text, m.p, Text(Str(raw))) && m.p + |raw| + 2 < |m.text|
    ensures m'.p == m.p + |raw| + 2 && Ran(m, Str(raw), m')
    ensures IsAtCommit(m', cs, cap) && ParseToken(m, cs, cap) == Commit(m', cs, cap)
  {
    hide Chain, ParseString, ParseWord, ParseKey, Commit, Pop, Open, ScanNumber, IsBody, BodyBytes, At;
    m' := StringRuns(m, cs, cap, raw);
    assert Ran(m, Str(raw), m') by {
      CStringStays(m'.text, m'.text[m'.p := 0], m.p + 1, BodyBytes(raw), m'.p, m'.p + 1);
    }
  }

  // ----- elements -----

  function Committed(m: State, q: nat): State
    requires m.p < |m.text|
  {
    m.(text := m.text[m.p := 0], p := q + 1)
  }

  /** Where a commit goes on, by the character behind the value. */
  lemma CommitMoves(m: State, cs: Context, cap: nat, m': State, c: byte)
    requires IsAtCommit(m, cs, cap) && m' == Committed(m, SkipWs(m.text, m.p)) && m.text[m'.p - 1] == c
    ensures cs == ObjectKey && c == COLON && IsAtValue(m', ObjectValue, cap) ==>
              Commit(m, cs, cap) == ParseValue(m', ObjectValue, cap)
    ensures cs == ObjectValue && c == RBRACE && IsAtPop(m', cap) ==> Commit(m, cs, cap) == Pop(m', cap)
    ensures cs == ObjectValue && c == COMMA && IsAtKey(m', cap) ==> Commit(m, cs, cap) == ParseKey(m', cap)
    ensures cs == ArrayItem && c == RBRACKET && IsAtPop(m', cap) ==> Commit(m, cs, cap) == Pop(m', cap)
    ensures cs == ArrayItem && c == COMMA && IsAtValue(m', ArrayItem, cap) ==>
              Commit(m, cs, cap) == ParseValue(m', ArrayItem, cap)
  {
    hide ParseValue, ParseKey, Pop, Chain;
  }

  lemma GapIsSkipped(m: State, after: seq<byte>, c: byte)
    requires IsReading(m) && AreWs(after) && !IsWs(c) && m.p + |after| + 1 < |m.text|
    requires At(m.text, m.p, after) && At(m.text, m.p + |after|, [c])
    ensures SkipWs(m.text, m.p) == m.p + |after| && m.text[m.p + |after|] == c
    ensures Frame(m, Committed(m, m.p + |after|), 0)
  {
    AtIndex(m.text, m.p + |after|, [c], 0);
    SkipWsStops(m.text, m.p, after);
  }

  lemma ValueStarts(v: Json)
    requires IsJson(v)
    ensures Text(v) != [] && !IsWs(Text(v)[0])
  {
    if v.Num? {
      var n := v.number;
      assert n.minus || IsDigit(n.whole[0]);
    }
  }

  predicate IsPunctuation(c: byte) { c == COMMA || c == RBRACKET || c == RBRACE }

  /** Where the parts of an element stand. */
  lemma ElementAt(text: seq<byte>, p: nat, before: seq<byte>, v: Json, after: seq<byte>, c: byte)
    requires IsJson(v) && AreWs(before) && AreWs(after) && IsPunctuation(c) &&
             At(text, p, ElementText(before, v, after, c))
    ensures var e := p + |before| + |Text(v)|;
            && At(text, p, before) && At(text, p + |before|, Text(v)) && At(text, e, after) &&
               At(text, e + |after|, [c])
            && e < |text| && IsDelimiter(text[e]) && !IsWs(text[p + |before|])
  {
    hide Text, At, IsJson;
    var e := p + |before| + |Text(v)|;
    AtSplits(text, p, before + Text(v) + after, [c]);
    AtSplits(text, p, before + Text(v), after);
    AtSplits(text, p, before, Text(v));
    ValueStarts(v);
    AtIndex(text, p + |before|, Text(v), 0);
    AtIndex(text, e + |after|, [c], 0);
    if after != [] {
      AtIndex(text, e, after, 0);
    }
  }

  /** One element of a container, with the character behind it. */
  lemma {:induction false} ElementRuns(m: State, cs: Context, cap: nat, before: seq<byte>, v: Json, after: seq<byte>,
                                       c: byte)
    returns (m1: State, m2: State)
    requires IsAtValue(m, cs, cap) && IsJson(v) && |m.tokens| + Size(v) + 1 <= cap
    requires AreWs(before) && AreWs(after) && IsPunctuation(c)
    requires At(m.text, m.p, ElementText(before, v, after, c)) && m.p + |ElementText(before, v, after, c)| < |m.text|
    ensures m2.p == m.p + |ElementText(before, v, after, c)| && Frame(m, m2, Size(v))
    ensures Encodes(m2.text, m2.tokens, |m.tokens|, v, m2.p)
    ensures IsAtCommit(m1, cs, cap) && ParseValue(m, cs, cap) == Commit(m1, cs, cap)
    ensures m2 == Committed(m1, SkipWs(m1.text, m1.p)) && m1.text[m2.p - 1] == c
    decreases Size(v), 1
  {
    hide At, Text, IsJson, ParseValue, ParseToken, Commit, Chain, Encodes, Frame, Size;
    ElementAt(m.text, m.p, before, v, after, c);
    ValueSkips(m, cs, cap, before);
    var m0 := m.(p := m.p + |before|);
    StandsStill(m, m0);
    m1 := ValueRuns(m0, cs, cap, v);
    FrameTrans(m, m0, m1, 0, Size(v));
    FrameSizes(m, m1, Size(v));
    m2 := ElementCommits(m, v, m1, after, c);
  }

  lemma ElementCommits(m: State, v: Json, m1: State, after: seq<byte>, c: byte) returns (m2: State)
    requires IsJson(v) && IsReading(m1) && Ran(m, v, m1) && AreWs(after) && IsPunctuation(c)
    requires At(m.text, m1.p, after) && At(m.text, m1.p + |after|, [c]) && m1.p + |after| + 1 < |m.text|
    ensures m2.p == m1.p + |after| + 1 && Frame(m, m2, Size(v))
    ensures Encodes(m2.text, m2.tokens, |m.tokens|, v, m2.p)
    ensures m2 == Committed(m1, SkipWs(m1.text, m1.p)) && m1.text[m2.p - 1] == c
  {
    hide At, IsJson, Encodes, Frame, Size;
    FrameSizes(m, m1, Size(v));
    FrameSuffix(m, m1, Size(v), m1.p, after);
    FrameSuffix(m, m1, Size(v), m1.p + |after|, [c]);
    GapIsSkipped(m1, after, c);
    m2 := Committed(m1, m1.p + |after|);
    FrameTrans(m, m1, m2, Size(v), 0);
    SizeFits(m2.text, m2.tokens, |m.tokens|, v, m1.p + 1);
    EncodesStays(m2.text, m2.tokens, m2.text, m2.tokens, |m.tokens|, v, m1.p + 1, m2.p);
  }

  lemma StandsStill(m: State, m': State)
    requires m' == m.(p := m'.p) && m.p <= m'.p < |m.text|
    ensures Frame(m, m', 0)
  {
  }

  // ----- containers -----

  /** The parser opened a container, added `n` tokens and closes it: it is back where it was. */
  lemma CloseReturns(m: State, cs: Context, cap: nat, kind: Kind, q: nat, m3: State, n: nat)
    requires IsAtValue(m, cs, cap) && IsContainer(kind) && m.p <= q && Frame(Open(m, cs, kind, q), m3, n)
    ensures Chain(m3.tokens, m3.parent) && ContextAfter(m3) == cs
    ensures Frame(m, Closed(m3), n + 1) && Closed(m3).tokens[|m.tokens|] == Token(kind, n + 1)
    ensures SameTokens(m3.tokens, Closed(m3).tokens, |m.tokens| + 1, n)
  {
    var m1 := Open(m, cs, kind, q);
    var k := |m.tokens|;
    FrameContext(m1, m3, n, if kind == ArrayToken then ArrayItem else ObjectValue);
    assert forall i :: 0 <= i <= k ==> m3.tokens[i] == m3.tokens[..k + 1][i];
    hide Chain;
    var m4 := Closed(m3);
    assert m4.tokens[..k] == m3.tokens[..k] == m3.tokens[..k + 1][..k] == m1.tokens[..k];
    assert m3.text[..m.p] == m3.text[..q][..m.p] == m.text[..q][..m.p];
  }

  lemma {:induction false} ItemsRun(m: State, cap: nat, items: Items) returns (m': State)
    requires IsAtValue(m, ArrayItem, cap) && AreItems(items) && |m.tokens| + ItemsSize(items) + 1 <= cap
    requires At(m.text, m.p, ItemsText(items)) && m.p + |ItemsText(items)| < |m.text|
    ensures m'.p == m.p + |ItemsText(items)| && Frame(m, m', ItemsSize(items))
    ensures EncodesItems(m'.text, m'.tokens, |m.tokens|, items, m'.p)
    ensures IsAtPop(m', cap) && ParseValue(m, ArrayItem, cap) == Pop(m', cap)
    decreases ItemsSize(items), 2
  {
    hide At, Text, IsJson, ParseValue, ParseToken, ParseKey, Commit, Pop, Chain, Encodes, Frame, Size, ElementText,
         SkipWs;
    var v := items.value;
    var c := if items.LastItem? then RBRACKET else COMMA;
    var head := ElementText(items.before, v, items.after, c);
    if items.MoreItems? {
      AtSplits(m.text, m.p, head, ItemsText(items.rest));
    }
    var m1, m2 := ElementRuns(m, ArrayItem, cap, items.before, v, items.after, c);
    FrameReads(m, m2, Size(v));
    FrameContext(m, m2, Size(v), ArrayItem);
    FrameSizes(m, m2, Size(v));
    CommitMoves(m1, ArrayItem, cap, m2, c);
    if items.LastItem? {
      m' := m2;
      SizeFits(m2.text, m2.tokens, |m.tokens|, v, m2.p);
    } else {
      FrameSuffix(m, m2, Size(v), m2.p, ItemsText(items.rest));
      m' := ItemsRun(m2, cap, items.rest);
      FrameTrans(m, m2, m', Size(v), ItemsSize(items.rest));
      FrameSizes(m, m', ItemsSize(items));
      EncodesFramed(m2, m', ItemsSize(items.rest), |m.tokens|, v, m2.p);
    }
  }

  lemma FrameSizes(m: State, m': State, n: nat)
    requires Frame(m, m', n)
    ensures |m'.text| == |m.text| && m.p <= m'.p < |m.text|
    ensures m'.parent == m.parent && |m'.tokens| == |m.tokens| + n
  {
  }

  lemma KeyRuns(m: State, cap: nat, key: Key) returns (m': State)
    requires IsAtKey(m, cap) && IsKey(key)
    requires At(m.text, m.p, KeyText(key)) && m.p + |KeyText(key)| < |m.text|
    ensures m'.p == m.p + |KeyText(key)| && Frame(m, m', 1)
    ensures m'.tokens[|m.tokens|].kind == StringToken
    ensures IsCString(m'.text, m'.tokens[|m.tokens|].value, BodyBytes(key.raw), m'.p)
    ensures IsAtValue(m', ObjectValue, cap) && ParseKey(m, cap) == ParseValue(m', ObjectValue, cap)
  {
    hide At, ParseValue, ParseString, ParseKey, Commit, Chain, Frame, IsBody, BodyBytes, IsCString;
    KeyAt(m.text, m.p, key);
    var p := m.p + |key.before|;
    var e := p + |key.raw| + 2;
    var m0 := m.(p := p);
    StandsStill(m, m0);
    var m1 := StringRuns(m0, ObjectKey, cap, key.raw);
    KeySkips(m, cap, key.before);
    FrameTrans(m, m0, m1, 0, 1);
    FrameSizes(m, m1, 1);
    FrameSuffix(m, m1, 1, e, key.after);
    FrameSuffix(m, m1, 1, e + |key.after|, [COLON]);
    m' := ColonRuns(m1, cap, key.after, |m.tokens|, BodyBytes(key.raw));
    FrameTrans(m, m1, m', 1, 0);
  }

  lemma KeyAt(text: seq<byte>, p: nat, key: Key)
    requires At(text, p, KeyText(key))
    ensures var q := p + |key.before|; var e := q + |key.raw| + 2;
            && At(text, p, key.before) && At(text, q, [QUOTE] + key.raw + [QUOTE])
            && At(text, e, key.after) && At(text, e + |key.after|, [COLON])
  {
    hide At;
    var quoted := [QUOTE] + key.raw + [QUOTE];
    AtSplits(text, p, key.before + quoted + key.after, [COLON]);
    AtSplits(text, p, key.before + quoted, key.after);
    AtSplits(text, p, key.before, quoted);
  }

  lemma KeySkips(m: State, cap: nat, pad: seq<byte>)
    requires IsAtKey(m, cap) && AreWs(pad) && At(m.text, m.p, pad)
    requires m.p + |pad| < |m.text| && m.text[m.p + |pad|] == QUOTE
    ensures ParseKey(m, cap) == ParseString(m.(p := m.p + |pad|), ObjectKey, cap)
  {
    hide Chain, ParseString;
    SkipWsStops(m.text, m.p, pad);
  }

  /** From the end of a key past its colon. */
  lemma ColonRuns(m: State, cap: nat, after: seq<byte>, k: nat, bytes: seq<byte>) returns (m': State)
    requires IsAtCommit(m, ObjectKey, cap) && AreWs(after) && m.p + |after| + 1 < |m.text|
    requires At(m.text, m.p, after) && At(m.text, m.p + |after|, [COLON])
    requires k < |m.tokens| && m.tokens[k].kind == StringToken && IsCString(m.text, m.tokens[k].value, bytes, m.p)
    ensures m'.p == m.p + |after| + 1 && Frame(m, m', 0)
    ensures m'.tokens[k] == m.tokens[k] && IsCString(m'.text, m.tokens[k].value, bytes, m'.p)
    ensures IsAtValue(m', ObjectValue, cap) && Commit(m, ObjectKey, cap) == ParseValue(m', ObjectValue, cap)
  {
    hide At, ParseValue, ParseKey, Pop, Chain, IsCString, Frame;
    GapIsSkipped(m, after, COLON);
    m' := Committed(m, m.p + |after|);
    FrameReads(m, m', 0);
    FrameContext(m, m', 0, ObjectValue);
    CStringStays(m.text, m'.text, m.tokens[k].value, bytes, m.p, m'.p);
  }

  /** One member of an object, with the character behind it. */
  lemma {:induction false} MemberRuns(m: State, cap: nat, members: Members, c: byte) returns (m1: State, m2: State)
    requires IsAtKey(m, cap) && AreMembers(members) && |m.tokens| + Size(members.value) + 2 <= cap
    requires IsPunctuation(c)
    requires var key := KeyText(members.key);
             var head := ElementText(members.key.pad, members.value, members.after, c);
             At(m.text, m.p, key) && At(m.text, m.p + |key|, head) && m.p + |key| + |head| < |m.text|
    ensures m2.p == m.p + |KeyText(members.key)| + |ElementText(members.key.pad, members.value, members.after, c)|
    ensures Frame(m, m2, 1 + Size(members.value))
    ensures m2.tokens[|m.tokens|].kind == StringToken
    ensures IsCString(m2.text, m2.tokens[|m.tokens|].value, BodyBytes(members.key.raw), m2.p)
    ensures Encodes(m2.text, m2.tokens, |m.tokens| + 1, members.value, m2.p)
    ensures IsAtCommit(m1, ObjectValue, cap) && ParseKey(m, cap) == Commit(m1, ObjectValue, cap)
    ensures m2 == Committed(m1, SkipWs(m1.text, m1.p)) && m1.text[m2.p - 1] == c
    decreases Size(members.value), 2
  {
    hide At, Text, IsJson, ParseValue, ParseKey, Commit, Pop, Chain, Encodes, Frame, Size, ElementText, KeyText,
         IsCString, BodyBytes, IsKey;
    var key, v := members.key, members.value;
    var head := ElementText(key.pad, v, members.after, c);
    var m0 := KeyRuns(m, cap, key);
    FrameSizes(m, m0, 1);
    FrameSuffix(m, m0, 1, m0.p, head);
    KeyPads(key);
    m1, m2 := ElementRuns(m0, ObjectValue, cap, key.pad, v, members.after, c);
    FrameTrans(m, m0, m2, 1, Size(v));
    FrameSizes(m0, m2, Size(v));
    KeyStays(m0, m2, Size(v), |m.tokens|, BodyBytes(key.raw));
  }

  lemma {:induction false} MembersRun(m: State, cap: nat, members: Members) returns (m': State)
    requires IsAtKey(m, cap) && AreMembers(members) && |m.tokens| + MembersSize(members) + 1 <= cap
    requires At(m.text, m.p, MembersText(members)) && m.p + |MembersText(members)| < |m.text|
    ensures m'.p == m.p + |MembersText(members)| && Frame(m, m', MembersSize(members))
    ensures EncodesMembers(m'.text, m'.tokens, |m.tokens|, members, m'.p)
    ensures IsAtPop(m', cap) && ParseKey(m, cap) == Pop(m', cap)
    decreases MembersSize(members), 2
  {
    hide At, Text, IsJson, ParseValue, ParseKey, Commit, Pop, Chain, Encodes, Frame, Size, ElementText, KeyText,
         IsCString, BodyBytes, IsKey, MembersText, SkipWs;
    var v := members.value;
    var c := if members.LastMember? then RBRACE else COMMA;
    MembersAt(m.text, m.p, members);
    var m1, m2 := MemberRuns(m, cap, members, c);
    FrameReads(m, m2, 1 + Size(v));
    FrameContext(m, m2, 1 + Size(v), ObjectKey);
    FrameSizes(m, m2, 1 + Size(v));
    KeyPads(members.key);
    CommitMoves(m1, ObjectValue, cap, m2, c);
    if members.LastMember? {
      m' := m2;
      SizeFits(m2.text, m2.tokens, |m.tokens| + 1, v, m2.p);
    } else {
      FrameSuffix(m, m2, 1 + Size(v), m2.p, MembersText(members.rest));
      m' := MembersRun(m2, cap, members.rest);
      FrameTrans(m, m2, m', 1 + Size(v), MembersSize(members.rest));
      FrameSizes(m, m', MembersSize(members));
      EncodesFramed(m2, m', MembersSize(members.rest), |m.tokens| + 1, v, m2.p);
      KeyStays(m2, m', MembersSize(members.rest), |m.tokens|, BodyBytes(members.key.raw));
    }
  }

  lemma KeyPads(key: Key)
    requires IsKey(key)
    ensures AreWs(key.pad) && IsBody(key.raw)
  {
  }

  lemma MembersAt(text: seq<byte>, p: nat, members: Members)
    requires At(text, p, MembersText(members))
    ensures var c := if members.LastMember? then RBRACE else COMMA;
            var head := ElementText(members.key.pad, members.value, members.after, c);
            var q := p + |KeyText(members.key)|;
            && At(text, p, KeyText(members.key)) && At(text, q, head)
            && |MembersText(members)| ==
               |KeyText(members.key)| + |head| + (if members.LastMember? then 0 else |MembersText(members.rest)|)
            && (members.MoreMembers? ==> At(text, q + |head|, MembersText(members.rest)))
  {
    hide At, ElementText, KeyText;
    var key := KeyText(members.key);
    if members.LastMember? {
      AtSplits(text, p, key, ElementText(members.key.pad, members.value, members.after, RBRACE));
    } else {
      var head := ElementText(members.key.pad, members.value, members.after, COMMA);
      AtSplits(text, p, key, head + MembersText(members.rest));
      AtSplits(text, p + |key|, head, MembersText(members.rest));
    }
  }

  lemma KeyStays(m: State, m': State, n: nat, k: nat, bytes: seq<byte>)
    requires Frame(m, m', n) && k < |m.tokens| && m.tokens[k].kind == StringToken
    requires IsCString(m.text, m.tokens[k].value, bytes, m.p)
    ensures m'.tokens[k].kind == StringToken && IsCString(m'.text, m'.tokens[k].value, bytes, m'.p)
  {
    assert m'.tokens[k] == m'.tokens[..|m.tokens|][k];
    CStringStays(m.text, m'.text, m.tokens[k].value, bytes, m.p, m'.p);
  }

  lemma OpenSkips(m: State, cs: Context, cap: nat, kind: Kind, pad: seq<byte>)
    requires IsAtValue(m, cs, cap) && |m.tokens| + 2 <= cap && IsContainer(kind)
    requires m.text[m.p] == if kind == ArrayToken then LBRACKET else LBRACE
    requires AreWs(pad) && At(m.text, m.p + 1, pad)
    requires var q := m.p + 1 + |pad|; q < |m.text| && !IsWs(m.text[q])
    ensures var q := m.p + 1 + |pad|; var empty := Open(m, cs, kind, q + 1); var m1 := Open(m, cs, kind, q);
            if m.text[q] == (if kind == ArrayToken then RBRACKET else RBRACE) then
              IsAtPop(empty, cap) && ParseToken(m, cs, cap) == Pop(empty, cap)
            else if kind == ArrayToken then
              IsAtValue(m1, ArrayItem, cap) && ParseToken(m, cs, cap) == ParseValue(m1, ArrayItem, cap)
            else IsAtKey(m1, cap) && ParseToken(m, cs, cap) == ParseKey(m1, cap)
  {
    hide ParseValue, ParseString, ParseWord, ParseKey, Commit, Pop, Chain, Open, ScanNumber;
    SkipWsStops(m.text, m.p + 1, pad);
  }

  lemma EmptyRuns(m: State, cs: Context, cap: nat, v: Json) returns (m': State)
    requires IsAtValue(m, cs, cap) && |m.tokens| + 2 <= cap && IsJson(v) && (v.EmptyArray? || v.EmptyObject?)
    requires At(m.text, m.p, Text(v)) && m.p + |Text(v)| < |m.text|
    ensures m'.p == m.p + |Text(v)| && Ran(m, v, m')
    ensures IsAtCommit(m', cs, cap) && ParseToken(m, cs, cap) == Commit(m', cs, cap)
  {
    hide At, ParseToken, Commit, Chain, Open, Closed, ContextAfter, Text;
    var kind := if v.EmptyArray? then ArrayToken else ObjectToken;
    EmptyParts(m.text, m.p, v);
    OpenSkips(m, cs, cap, kind, v.pad);
    var q := m.p + 1 + |v.pad|;
    var m1 := Open(m, cs, kind, q + 1);
    assert Frame(m1, m1, 0);
    CloseReturns(m, cs, cap, kind, q + 1, m1, 0);
    m' := Closed(m1);
  }

  lemma EmptyParts(text: seq<byte>, p: nat, v: Json)
    requires (v.EmptyArray? || v.EmptyObject?) && At(text, p, Text(v))
    ensures var q := p + 1 + |v.pad|;
            && q < |text| && text[p] == (if v.EmptyArray? then LBRACKET else LBRACE)
            && At(text, p + 1, v.pad) && text[q] == (if v.EmptyArray? then RBRACKET else RBRACE) &&
               |Text(v)| == |v.pad| + 2
  {
    hide At;
    var left, right := if v.EmptyArray? then LBRACKET else LBRACE, if v.EmptyArray? then RBRACKET else RBRACE;
    AtSplits(text, p, [left] + v.pad, [right]);
    AtSplits(text, p, [left], v.pad);
    AtIndex(text, p, [left], 0);
    AtIndex(text, p + 1 + |v.pad|, [right], 0);
  }

  lemma {:induction false} ArrayRuns(m: State, cs: Context, cap: nat, items: Items) returns (m': State)
    requires IsAtValue(m, cs, cap) && AreItems(items) && |m.tokens| + Size(Array(items)) + 1 <= cap
    requires At(m.text, m.p, Text(Array(items))) && m.p + |Text(Array(items))| < |m.text|
    ensures m'.p == m.p + |Text(Array(items))| && Ran(m, Array(items), m')
    ensures IsAtCommit(m', cs, cap) && ParseToken(m, cs, cap) == Commit(m', cs, cap)
    decreases ItemsSize(items), 3
  {
    ArrayText(items);
    hide At, ParseValue, ParseToken, Commit, Chain, Open, Frame, EncodesItems, ItemsText, Text, Ran, Encodes, SameStart;
    AtSplits(m.text, m.p, [LBRACKET], ItemsText(items));
    AtIndex(m.text, m.p, [LBRACKET], 0);
    FirstItem(m.text, m.p + 1, items);
    OpenSkips(m, cs, cap, ArrayToken, items.before);
    var q := m.p + 1 + |items.before|;
    var first := items.(before := []);
    var m1 := Open(m, cs, ArrayToken, q);
    var m3 := ItemsRun(m1, cap, first);
    CloseReturns(m, cs, cap, ArrayToken, q, m3, ItemsSize(items));
    m' := Closed(m3);
    FrameReads(m, m', Size(Array(items)));
    FrameSizes(m, m', Size(Array(items)));
    SameItems(m3.text, m3.tokens, |m.tokens| + 1, items, m3.p);
    StartIsSame(m3, m');
    EncodesItemsStays(m3.text, m3.tokens, m'.text[m'.p := 0], m'.tokens, |m.tokens| + 1, items, m3.p, m'.p + 1);
    ArrayIsRan(m, items, m');
  }

  lemma ArrayText(items: Items)
    ensures Text(Array(items)) == [LBRACKET] + ItemsText(items)
  {
    hide ItemsText;
  }

  lemma StartIsSame(m3: State, m': State)
    requires m'.text == m3.text && m'.p == m3.p < |m3.text|
    ensures SameStart(m3.text, m'.text[m'.p := 0], m3.p, m'.p + 1)
  {
  }

  lemma ArrayIsRan(m: State, items: Items, m': State)
    requires AreItems(items) && Frame(m, m', Size(Array(items))) && |m'.tokens| == |m.tokens| + Size(Array(items))
    requires m'.p < |m'.text| && m'.tokens[|m.tokens|] == Token(ArrayToken, Size(Array(items)))
    requires EncodesItems(m'.text[m'.p := 0], m'.tokens, |m.tokens| + 1, items, m'.p + 1)
    ensures Ran(m, Array(items), m')
  {
    hide Frame, EncodesItems;
  }

  /** The whitespace before the first item has been skipped already. */
  lemma FirstItem(text: seq<byte>, p: nat, items: Items)
    requires AreItems(items) && At(text, p, ItemsText(items)) && p + |ItemsText(items)| < |text|
    ensures var first := items.(before := []); var q := p + |items.before|;
            && AreItems(first) && ItemsSize(first) == ItemsSize(items)
            && At(text, p, items.before) && AreWs(items.before)
            && At(text, q, ItemsText(first)) && q + |ItemsText(first)| == p + |ItemsText(items)|
            && !IsWs(text[q]) && text[q] != RBRACKET
  {
    hide At, Text, IsJson;
    var first := items.(before := []);
    ValueOpens(items.value);
    ItemsTextSplits(items);
    AtSplits(text, p, items.before, ItemsText(first));
    hide ItemsText;
    AtIndex(text, p + |items.before|, ItemsText(first), 0);
  }

  lemma ItemsTextSplits(items: Items)
    requires Text(items.value) != []
    ensures var t := ItemsText(items.(before := []));
            ItemsText(items) == items.before + t && t != [] && t[0] == Text(items.value)[0]
  {
    hide Text;
    var c := if items.LastItem? then RBRACKET else COMMA;
    var b := items.before;
    assert ElementText(b, items.value, items.after, c) == b + ElementText([], items.value, items.after, c);
  }

  lemma ValueOpens(v: Json)
    requires IsJson(v)
    ensures Text(v) != [] && !IsWs(Text(v)[0]) && !IsPunctuation(Text(v)[0])
  {
    if v.Num? {
      var n := v.number;
      assert n.minus || IsDigit(n.whole[0]);
    }
  }

  lemma SameItems(text: seq<byte>, tokens: seq<Token>, k: nat, items: Items, hi: nat)
    requires AreItems(items) && AreItems(items.(before := [])) &&
             EncodesItems(text, tokens, k, items.(before := []), hi)
    ensures EncodesItems(text, tokens, k, items, hi) && k + ItemsSize(items) <= |tokens|
  {
  }

  lemma {:induction false} ObjectRuns(m: State, cs: Context, cap: nat, members: Members) returns (m': State)
    requires IsAtValue(m, cs, cap) && AreMembers(members) && |m.tokens| + Size(Object(members)) + 1 <= cap
    requires At(m.text, m.p, Text(Object(members))) && m.p + |Text(Object(members))| < |m.text|
    ensures m'.p == m.p + |Text(Object(members))| && Ran(m, Object(members), m')
    ensures IsAtCommit(m', cs, cap) && ParseToken(m, cs, cap) == Commit(m', cs, cap)
    decreases MembersSize(members), 3
  {
    hide At, ParseKey, ParseToken, Commit, Chain, Open, Frame, EncodesMembers, MembersText, Closed, ContextAfter,
         IsJson, AreMembers;
    AtSplits(m.text, m.p, [LBRACE], MembersText(members));
    AtIndex(m.text, m.p, [LBRACE], 0);
    FirstMember(m.text, m.p + 1, members);
    var before := members.key.before;
    OpenSkips(m, cs, cap, ObjectToken, before);
    var q := m.p + 1 + |before|;
    var first := members.(key := members.key.(before := []));
    var m1 := Open(m, cs, ObjectToken, q);
    var m3 := MembersRun(m1, cap, first);
    CloseReturns(m, cs, cap, ObjectToken, q, m3, MembersSize(members));
    m' := Closed(m3);
    FrameReads(m, m', Size(Object(members)));
    FrameSizes(m, m', Size(Object(members)));
    SameMembers(m3.text, m3.tokens, |m.tokens| + 1, members, m3.p);
    assert SameStart(m3.text, m'.text[m'.p := 0], m3.p, m'.p + 1);
    EncodesMembersStays(m3.text, m3.tokens, m'.text[m'.p := 0], m'.tokens, |m.tokens| + 1, members, m3.p, m'.p + 1);
  }

  lemma FirstMember(text: seq<byte>, p: nat, members: Members)
    requires AreMembers(members) && At(text, p, MembersText(members)) && p + |MembersText(members)| < |text|
    ensures var before := members.key.before;
            var first := members.(key := members.key.(before := [])); var q := p + |before|;
            && AreMembers(first) && MembersSize(first) == MembersSize(members)
            && At(text, p, before) && AreWs(before)
            && At(text, q, MembersText(first)) && q + |MembersText(first)| == p + |MembersText(members)|
            && text[q] == QUOTE
  {
    hide IsBody, At, IsJson;
    var before := members.key.before;
    var first := members.(key := members.key.(before := []));
    MembersTextSplits(members);
    hide MembersText;
    AtSplits(text, p, before, MembersText(first));
    AtIndex(text, p + |before|, MembersText(first), 0);
  }

  lemma MembersTextSplits(members: Members)
    ensures var t := MembersText(members.(key := members.key.(before := [])));
            MembersText(members) == members.key.before + t && t != [] && t[0] == QUOTE
  {
    hide Text, ElementText;
    var b := members.key.before;
    assert KeyText(members.key) == b + KeyText(members.key.(before := []));
    assert KeyText(members.key.(before := []))[0] == QUOTE;
  }

  lemma SameMembers(text: seq<byte>, tokens: seq<Token>, k: nat, members: Members, hi: nat)
    requires AreMembers(members)
    requires var first := members.(key := members.key.(before := []));
             AreMembers(first) && EncodesMembers(text, tokens, k, first, hi)
    ensures EncodesMembers(text, tokens, k, members, hi) && k + MembersSize(members) <= |tokens|
  {
  }

  /** A value that stands at the read position is read: the parser gets ready to commit it, and
      what it wrote encodes the value. */
  lemma {:induction false} ValueRuns(m: State, cs: Context, cap: nat, v: Json) returns (m': State)
    requires IsAtValue(m, cs, cap) && IsJson(v) && |m.tokens| + Size(v) + 1 <= cap
    requires At(m.text, m.p, Text(v)) && m.p + |Text(v)| < |m.text| && IsDelimiter(m.text[m.p + |Text(v)|])
    ensures m'.p == m.p + |Text(v)| && Ran(m, v, m')
    ensures IsAtCommit(m', cs, cap) && ParseToken(m, cs, cap) == Commit(m', cs, cap)
    decreases Size(v), 0
  {
    hide At, ParseToken, Commit, Chain, Ran, IsDelimiter;
    match v
    case Str(raw) => m' := TextRuns(m, cs, cap, raw);
    case Num(n) => m' := NumberRuns(m, cs, cap, n);
    case Lit(l) => m' := WordRuns(m, cs, cap, l);
    case EmptyArray(_) => m' := EmptyRuns(m, cs, cap, v);
    case Array(items) => m' := ArrayRuns(m, cs, cap, items);
    case EmptyObject(_) => m' := EmptyRuns(m, cs, cap, v);
    case Object(members) => m' := ObjectRuns(m, cs, cap, members);
  }

  /** A JSON text, and nothing behind it, up to the terminating NUL. */
  predicate IsText(text: seq<byte>, n: nat, before: seq<byte>, v: Json, after: seq<byte>) {
    && IsJson(v) && AreWs(before) && AreWs(after)
    && n < |text| && text[n] == 0 && text[..n] == before + Text(v) + after
  }

  /** Every JSON text is accepted in one call with one token more than it has values, and the
      result encodes its value. */
  lemma TextIsAccepted(text: seq<byte>, n: nat, cap: nat, before: seq<byte>, v: Json, after: seq<byte>)
    requires HasEnd(text) && IsText(text, n, before, v, after) && Size(v) + 1 <= cap
    ensures var r := Parse(text, cap);
            && r.Done? && r.length == n && |r.tokens| == Size(v) && |r.text| == |text|
            && Encodes(r.text, r.tokens, 0, v, |text|)
  {
    hide At, ParseValue, ParseToken, Commit, Chain, Encodes, Text, IsJson, Frame, Ran;
    var m := State(text, 0, [], 0);
    var e := |before| + |Text(v)|;
    TextAt(text, n, before, v, after);
    ValueSkips(m, Top, cap, before);
    var m0 := m.(p := |before|);
    var m1 := ValueRuns(m0, Top, cap, v);
    TopCommits(m0, cap, v, m1, n, after);
  }

  lemma TextAt(text: seq<byte>, n: nat, before: seq<byte>, v: Json, after: seq<byte>)
    requires IsText(text, n, before, v, after)
    ensures var e := |before| + |Text(v)|;
            && At(text, 0, before) && At(text, |before|, Text(v)) && At(text, e, after) && e + |after| == n
            && |before| < e < |text| && !IsWs(text[|before|]) && IsDelimiter(text[e])
  {
    hide Text, IsJson;
    var e := |before| + |Text(v)|;
    assert At(text, 0, before + Text(v) + after);
    hide At;
    AtSplits(text, 0, before + Text(v), after);
    AtSplits(text, 0, before, Text(v));
    ValueStarts(v);
    AtIndex(text, |before|, Text(v), 0);
    if after != [] {
      AtIndex(text, e, after, 0);
    }
  }

  lemma TopCommits(m: State, cap: nat, v: Json, m1: State, n: nat, after: seq<byte>)
    requires IsReading(m) && IsJson(v) && Ran(m, v, m1) && m.tokens == [] && IsAtCommit(m1, Top, cap)
    requires AreWs(after) && At(m.text, m1.p, after) && m1.p + |after| == n < |m.text| && m.text[n] == 0
    ensures var r := Commit(m1, Top, cap);
            && r.Done? && r.length == n && |r.tokens| == Size(v) && |r.text| == |m.text|
            && Encodes(r.text, r.tokens, 0, v, |m.text|)
  {
    hide At, Encodes, Chain, ParseValue, ParseKey, Pop, Frame, IsJson, Size;
    FrameSizes(m, m1, Size(v));
    FrameSuffix(m, m1, Size(v), m1.p, after);
    FrameByte(m, m1, Size(v), n);
    SkipWsStops(m1.text, m1.p, after);
    var text := m1.text[m1.p := 0];
    SizeFits(text, m1.tokens, 0, v, m1.p + 1);
    EncodesStays(text, m1.tokens, text, m1.tokens, 0, v, m1.p + 1, |text|);
  }
}
