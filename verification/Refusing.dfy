/**
  Only JSON texts are accepted: a parse that succeeds has read a value.
 */
module Refusing {
  import opened Options
  import opened Utf8
  import opened JsonText
  import opened JsonTree
  import opened Scanning
  import opened InPlace
  import opened Jstr
  import opened Resuming
  import opened Recognizing
  import opened Accepting

  /** The parser went over the text of `v`. */
  predicate Found(m: State, v: Json, m': State) {
    IsJson(v) && At(m.text, m.p, Text(v)) && m'.p == m.p + |Text(v)| && Frame(m, m', Size(v))
  }

  lemma SliceIsAt(text: seq<byte>, p: nat, e: nat)
    requires p <= e <= |text|
    ensures At(text, p, text[p..e])
  {
  }

  lemma SkippedIsWs(text: seq<byte>, p: nat)
    requires HasEnd(text) && p < |text|
    ensures var q := SkipWs(text, p); AreWs(text[p..q]) && At(text, p, text[p..q])
  {
  }

  lemma NumberIsRead(m: State, cs: Context, cap: nat) returns (v: Json, m': State)
    requires IsAtValue(m, cs, cap) && |m.tokens| + 2 <= cap && (m.text[m.p] == MINUS || IsDigit(m.text[m.p]))
    requires ParseToken(m, cs, cap).Done?
    ensures Found(m, v, m') && IsAtCommit(m', cs, cap) && ParseToken(m, cs, cap) == Commit(m', cs, cap)
  {
    hide Chain, ParseValue, ParseString, ParseWord, ParseKey, Commit, Pop, Open, ScanNumber, NumberText, IsNumber;
    var e := ScanNumber(m.text, m.p).value;
    var n := NumberIsFound(m.text, m.p, e);
    v := Num(n);
    ContextStays(m.tokens, Token(NumberToken, m.p), m.parent, cs);
    m' := Add(m, NumberToken, m.p, e);
    SliceIsAt(m.text, m.p, e);
  }

  lemma StringIsRead(m: State, cs: Context, cap: nat) returns (raw: seq<byte>, m': State)
    requires IsReading(m) && m.text[m.p] == QUOTE && InContext(m.tokens, m.parent, cs)
    requires |m.tokens| + (if cs == ObjectKey then 1 else 2) <= cap
    requires ParseString(m, cs, cap).Done?
    ensures Found(m, Str(raw), m') && IsAtCommit(m', cs, cap) && ParseString(m, cs, cap) == Commit(m', cs, cap)
  {
    hide Chain, Commit, DecodeInPlace, Decode, Lands;
    var p := m.p + 1;
    var r := DecodeInPlace(m.text, p, p);
    DecodeInPlaceLands(m.text, p, p);
    var d := Decode(m.text[p..]);
    LandsAgrees(m.text, p, p, r, d);
    BodyIsFound(m.text, p);
    hide IsBody, BodyBytes;
    StringLands(m, r, d.value.bytes, d.value.length);
    raw := m.text[p..p + d.value.length];
    ContextStays(m.tokens, Token(StringToken, p), m.parent, cs);
    m' := Add(m.(text := r.value.0), StringToken, p, r.value.1);
    QuotedIsAt(m.text, m.p, raw);
  }

  lemma LandsAgrees(text: seq<byte>, p: nat, out: nat, r: Option<(seq<byte>, nat)>, d: Option<Decoded>)
    requires out <= p < |text| && Lands(text, p, out, r, d)
    ensures r.Some? == d.Some?
  {
  }

  lemma QuotedIsAt(text: seq<byte>, p: nat, raw: seq<byte>)
    requires p + |raw| + 2 <= |text| && text[p] == QUOTE && text[p + |raw| + 1] == QUOTE && At(text, p + 1, raw)
    ensures At(text, p, [QUOTE] + raw + [QUOTE])
  {
    assert text[p..p + |raw| + 2] == [text[p]] + text[p + 1..p + 1 + |raw|] + [text[p + |raw| + 1]];
  }

  lemma WordIsRead(m: State, l: Literal, cs: Context, cap: nat) returns (v: Json, m': State)
    requires IsAtValue(m, cs, cap) && |m.tokens| + 2 <= cap && IsLetter(m.text[m.p])
    requires ParseWord(m, LiteralKind(l), cs, cap).Done?
    ensures Found(m, v, m') && IsAtCommit(m', cs, cap) && ParseWord(m, LiteralKind(l), cs, cap) == Commit(m', cs, cap)
  {
    hide Chain, Commit, Hash, Keyword, LiteralText, LiteralKind;
    var e := ScanLetters(m.text, m.p + 1);
    KeywordIsFound(m.text[m.p..e], l);
    v := Lit(l);
    ContextStays(m.tokens, Token(LiteralKind(l), m.p), m.parent, cs);
    m' := Add(m, LiteralKind(l), m.p, e);
    SliceIsAt(m.text, m.p, e);
  }

  // ----- elements -----

  lemma {:induction false} ElementIsRead(m: State, cs: Context, cap: nat)
    returns (before: seq<byte>, v: Json, after: seq<byte>, c: byte, m1: State, m2: State)
    requires IsAtValue(m, cs, cap) && cs != Top && ParseValue(m, cs, cap).Done?
    ensures AreWs(before) && IsJson(v) && AreWs(after)
    ensures c == COMMA || c == if cs == ArrayItem then RBRACKET else RBRACE
    ensures At(m.text, m.p, ElementText(before, v, after, c)) && m2.p == m.p + |ElementText(before, v, after, c)|
    ensures Frame(m, m2, Size(v))
    ensures IsAtCommit(m1, cs, cap) && ParseValue(m, cs, cap) == Commit(m1, cs, cap)
    ensures m2 == Committed(m1, SkipWs(m1.text, m1.p)) && m1.text[m2.p - 1] == c
    decreases |m.text| - m.p, 2
  {
    hide Chain, ParseToken, Commit, At, Text, Frame, Size, IsJson;
    var p := SkipWs(m.text, m.p);
    before := m.text[m.p..p];
    SkippedIsWs(m.text, m.p);
    var m0 := m.(p := p);
    v, m1 := TokenIsRead(m0, cs, cap);
    StandsStill(m, m0);
    FrameTrans(m, m0, m1, 0, Size(v));
    c, after, m2 := GapIsRead(m1, cs, cap);
    FrameTrans(m, m1, m2, Size(v), 0);
    FrameBack(m, m1, Size(v), m1.p, after);
    FrameBack(m, m1, Size(v), m1.p + |after|, [c]);
    AtSplits(m.text, m.p, before + Text(v) + after, [c]);
    AtSplits(m.text, m.p, before + Text(v), after);
    AtSplits(m.text, m.p, before, Text(v));
  }

  lemma FrameBack(m: State, m': State, n: nat, p: nat, t: seq<byte>)
    requires Frame(m, m', n) && m'.p <= p && At(m'.text, p, t)
    ensures At(m.text, p, t)
  {
    assert m'.text[p..p + |t|] == m'.text[m'.p..][p - m'.p..p - m'.p + |t|];
    assert m.text[p..p + |t|] == m.text[m'.p..][p - m'.p..p - m'.p + |t|];
  }

  lemma GapIsRead(m: State, cs: Context, cap: nat) returns (c: byte, after: seq<byte>, m': State)
    requires IsAtCommit(m, cs, cap) && cs != Top && Commit(m, cs, cap).Done?
    ensures AreWs(after) && At(m.text, m.p, after) && At(m.text, m.p + |after|, [c])
    ensures if cs == ObjectKey then c == COLON else c == COMMA || c == if cs == ArrayItem then RBRACKET else RBRACE
    ensures m'.p == m.p + |after| + 1 && Frame(m, m', 0)
    ensures m' == Committed(m, SkipWs(m.text, m.p)) && m.text[m'.p - 1] == c
  {
    hide Chain, ParseValue, ParseKey, Pop;
    var q := SkipWs(m.text, m.p);
    c := m.text[q];
    after := m.text[m.p..q];
    SkippedIsWs(m.text, m.p);
    m' := Committed(m, q);
    SliceIsAt(m.text, q, q + 1);
  }

  lemma {:induction false} ItemsAreRead(m: State, cap: nat) returns (items: Items, m': State)
    requires IsAtValue(m, ArrayItem, cap) && ParseValue(m, ArrayItem, cap).Done?
    ensures AreItems(items) && At(m.text, m.p, ItemsText(items)) && m'.p == m.p + |ItemsText(items)|
    ensures Frame(m, m', ItemsSize(items))
    ensures IsAtPop(m', cap) && ParseValue(m, ArrayItem, cap) == Pop(m', cap)
    decreases |m.text| - m.p, 3
  {
    hide Chain, ParseToken, ParseValue, ParseKey, Commit, Pop, At, Text, Frame, Size, IsJson, ElementText, SkipWs;
    var before, v, after, c, m1, m2 := ElementIsRead(m, ArrayItem, cap);
    FrameReads(m, m2, Size(v));
    FrameContext(m, m2, Size(v), ArrayItem);
    FrameSizes(m, m2, Size(v));
    CommitMoves(m1, ArrayItem, cap, m2, c);
    if c == RBRACKET {
      items := LastItem(before, v, after);
      m' := m2;
    } else {
      var rest;
      ElementMoves(before, v, after, c);
      rest, m' := ItemsAreRead(m2, cap);
      items := MoreItems(before, v, after, rest);
      FrameTrans(m, m2, m', Size(v), ItemsSize(rest));
      FrameBack(m, m2, Size(v), m2.p, ItemsText(rest));
      AtSplits(m.text, m.p, ElementText(before, v, after, COMMA), ItemsText(rest));
    }
  }

  lemma ElementMoves(before: seq<byte>, v: Json, after: seq<byte>, c: byte)
    ensures |ElementText(before, v, after, c)| > 0
  {
  }

  lemma KeyStringIsRead(m: State, cap: nat) returns (before: seq<byte>, raw: seq<byte>, m': State)
    requires IsAtKey(m, cap) && ParseKey(m, cap).Done?
    ensures AreWs(before) && IsBody(raw) && m'.p == m.p + |before| + |raw| + 2 && Frame(m, m', 1)
    ensures At(m.text, m.p, before) && At(m.text, m.p + |before|, [QUOTE] + raw + [QUOTE])
    ensures IsAtCommit(m', ObjectKey, cap) && ParseKey(m, cap) == Commit(m', ObjectKey, cap)
  {
    hide Chain, ParseString, Commit, At, Frame, IsBody;
    var p := SkipWs(m.text, m.p);
    SkippedIsWs(m.text, m.p);
    before := m.text[m.p..p];
    var m0 := m.(p := p);
    StandsStill(m, m0);
    raw, m' := StringIsRead(m0, ObjectKey, cap);
    FrameTrans(m, m0, m', 0, 1);
  }

  lemma KeyIsRead(m: State, cap: nat) returns (key: Key, m': State)
    requires IsAtKey(m, cap) && ParseKey(m, cap).Done?
    ensures IsKey(key) && key.pad == [] && At(m.text, m.p, KeyText(key)) && m'.p == m.p + |KeyText(key)| &&
            Frame(m, m', 1)
    ensures IsAtValue(m', ObjectValue, cap) && ParseKey(m, cap) == ParseValue(m', ObjectValue, cap)
  {
    hide Chain, ParseString, ParseKey, ParseValue, Commit, At, Frame, IsBody, SkipWs;
    var before, raw, m1 := KeyStringIsRead(m, cap);
    var c, after;
    c, after, m' := GapIsRead(m1, ObjectKey, cap);
    FrameTrans(m, m1, m', 1, 0);
    FrameReads(m, m', 1);
    FrameContext(m, m', 1, ObjectValue);
    FrameSizes(m, m', 1);
    CommitMoves(m1, ObjectKey, cap, m', c);
    key := Key(before, raw, after, []);
    FrameBack(m, m1, 1, m1.p, after);
    FrameBack(m, m1, 1, m1.p + |after|, [c]);
    KeyIsAt(m.text, m.p, key);
  }

  lemma KeyIsAt(text: seq<byte>, p: nat, key: Key)
    requires var q := p + |key.before|; var e := q + |key.raw| + 2;
             && At(text, p, key.before) && At(text, q, [QUOTE] + key.raw + [QUOTE])
             && At(text, e, key.after) && At(text, e + |key.after|, [COLON])
    ensures At(text, p, KeyText(key))
  {
    hide At;
    var quoted := [QUOTE] + key.raw + [QUOTE];
    AtSplits(text, p, key.before + quoted + key.after, [COLON]);
    AtSplits(text, p, key.before + quoted, key.after);
    AtSplits(text, p, key.before, quoted);
  }

  lemma {:induction false} MembersAreRead(m: State, cap: nat) returns (members: Members, m': State)
    requires IsAtKey(m, cap) && ParseKey(m, cap).Done?
    ensures AreMembers(members) && At(m.text, m.p, MembersText(members)) && m'.p == m.p + |MembersText(members)|
    ensures Frame(m, m', MembersSize(members))
    ensures IsAtPop(m', cap) && ParseKey(m, cap) == Pop(m', cap)
    decreases |m.text| - m.p, 3
  {
    hide Chain, ParseToken, ParseValue, ParseKey, Commit, Pop, At, Text, Frame, Size, IsJson, ElementText, KeyText,
         IsBody, SkipWs;
    var key, m0 := KeyIsRead(m, cap);
    FrameSizes(m, m0, 1);
    var before, v, after, c, m1, m2 := ElementIsRead(m0, ObjectValue, cap);
    key := key.(pad := before);
    FrameTrans(m, m0, m2, 1, Size(v));
    FrameReads(m, m2, 1 + Size(v));
    FrameContext(m, m2, 1 + Size(v), ObjectKey);
    FrameSizes(m, m2, 1 + Size(v));
    CommitMoves(m1, ObjectValue, cap, m2, c);
    FrameBack(m, m0, 1, m0.p, ElementText(before, v, after, c));
    assert KeyText(key) == KeyText(key.(pad := [])) by { PadIsApart(key); }
    if c == RBRACE {
      members := LastMember(key, v, after);
      m' := m2;
      AtSplits(m.text, m.p, KeyText(key), ElementText(before, v, after, c));
    } else {
      var rest;
      ElementMoves(before, v, after, c);
      rest, m' := MembersAreRead(m2, cap);
      members := MoreMembers(key, v, after, rest);
      FrameTrans(m, m2, m', 1 + Size(v), MembersSize(rest));
      FrameBack(m, m2, 1 + Size(v), m2.p, MembersText(rest));
      AtSplits(m.text, m0.p, ElementText(before, v, after, c), MembersText(rest));
      AtSplits(m.text, m.p, KeyText(key), ElementText(before, v, after, c) + MembersText(rest));
    }
  }

  lemma PadIsApart(key: Key)
    ensures KeyText(key) == KeyText(key.(pad := []))
  {
  }

  // ----- values -----

  lemma EmptyIsRead(m: State, cs: Context, cap: nat, kind: Kind) returns (v: Json, m': State)
    requires IsAtValue(m, cs, cap) && |m.tokens| + 2 <= cap && IsContainer(kind)
    requires m.text[m.p] == if kind == ArrayToken then LBRACKET else LBRACE
    requires m.text[SkipWs(m.text, m.p + 1)] == if kind == ArrayToken then RBRACKET else RBRACE
    ensures Found(m, v, m') && IsAtCommit(m', cs, cap) && ParseToken(m, cs, cap) == Commit(m', cs, cap)
  {
    hide Chain, ParseToken, Commit, Encodes, At, Text;
    v := EmptyIsAt(m.text, m.p, kind);
    m' := EmptyRuns(m, cs, cap, v);
  }

  lemma EmptyIsAt(text: seq<byte>, p: nat, kind: Kind) returns (v: Json)
    requires HasEnd(text) && p < |text| && IsContainer(kind) &&
             text[p] == if kind == ArrayToken then LBRACKET else LBRACE
    requires text[SkipWs(text, p + 1)] == if kind == ArrayToken then RBRACKET else RBRACE
    ensures IsJson(v) && (v.EmptyArray? || v.EmptyObject?) && At(text, p, Text(v)) && p + |Text(v)| < |text|
  {
    var q := SkipWs(text, p + 1);
    var pad := text[p + 1..q];
    SkippedIsWs(text, p + 1);
    hide At, SkipWs;
    SliceIsAt(text, q, q + 1);
    OpenedIsAt(text, p, pad, [text[q]]);
    v := if kind == ArrayToken then EmptyArray(pad) else EmptyObject(pad);
    assert Text(v) == [text[p]] + (pad + [text[q]]);
  }

  lemma {:induction false} ArrayIsRead(m: State, cs: Context, cap: nat) returns (v: Json, m': State)
    requires IsAtValue(m, cs, cap) && |m.tokens| + 2 <= cap && m.text[m.p] == LBRACKET && ParseToken(m, cs, cap).Done?
    requires m.text[SkipWs(m.text, m.p + 1)] != RBRACKET
    ensures Found(m, v, m') && IsAtCommit(m', cs, cap) && ParseToken(m, cs, cap) == Commit(m', cs, cap)
    decreases |m.text| - m.p, 0
  {
    hide Chain, ParseToken, ParseValue, Commit, At, Frame, Open, ItemsText, Closed, ContextAfter, AreItems;
    var q := SkipWs(m.text, m.p + 1);
    var pad := m.text[m.p + 1..q];
    SkippedIsWs(m.text, m.p + 1);
    OpenSkips(m, cs, cap, ArrayToken, pad);
    var m1 := Open(m, cs, ArrayToken, q);
    var items, m3 := ItemsAreRead(m1, cap);
    var all := items.(before := pad + items.before);
    v := Array(all);
    PadsItems(items, pad);
    CloseReturns(m, cs, cap, ArrayToken, q, m3, ItemsSize(items));
    m' := Closed(m3);
    FrameReads(m, m', Size(v));
    OpenedIsAt(m.text, m.p, pad, ItemsText(items));
  }

  lemma OpenedIsAt(text: seq<byte>, p: nat, pad: seq<byte>, t: seq<byte>)
    requires p < |text| && At(text, p + 1, pad) && At(text, p + 1 + |pad|, t)
    ensures At(text, p, [text[p]] + (pad + t))
  {
    AtSplits(text, p + 1, pad, t);
    AtSplits(text, p, [text[p]], pad + t);
  }

  lemma PadsItems(items: Items, pad: seq<byte>)
    requires AreItems(items) && AreWs(pad)
    ensures var all := items.(before := pad + items.before);
            AreItems(all) && ItemsSize(all) == ItemsSize(items) && ItemsText(all) == pad + ItemsText(items)
  {
    hide Text;
    var c := if items.LastItem? then RBRACKET else COMMA;
    assert ElementText(pad + items.before, items.value, items.after, c)
        == pad + ElementText(items.before, items.value, items.after, c);
  }

  lemma {:induction false} ObjectIsRead(m: State, cs: Context, cap: nat) returns (v: Json, m': State)
    requires IsAtValue(m, cs, cap) && |m.tokens| + 2 <= cap && m.text[m.p] == LBRACE && ParseToken(m, cs, cap).Done?
    requires m.text[SkipWs(m.text, m.p + 1)] != RBRACE
    ensures Found(m, v, m') && IsAtCommit(m', cs, cap) && ParseToken(m, cs, cap) == Commit(m', cs, cap)
    decreases |m.text| - m.p, 0
  {
    hide Chain, ParseToken, ParseKey, Commit, At, Frame, Open, MembersText, Closed, ContextAfter, AreMembers;
    var q := SkipWs(m.text, m.p + 1);
    var pad := m.text[m.p + 1..q];
    SkippedIsWs(m.text, m.p + 1);
    OpenSkips(m, cs, cap, ObjectToken, pad);
    var m1 := Open(m, cs, ObjectToken, q);
    var members, m3 := MembersAreRead(m1, cap);
    var all := members.(key := members.key.(before := pad + members.key.before));
    v := Object(all);
    PadsMembers(members, pad);
    CloseReturns(m, cs, cap, ObjectToken, q, m3, MembersSize(members));
    m' := Closed(m3);
    FrameReads(m, m', Size(v));
    OpenedIsAt(m.text, m.p, pad, MembersText(members));
  }

  lemma PadsMembers(members: Members, pad: seq<byte>)
    requires AreMembers(members) && AreWs(pad)
    ensures var all := members.(key := members.key.(before := pad + members.key.before));
            && AreMembers(all) && MembersSize(all) == MembersSize(members)
            && MembersText(all) == pad + MembersText(members)
  {
    hide Text, ElementText, IsBody;
    var all := members.(key := members.key.(before := pad + members.key.before));
    assert KeyText(all.key) == pad + KeyText(members.key);
  }

  lemma {:induction false} TokenIsRead(m: State, cs: Context, cap: nat) returns (v: Json, m': State)
    requires IsAtValue(m, cs, cap) && |m.tokens| + 2 <= cap && ParseToken(m, cs, cap).Done?
    ensures Found(m, v, m') && IsAtCommit(m', cs, cap) && ParseToken(m, cs, cap) == Commit(m', cs, cap)
    decreases |m.text| - m.p, 1
  {
    hide Chain, ParseValue, ParseString, ParseWord, ParseKey, Commit, Pop, Open, ScanNumber, Found;
    var c := m.text[m.p];
    if c == LBRACKET {
      if m.text[SkipWs(m.text, m.p + 1)] == RBRACKET {
        v, m' := EmptyIsRead(m, cs, cap, ArrayToken);
      } else {
        v, m' := ArrayIsRead(m, cs, cap);
      }
    } else if c == LBRACE {
      if m.text[SkipWs(m.text, m.p + 1)] == RBRACE {
        v, m' := EmptyIsRead(m, cs, cap, ObjectToken);
      } else {
        v, m' := ObjectIsRead(m, cs, cap);
      }
    } else if c == MINUS || IsDigit(c) {
      v, m' := NumberIsRead(m, cs, cap);
    } else if c == QUOTE {
      var raw;
      raw, m' := StringIsRead(m, cs, cap);
      v := Str(raw);
    } else if c == 0x74 {
      v, m' := WordIsRead(m, TrueWord, cs, cap);
    } else if c == 0x66 {
      v, m' := WordIsRead(m, FalseWord, cs, cap);
    } else {
      v, m' := WordIsRead(m, NullWord, cs, cap);
    }
  }

  // ----- the whole text -----

  /** Whatever is accepted is a JSON text that has fewer values than there are tokens. */
  lemma AcceptedIsText(text: seq<byte>, cap: nat) returns (before: seq<byte>, v: Json, after: seq<byte>)
    requires HasEnd(text) && Parse(text, cap).Done?
    ensures IsText(text, Parse(text, cap).length, before, v, after) && Size(v) + 1 <= cap
  {
    hide ParseToken, Chain, At, Text, IsJson, Frame;
    var m := State(text, 0, [], 0);
    var p := SkipWs(text, 0);
    before := text[0..p];
    SkippedIsWs(text, 0);
    var m0 := m.(p := p);
    var m1;
    v, m1 := TokenIsRead(m0, Top, cap);
    StandsStill(m, m0);
    FrameTrans(m, m0, m1, 0, Size(v));
    FrameSizes(m, m1, Size(v));
    after := EndIsRead(m1, cap);
    var n := m1.p + |after|;
    FrameBack(m, m1, Size(v), m1.p, after);
    FrameByte(m, m1, Size(v), n);
    AtSplits(text, 0, before + Text(v), after);
    AtSplits(text, 0, before, Text(v));
    WholeIsAt(text, before + Text(v) + after);
  }

  lemma EndIsRead(m: State, cap: nat) returns (after: seq<byte>)
    requires IsAtCommit(m, Top, cap) && Commit(m, Top, cap).Done?
    ensures AreWs(after) && At(m.text, m.p, after) && m.p + |after| < |m.text| && m.text[m.p + |after|] == 0
    ensures Commit(m, Top, cap).length == m.p + |after|
  {
    var q := SkipWs(m.text, m.p);
    after := m.text[m.p..q];
    SkippedIsWs(m.text, m.p);
  }

  lemma WholeIsAt(text: seq<byte>, t: seq<byte>)
    requires At(text, 0, t)
    ensures text[..|t|] == t
  {
  }

  /** The parser's verdict on a JSON text: accepted exactly when there is one token more than it
      has values, and otherwise waiting for more. */
  lemma TextIsDecided(text: seq<byte>, n: nat, cap: nat, before: seq<byte>, v: Json, after: seq<byte>)
    requires HasEnd(text) && IsText(text, n, before, v, after)
    ensures var r := Parse(text, cap);
            if Size(v) + 1 <= cap then
              r.Done? && r.length == n && |r.tokens| == Size(v) && Encodes(r.text, r.tokens, 0, v, |text|)
            else r.NoMemory?
  {
    hide ParseValue, IsText, Encodes, Continues;
    if Size(v) + 1 <= cap {
      TextIsAccepted(text, n, cap, before, v, after);
    } else {
      var cap' := Size(v) + 1;
      TextIsAccepted(text, n, cap', before, v, after);
      ValueContinues(State(text, 0, [], 0), Top, cap, cap');
      OutcomeStands(State(text, 0, [], 0), Parse(text, cap), cap, Parse(text, cap'), cap');
      if Parse(text, cap).Done? {
        var before', v', after' := AcceptedIsText(text, cap);
        TextIsAccepted(text, n, cap', before', v', after');
      }
    }
  }

  lemma OutcomeStands(m: State, r: Outcome, cap: nat, r': Outcome, cap': nat)
    requires Continues(m, r, cap, r', cap')
    ensures !r.NoMemory? ==> r' == r
  {
  }

  /** A text that is not JSON is refused as soon as there are as many tokens as characters; no
      number of tokens makes it accepted. */
  lemma OthersAreRefused(text: seq<byte>, cap: nat)
    requires HasEnd(text)
    requires forall n, before, v, after :: !IsText(text, n, before, v, after)
    ensures !Parse(text, cap).Done?
    ensures cap > |text| ==> Parse(text, cap).Invalid?
  {
    hide ParseValue, IsText;
    if Parse(text, cap).Done? {
      var before, v, after := AcceptedIsText(text, cap);
      assert false;
    }
    ValueContinues(State(text, 0, [], 0), Top, cap, cap);
  }

  /** A text has one reading: how many values it has, and where it ends, is settled by the text. */
  lemma ReadingIsUnique(text: seq<byte>, n: nat, before: seq<byte>, v: Json, after: seq<byte>,
                        n': nat, before': seq<byte>, v': Json, after': seq<byte>)
    requires HasEnd(text) && IsText(text, n, before, v, after) && IsText(text, n', before', v', after')
    ensures n == n' && Size(v) == Size(v')
  {
    hide IsText, Encodes, Parse;
    var cap := Size(v) + Size(v') + 1;
    TextIsAccepted(text, n, cap, before, v, after);
    TextIsAccepted(text, n', cap, before', v', after');
  }
}
