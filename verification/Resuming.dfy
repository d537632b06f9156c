/**
  Suspension is invisible: a parse that runs out of tokens and goes on later, with more room,
  ends as a parse that had the room from the start.
 */
module Resuming {
  import opened Utf8
  import opened JsonText
  import opened JsonTree
  import opened Scanning
  import opened InPlace
  import opened Jstr

  predicate IsWaiting(m: State, cap: nat) {
    m.parent <= |m.tokens| && IsAtValue(m, Rebuilt(m), cap)
  }

  /** The outcome `r` of a run with `cap` tokens continues to the outcome `r'` of a run with
      `cap'` tokens; a parse that waits has touched nothing from its position on. */
  predicate Continues(m: State, r: Outcome, cap: nat, r': Outcome, cap': nat) {
    if r.NoMemory? then
      Ahead(m, r.state) && |r.state.tokens| + 2 > cap && IsWaiting(r.state, cap') && r' == Resume(r.state, cap')
    else r' == r
  }

  /** `m'` is further on than `m`, the text from there on is the same, and no more tokens have
      been added than characters read. */
  predicate Ahead(m: State, m': State) {
    && |m'.text| == |m.text| && m.p <= m'.p <= |m.text| && m'.text[m'.p..] == m.text[m'.p..]
    && |m'.tokens| - |m.tokens| <= m'.p - m.p
  }

  lemma ContinuesAhead(m: State, m': State, r: Outcome, cap: nat, r': Outcome, cap': nat)
    requires Ahead(m, m') && Continues(m', r, cap, r', cap')
    ensures Continues(m, r, cap, r', cap')
  {
    if r.NoMemory? {
      var q := r.state.p;
      assert m'.text[q..] == m'.text[m'.p..][q - m'.p..] == m.text[m'.p..][q - m'.p..] == m.text[q..];
    }
  }

  lemma {:induction false} ValueContinues(m: State, cs: Context, cap: nat, cap': nat)
    requires cap <= cap' && IsAtValue(m, cs, cap)
    ensures Continues(m, ParseValue(m, cs, cap), cap, ParseValue(m, cs, cap'), cap')
    decreases |m.text| - m.p, 4
  {
    hide Continues, ParseToken, Chain;
    if |m.tokens| + 2 > cap {
      Waits(m, cs, cap, cap');
    } else {
      var m1 := m.(p := SkipWs(m.text, m.p));
      TokenContinues(m1, cs, cap, cap');
      ContinuesAhead(m, m1, ParseToken(m1, cs, cap), cap, ParseToken(m1, cs, cap'), cap');
    }
  }

  lemma {:induction false} TokenContinues(m: State, cs: Context, cap: nat, cap': nat)
    requires cap <= cap' && IsAtValue(m, cs, cap) && |m.tokens| + 2 <= cap
    ensures Continues(m, ParseToken(m, cs, cap), cap, ParseToken(m, cs, cap'), cap')
    decreases |m.text| - m.p, 3
  {
    hide Continues, ParseValue, ParseString, ParseWord, ParseKey, Commit, Pop, Chain, Open, ScanNumber;
    var c := m.text[m.p];
    if c == LBRACKET || c == LBRACE {
      OpenContinues(m, cs, cap, cap');
    } else if c == MINUS || IsDigit(c) {
      NumberContinues(m, cs, cap, cap');
    } else if c == QUOTE {
      StringContinues(m, cs, cap, cap');
    } else if c == 0x74 {
      WordContinues(m, TrueToken, cs, cap, cap');
    } else if c == 0x66 {
      WordContinues(m, FalseToken, cs, cap, cap');
    } else if c == 0x6E {
      WordContinues(m, NullToken, cs, cap, cap');
    } else {
      Refused(m, cap, cap');
    }
  }

  lemma Refused(m: State, cap: nat, cap': nat)
    ensures Continues(m, Invalid, cap, Invalid, cap')
  {
  }

  lemma Waits(m: State, cs: Context, cap: nat, cap': nat)
    requires cap <= cap' && IsAtValue(m, cs, cap) && |m.tokens| + 2 > cap
    ensures Continues(m, NoMemory(m), cap, ParseValue(m, cs, cap'), cap')
  {
    assert Rebuilt(m) == cs;
  }

  lemma {:induction false} OpenContinues(m: State, cs: Context, cap: nat, cap': nat)
    requires cap <= cap' && IsAtValue(m, cs, cap) && |m.tokens| + 2 <= cap
    requires m.text[m.p] == LBRACKET || m.text[m.p] == LBRACE
    ensures Continues(m, ParseToken(m, cs, cap), cap, ParseToken(m, cs, cap'), cap')
    decreases |m.text| - m.p, 2
  {
    hide Continues, ParseValue, ParseString, ParseWord, ParseKey, Commit, Pop, Chain, Open, ScanNumber;
    var q := SkipWs(m.text, m.p + 1);
    var isArray := m.text[m.p] == LBRACKET;
    var kind := if isArray then ArrayToken else ObjectToken;
    if m.text[q] == (if isArray then RBRACKET else RBRACE) {
      var m1 := Open(m, cs, kind, q + 1);
      PopContinues(m1, cap, cap');
      ContinuesAhead(m, m1, Pop(m1, cap), cap, Pop(m1, cap'), cap');
    } else if isArray {
      var m1 := Open(m, cs, kind, q);
      ValueContinues(m1, ArrayItem, cap, cap');
      ContinuesAhead(m, m1, ParseValue(m1, ArrayItem, cap), cap, ParseValue(m1, ArrayItem, cap'), cap');
    } else {
      var m1 := Open(m, cs, kind, q);
      KeyContinues(m1, cap, cap');
      ContinuesAhead(m, m1, ParseKey(m1, cap), cap, ParseKey(m1, cap'), cap');
    }
  }

  lemma {:induction false} NumberContinues(m: State, cs: Context, cap: nat, cap': nat)
    requires cap <= cap' && IsAtValue(m, cs, cap) && |m.tokens| + 2 <= cap
    requires m.text[m.p] == MINUS || IsDigit(m.text[m.p])
    ensures Continues(m, ParseToken(m, cs, cap), cap, ParseToken(m, cs, cap'), cap')
    decreases |m.text| - m.p, 2
  {
    hide Continues, ParseValue, ParseString, ParseWord, ParseKey, Commit, Pop, Chain, Open, ScanNumber;
    var e := ScanNumber(m.text, m.p);
    if e.None? {
      Refused(m, cap, cap');
    } else {
      ContextStays(m.tokens, Token(NumberToken, m.p), m.parent, cs);
      var m1 := Add(m, NumberToken, m.p, e.value);
      CommitContinues(m1, cs, cap, cap');
      ContinuesAhead(m, m1, Commit(m1, cs, cap), cap, Commit(m1, cs, cap'), cap');
    }
  }

  lemma {:induction false} StringContinues(m: State, cs: Context, cap: nat, cap': nat)
    requires cap <= cap' && IsReading(m) && m.text[m.p] == QUOTE && InContext(m.tokens, m.parent, cs)
    requires |m.tokens| + (if cs == ObjectKey then 1 else 2) <= cap
    ensures Continues(m, ParseString(m, cs, cap), cap, ParseString(m, cs, cap'), cap')
    decreases |m.text| - m.p, 1
  {
    hide Continues, Commit, Chain, DecodeInPlace, Decode;
    var d := DecodeInPlace(m.text, m.p + 1, m.p + 1);
    DecodeInPlaceLands(m.text, m.p + 1, m.p + 1);
    if d.None? {
      Refused(m, cap, cap');
    } else {
      ContextStays(m.tokens, Token(StringToken, m.p + 1), m.parent, cs);
      var m1 := Add(m.(text := d.value.0), StringToken, m.p + 1, d.value.1);
      CommitContinues(m1, cs, cap, cap');
      ContinuesAhead(m, m1, Commit(m1, cs, cap), cap, Commit(m1, cs, cap'), cap');
    }
  }

  lemma {:induction false} WordContinues(m: State, kind: Kind, cs: Context, cap: nat, cap': nat)
    requires cap <= cap' && IsReading(m) && InContext(m.tokens, m.parent, cs) && cs != ObjectKey &&
             |m.tokens| + 2 <= cap
    requires IsLetter(m.text[m.p])
    ensures Continues(m, ParseWord(m, kind, cs, cap), cap, ParseWord(m, kind, cs, cap'), cap')
    decreases |m.text| - m.p, 1
  {
    hide Continues, Commit, Chain, Hash, Keyword;
    var e := ScanLetters(m.text, m.p + 1);
    if Hash(m.text[m.p..e]) == Keyword(kind) {
      ContextStays(m.tokens, Token(kind, m.p), m.parent, cs);
      var m1 := Add(m, kind, m.p, e);
      CommitContinues(m1, cs, cap, cap');
      ContinuesAhead(m, m1, Commit(m1, cs, cap), cap, Commit(m1, cs, cap'), cap');
    } else {
      Refused(m, cap, cap');
    }
  }

  lemma {:induction false} KeyContinues(m: State, cap: nat, cap': nat)
    requires cap <= cap' && IsAtKey(m, cap)
    ensures Continues(m, ParseKey(m, cap), cap, ParseKey(m, cap'), cap')
    decreases |m.text| - m.p, 2
  {
    hide Continues, ParseString, Chain;
    var q := SkipWs(m.text, m.p);
    if m.text[q] != QUOTE {
      Refused(m, cap, cap');
    } else {
      var m1 := m.(p := q);
      StringContinues(m1, ObjectKey, cap, cap');
      ContinuesAhead(m, m1, ParseString(m1, ObjectKey, cap), cap, ParseString(m1, ObjectKey, cap'), cap');
    }
  }

  lemma {:induction false} CommitContinues(m: State, cs: Context, cap: nat, cap': nat)
    requires cap <= cap' && IsAtCommit(m, cs, cap)
    ensures Continues(m, Commit(m, cs, cap), cap, Commit(m, cs, cap'), cap')
    decreases |m.text| - m.p, 0
  {
    hide Continues, ParseValue, ParseKey, Pop, Chain;
    var q := SkipWs(m.text, m.p);
    var c := m.text[q];
    var m' := m.(text := m.text[m.p := 0], p := q + 1);
    assert Ahead(m, m');
    match cs
    case Top =>
      SameOutcome(m, Commit(m, cs, cap), cap, cap');
    case ObjectKey =>
      if c == COLON {
        ValueContinues(m', ObjectValue, cap, cap');
        ContinuesAhead(m, m', ParseValue(m', ObjectValue, cap), cap, ParseValue(m', ObjectValue, cap'), cap');
      } else {
        Refused(m, cap, cap');
      }
    case ObjectValue =>
      if c == RBRACE {
        PopContinues(m', cap, cap');
        ContinuesAhead(m, m', Pop(m', cap), cap, Pop(m', cap'), cap');
      } else if c == COMMA {
        KeyContinues(m', cap, cap');
        ContinuesAhead(m, m', ParseKey(m', cap), cap, ParseKey(m', cap'), cap');
      } else {
        Refused(m, cap, cap');
      }
    case ArrayItem =>
      if c == RBRACKET {
        PopContinues(m', cap, cap');
        ContinuesAhead(m, m', Pop(m', cap), cap, Pop(m', cap'), cap');
      } else if c == COMMA {
        ValueContinues(m', ArrayItem, cap, cap');
        ContinuesAhead(m, m', ParseValue(m', ArrayItem, cap), cap, ParseValue(m', ArrayItem, cap'), cap');
      } else {
        Refused(m, cap, cap');
      }
  }

  lemma SameOutcome(m: State, r: Outcome, cap: nat, cap': nat)
    requires !r.NoMemory?
    ensures Continues(m, r, cap, r, cap')
  {
  }

  lemma {:induction false} PopContinues(m: State, cap: nat, cap': nat)
    requires cap <= cap' && IsAtPop(m, cap)
    ensures Continues(m, Pop(m, cap), cap, Pop(m, cap'), cap')
    decreases |m.text| - m.p, 1
  {
    hide Continues, Commit, Chain, Closed, ContextAfter;
    CommitContinues(Closed(m), ContextAfter(m), cap, cap');
    ContinuesAhead(m, Closed(m), Pop(m, cap), cap, Pop(m, cap'), cap');
  }

  // ----- calls in a row -----

  /** Calls with these many tokens, each going on where the one before ran out. */
  function Calls(text: seq<byte>, caps: seq<nat>): (r: Outcome)
    requires HasEnd(text) && caps != []
    requires forall i, j :: 0 <= i < j < |caps| ==> caps[i] <= caps[j]
    ensures r == Parse(text, caps[|caps| - 1])
    decreases |caps|
  {
    if |caps| == 1 then Parse(text, caps[0])
    else
      var last := |caps| - 1;
      var r := Calls(text, caps[..last]);
      ValueContinues(State(text, 0, [], 0), Top, caps[last - 1], caps[last]);
      if r.NoMemory? then Resume(r.state, caps[last]) else r
  }
}
