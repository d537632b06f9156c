/**
  The parser object: it walks the buffer with a label and a few cursors, overwrites the text and
  the token array, and can be called again with a larger array when it runs out of tokens.
 */
module JsonParser {
  import opened Utf8
  import opened JsonText
  import opened JsonTree
  import opened Scanning
  import opened Jstr
  import opened Resuming
  import opened Recognizing
  import opened Accepting
  import opened Refusing
  import opened TextScanner

  const INVAL := -1
  const NOMEM := -2

  datatype Label = AtValue | AtString | AtKey | AtCommit | AtPop

  /** Where the machine is: `cur` counts the tokens written. */
  datatype Cursor = Cursor(at: Label, p: nat, cur: nat, parent: nat, cs: Context)

  datatype Next = Goto(cursor: Cursor) | Return(value: int)

  /** A label may be jumped to. */
  predicate CanJump(l: Label, m: State, cs: Context, cap: nat) {
    match l
    case AtValue => IsAtValue(m, cs, cap)
    case AtString =>
      && IsReading(m) && m.text[m.p] == QUOTE && InContext(m.tokens, m.parent, cs)
      && |m.tokens| + (if cs == ObjectKey then 1 else 2) <= cap
    case AtKey => IsAtKey(m, cap)
    case AtCommit => IsAtCommit(m, cs, cap)
    case AtPop => IsAtPop(m, cap)
  }

  /** The outcome of the machine from a label on. */
  function From(l: Label, m: State, cs: Context, cap: nat): (r: Outcome)
    requires CanJump(l, m, cs, cap)
  {
    match l
    case AtValue => ParseValue(m, cs, cap)
    case AtString => ParseString(m, cs, cap)
    case AtKey => ParseKey(m, cap)
    case AtCommit => Commit(m, cs, cap)
    case AtPop => Pop(m, cap)
  }

  function Rank(l: Label): nat {
    match l
    case AtValue => 4
    case AtString => 1
    case AtKey => 2
    case AtCommit => 0
    case AtPop => 1
  }

  ghost function StateAt(str: array<byte>, token: array<Token>, c: Cursor): State
    requires c.cur <= token.Length
    reads str, token
  {
    State(str[..], c.p, token[..c.cur], c.parent)
  }

  ghost predicate IsReady(str: array<byte>, token: array<Token>, c: Cursor)
    reads str, token
  {
    c.cur <= token.Length && CanJump(c.at, StateAt(str, token, c), c.cs, token.Length)
  }

  ghost function Remaining(str: array<byte>, token: array<Token>, c: Cursor): Outcome
    requires IsReady(str, token, c)
    reads str, token
  {
    From(c.at, StateAt(str, token, c), c.cs, token.Length)
  }

  /** The step that led to `n` keeps the outcome `r` and comes closer to it. */
  ghost predicate Keeps(str: array<byte>, token: array<Token>, n: Next, r: Outcome, p: nat, rank: nat)
    reads str, token
  {
    match n
    case Goto(c) =>
      && IsReady(str, token, c) && Remaining(str, token, c) == r
      && p <= c.p < str.Length && (c.p == p ==> Rank(c.at) < rank) && (c.at == AtKey ==> c.cs == ObjectKey)
    case Return(v) =>
      match r
      case Invalid => v == INVAL
      case Done(length, text, tokens) =>
        v == length && str[..] == text && |tokens| <= token.Length && token[..|tokens|] == tokens
      case NoMemory(_) => false
  }

  method Put(token: array<Token>, cur: nat, t: Token)
    requires cur < token.Length
    modifies token
    ensures token[..cur + 1] == old(token[..cur]) + [t]
  {
    token[cur] := t;
  }

  method StepString(str: array<byte>, token: array<Token>, c: Cursor) returns (n: Next)
    requires c.at == AtString && IsReady(str, token, c)
    modifies str, token
    ensures Keeps(str, token, n, old(Remaining(str, token, c)), c.p, Rank(AtString))
  {
    hide Commit, DecodeInPlace, Chain;
    ghost var m := StateAt(str, token, c);
    ghost var d := DecodeInPlace(m.text, c.p + 1, c.p + 1);
    ContextStays(m.tokens, Token(StringToken, c.p + 1), m.parent, c.cs);
    Put(token, c.cur, Token(StringToken, c.p + 1));
    var ok, e := DecodeString(str, c.p + 1);
    if !ok { return Return(INVAL); }
    n := Goto(c.(at := AtCommit, p := e, cur := c.cur + 1));
    assert StateAt(str, token, n.cursor) == Add(m.(text := d.value.0), StringToken, m.p + 1, d.value.1);
  }

  method StepKey(str: array<byte>, token: array<Token>, c: Cursor) returns (n: Next)
    requires c.at == AtKey && IsReady(str, token, c) && c.cs == ObjectKey
    ensures Keeps(str, token, n, Remaining(str, token, c), c.p, Rank(AtKey))
  {
    hide ParseString, Chain;
    var q := SkipSpaces(str, c.p);
    if str[q] != QUOTE { return Return(INVAL); }
    n := Goto(c.(at := AtString, p := q));
    assert StateAt(str, token, n.cursor) == StateAt(str, token, c).(p := q);
  }

  method StepPop(str: array<byte>, token: array<Token>, c: Cursor) returns (n: Next)
    requires c.at == AtPop && IsReady(str, token, c)
    modifies token
    ensures Keeps(str, token, n, old(Remaining(str, token, c)), c.p, Rank(AtPop))
  {
    hide Commit, Chain;
    ghost var m := StateAt(str, token, c);
    assert m.parent < |m.tokens| && m.tokens[m.parent].value <= m.parent by { ChainStarts(m.tokens, m.parent); }
    var t := token[c.parent];
    var grandparent := c.parent - t.value;
    token[c.parent] := t.(value := c.cur - c.parent);
    var cs := if c.parent == grandparent then Top else ContextOfKind(token[grandparent].kind);
    n := Goto(c.(at := AtCommit, parent := grandparent, cs := cs));
    assert StateAt(str, token, n.cursor) == Closed(m);
  }

  lemma ChainStarts(tokens: seq<Token>, at: nat)
    requires Chain(tokens, at)
    ensures at < |tokens| && tokens[at].value <= at
  {
  }

  /** Put the terminator and read on to the next character that is not whitespace. */
  method Terminate(str: array<byte>, p: nat) returns (ch: byte, p': nat)
    requires HasEnd(str[..]) && p < str.Length
    modifies str
    ensures p' == SkipWs(old(str[..]), p) + 1 && ch == old(str[..])[p' - 1]
    ensures str[..] == old(str[..])[p := 0]
  {
    ghost var text := str[..];
    ch, p' := str[p], p + 1;
    str[p] := 0;
    while Ws(ch)
      invariant p < p' <= str.Length && str[..] == text[p := 0] && ch == text[p' - 1]
      invariant SkipWs(text, p' - 1) == SkipWs(text, p)
      decreases str.Length - p'
    {
      ch, p' := str[p'], p' + 1;
    }
  }

  method StepCommit(str: array<byte>, token: array<Token>, c: Cursor) returns (n: Next)
    requires c.at == AtCommit && IsReady(str, token, c)
    modifies str
    ensures Keeps(str, token, n, old(Remaining(str, token, c)), c.p, Rank(AtCommit))
  {
    hide ParseValue, ParseKey, Pop, Chain;
    ghost var m := StateAt(str, token, c);
    var ch, p := Terminate(str, c.p);
    ghost var m' := m.(text := m.text[m.p := 0], p := p);
    assert StateAt(str, token, c.(p := p)) == m';
    n := Return(INVAL);
    match c.cs
    case Top =>
      if ch == 0 { n := Return(p - 1); }
    case ObjectKey =>
      if ch == COLON { n := Goto(c.(at := AtValue, p := p, cs := ObjectValue)); }
    case ObjectValue =>
      if ch == RBRACE { n := Goto(c.(at := AtPop, p := p)); }
      else if ch == COMMA { n := Goto(c.(at := AtKey, p := p, cs := ObjectKey)); }
    case ArrayItem =>
      if ch == RBRACKET { n := Goto(c.(at := AtPop, p := p)); }
      else if ch == COMMA { n := Goto(c.(at := AtValue, p := p)); }
  }

  /** Where an opening bracket leads. */
  function OpenLabel(m: State, isArray: bool): (r: (Label, nat))
    requires IsReading(m) && m.text[m.p] != 0
    ensures m.p < r.1 <= |m.text|
  {
    var q := SkipWs(m.text, m.p + 1);
    if m.text[q] == (if isArray then RBRACKET else RBRACE) then (AtPop, q + 1)
    else (if isArray then AtValue else AtKey, q)
  }

  lemma OpenIs(m: State, cs: Context, kind: Kind, q: nat)
    requires IsContainer(kind) && InContext(m.tokens, m.parent, cs) && (cs == Top ==> m.tokens == [])
    ensures m.parent <= |m.tokens|
    ensures Open(m, cs, kind, q) == State(m.text, q, m.tokens + [Token(kind, |m.tokens| - m.parent)], |m.tokens|)
  {
  }

  lemma OpenLeads(m: State, cs: Context, cap: nat, isArray: bool)
    requires IsAtValue(m, cs, cap) && |m.tokens| + 2 <= cap && m.text[m.p] == if isArray then LBRACKET else LBRACE
    ensures m.parent <= |m.tokens| && m.p + 1 < |m.text|
    ensures var (l, p) := OpenLabel(m, isArray);
            var kind := if isArray then ArrayToken else ObjectToken;
            var m' := State(m.text, p, m.tokens + [Token(kind, |m.tokens| - m.parent)], |m.tokens|);
            var cs' := if isArray then ArrayItem else ObjectKey;
            p < |m.text| && CanJump(l, m', cs', cap) && From(l, m', cs', cap) == ParseToken(m, cs, cap)
  {
    hide ParseToken, ParseValue, ParseKey, Pop, Chain, Open, AreWs, At;
    var kind := if isArray then ArrayToken else ObjectToken;
    SkippedIsWs(m.text, m.p + 1);
    OpenSkips(m, cs, cap, kind, m.text[m.p + 1..SkipWs(m.text, m.p + 1)]);
    OpenIs(m, cs, kind, OpenLabel(m, isArray).1);
  }

  method StepOpen(str: array<byte>, token: array<Token>, c: Cursor, isArray: bool) returns (n: Next)
    requires c.at == AtValue && IsReady(str, token, c) && c.cur + 2 <= token.Length
    requires str[c.p] == if isArray then LBRACKET else LBRACE
    modifies token
    ensures Keeps(str, token, n, old(ParseToken(StateAt(str, token, c), c.cs, token.Length)), c.p, Rank(AtValue))
  {
    hide ParseToken, InContext, From, SkipWs;
    ghost var m := StateAt(str, token, c);
    OpenLeads(m, c.cs, token.Length, isArray);
    var q := SkipSpaces(str, c.p + 1);
    var isEmpty := str[q] == if isArray then RBRACKET else RBRACE;
    hide CanJump;
    Put(token, c.cur, Token(if isArray then ArrayToken else ObjectToken, c.cur - c.parent));
    if isEmpty {
      n := Goto(Cursor(AtPop, q + 1, c.cur + 1, c.cur, if isArray then ArrayItem else ObjectKey));
    } else if isArray {
      n := Goto(Cursor(AtValue, q, c.cur + 1, c.cur, ArrayItem));
    } else {
      n := Goto(Cursor(AtKey, q, c.cur + 1, c.cur, ObjectKey));
    }
    assert (n.cursor.at, n.cursor.p) == OpenLabel(m, isArray);
  }

  method StepNumber(str: array<byte>, token: array<Token>, c: Cursor) returns (n: Next)
    requires c.at == AtValue && IsReady(str, token, c) && c.cur + 2 <= token.Length
    requires str[c.p] == MINUS || IsDigit(str[c.p])
    modifies token
    ensures Keeps(str, token, n, old(ParseToken(StateAt(str, token, c), c.cs, token.Length)), c.p, Rank(AtValue))
  {
    hide ParseValue, ParseString, ParseWord, ParseKey, Commit, Pop, Open, Chain, ScanNumber;
    ghost var m := StateAt(str, token, c);
    ContextStays(m.tokens, Token(NumberToken, m.p), m.parent, c.cs);
    Put(token, c.cur, Token(NumberToken, c.p));
    var e := NumberEnd(str, c.p);
    if e.None? { return Return(INVAL); }
    n := Goto(c.(at := AtCommit, p := e.value, cur := c.cur + 1));
    assert StateAt(str, token, n.cursor) == Add(m, NumberToken, m.p, e.value);
  }

  method StepWord(str: array<byte>, token: array<Token>, c: Cursor, kind: Kind) returns (n: Next)
    requires c.at == AtValue && IsReady(str, token, c) && c.cur + 2 <= token.Length && IsLetter(str[c.p])
    modifies token
    ensures Keeps(str, token, n, old(ParseWord(StateAt(str, token, c), kind, c.cs, token.Length)), c.p, Rank(AtValue))
  {
    hide ParseValue, Commit, Chain, Hash, Keyword;
    ghost var m := StateAt(str, token, c);
    ContextStays(m.tokens, Token(kind, m.p), m.parent, c.cs);
    Put(token, c.cur, Token(kind, c.p));
    var e, v := WordEnd(str, c.p);
    if v != Keyword(kind) { return Return(INVAL); }
    n := Goto(c.(at := AtCommit, p := e, cur := c.cur + 1));
    assert StateAt(str, token, n.cursor) == Add(m, kind, m.p, e);
  }

  /** The switch of a value's first character; there is room for two tokens. */
  method StepValue(str: array<byte>, token: array<Token>, c: Cursor) returns (n: Next)
    requires c.at == AtValue && IsReady(str, token, c) && c.cur + 2 <= token.Length
    modifies str, token
    ensures Keeps(str, token, n, old(Remaining(str, token, c)), c.p, Rank(AtValue))
  {
    var p := SkipSpaces(str, c.p);
    var c' := c.(p := p);
    ghost var m := StateAt(str, token, c');
    assert m == StateAt(str, token, c).(p := p);
    assert Remaining(str, token, c) == ParseToken(m, c.cs, token.Length);
    hide ParseValue, ParseString, ParseWord, ParseKey, Commit, Pop, Open, Chain, ScanNumber;
    var ch := str[p];
    if ch == LBRACKET || ch == LBRACE {
      n := StepOpen(str, token, c', ch == LBRACKET);
    } else if ch == MINUS || IsDigit(ch) {
      n := StepNumber(str, token, c');
    } else if ch == QUOTE {
      n := Goto(c'.(at := AtString));
      assert StateAt(str, token, n.cursor) == m;
    } else if ch == 0x74 {
      n := StepWord(str, token, c', TrueToken);
    } else if ch == 0x66 {
      n := StepWord(str, token, c', FalseToken);
    } else if ch == 0x6E {
      n := StepWord(str, token, c', NullToken);
    } else {
      n := Return(INVAL);
    }
  }

  class Parser {
    var parsePos: nat
    var curOffset: nat
    var parentOffset: nat

    constructor ()
      ensures parsePos == 0 && curOffset == 0 && parentOffset == 0
    {
      parsePos, curOffset, parentOffset := 0, 0, 0;
    }

    ghost predicate Fits(str: array<byte>, token: array<Token>)
      reads this, str, token
    {
      curOffset <= token.Length && IsWaiting(State(str[..], parsePos, token[..curOffset], parentOffset), token.Length)
    }

    /** Where the last call stopped. */
    ghost function Waiting(str: array<byte>, token: array<Token>): State
      requires curOffset <= token.Length
      reads this, str, token
    {
      State(str[..], parsePos, token[..curOffset], parentOffset)
    }

    /** Go on where the last call stopped. The result is the length of the text, or an error;
        when there are too few tokens the parser remembers where it is. */
    method Parse(str: array<byte>, token: array<Token>) returns (result: int)
      requires Fits(str, token)
      modifies this, str, token
      ensures match old(Resume(Waiting(str, token), token.Length))
              case Invalid => result == INVAL
              case Done(length, text, tokens) =>
                result == length && str[..] == text && |tokens| <= token.Length && token[..|tokens|] == tokens
              case NoMemory(m) => result == NOMEM && curOffset <= token.Length && Waiting(str, token) == m
    {
      hide ParseValue, ParseString, ParseKey, Commit, Pop, Chain, CanJump;
      ghost var r := Resume(Waiting(str, token), token.Length);
      var cs := if parentOffset == curOffset then Top else ContextOfKind(token[parentOffset].kind);
      var c := Cursor(AtValue, parsePos, curOffset, parentOffset, cs);
      assert IsReady(str, token, c) by { JumpsToValue(StateAt(str, token, c), cs, token.Length); }
      while true
        invariant IsReady(str, token, c) && Remaining(str, token, c) == r && c.p < str.Length
        invariant c.at == AtKey ==> c.cs == ObjectKey
        decreases str.Length - c.p, Rank(c.at)
      {
        if c.at == AtValue && token.Length - c.cur < 2 {
          parsePos, curOffset, parentOffset := c.p, c.cur, c.parent;
          Stops(StateAt(str, token, c), c.cs, token.Length);
          return NOMEM;
        }
        var n: Next;
        match c.at {
          case AtValue => n := StepValue(str, token, c);
          case AtString => n := StepString(str, token, c);
          case AtKey => n := StepKey(str, token, c);
          case AtCommit => n := StepCommit(str, token, c);
          case AtPop => n := StepPop(str, token, c);
        }
        if n.Return? { return n.value; }
        c := n.cursor;
      }
    }
  }

  lemma JumpsToValue(m: State, cs: Context, cap: nat)
    requires IsAtValue(m, cs, cap)
    ensures CanJump(AtValue, m, cs, cap)
  {
  }

  lemma Stops(m: State, cs: Context, cap: nat)
    requires CanJump(AtValue, m, cs, cap) && |m.tokens| + 2 > cap
    ensures From(AtValue, m, cs, cap) == NoMemory(m)
  {
  }

  // ----- the request -----

  const TOKEN_MIN := 64

  /** All of a text, up to its terminator, is JSON. */
  predicate IsWhole(text: seq<byte>, before: seq<byte>, v: Json, after: seq<byte>) {
    text != [] && IsText(text, |text| - 1, before, v, after)
  }

  /** What the parser reported is the outcome `r`. */
  ghost predicate Reports(parser: Parser, buf: array<byte>, token: array<Token>, rc: int, r: Outcome)
    reads parser, buf, token
  {
    match r
    case Invalid => rc == INVAL
    case Done(length, text, tokens) =>
      rc == length && buf[..] == text && |tokens| <= token.Length && token[..|tokens|] == tokens
    case NoMemory(m) => rc == NOMEM && parser.curOffset <= token.Length && parser.Waiting(buf, token) == m
  }

  /** A larger array with the same beginning. */
  method Reallocate(token: array<Token>, count: nat) returns (larger: array<Token>)
    requires token.Length <= count
    ensures fresh(larger) && larger.Length == count && larger[..token.Length] == token[..]
  {
    larger := new Token[count](_ => Token(NullToken, 0));
    var i := 0;
    while i < token.Length
      invariant i <= token.Length && larger[..i] == token[..i]
    {
      larger[i] := token[i];
      i := i + 1;
    }
  }

  /** Parse a request in as many calls as it takes, doubling the token array in between. It is
      taken exactly when all of it, up to its terminator, is one JSON text, and then the tokens
      encode the value. */
  method ParseRequest(buf: array<byte>) returns (ok: bool, root: array<Token>)
    requires HasEnd(buf[..])
    modifies buf
    ensures ok <==> exists before, v, after :: IsWhole(old(buf[..]), before, v, after)
    ensures forall before, v, after :: IsWhole(old(buf[..]), before, v, after) ==>
              Size(v) < root.Length && Encodes(buf[..], root[..], 0, v, buf.Length)
  {
    hide ParseValue, Encodes;
    ghost var text := buf[..];
    var parser := new Parser();
    root := new Token[0];
    var rc := parser.Parse(buf, root);
    while rc == NOMEM
      invariant fresh(parser) && fresh(root) && buf.Length == |text|
      invariant Reports(parser, buf, root, rc, Jstr.Parse(text, root.Length))
      decreases |text| + 1 - root.Length
    {
      var count := if root.Length == 0 then TOKEN_MIN else 2 * root.Length;
      ValueContinues(State(text, 0, [], 0), Top, root.Length, count);
      assert root.Length <= |text|;
      ghost var m := parser.Waiting(buf, root);
      root := Reallocate(root, count);
      assert parser.Waiting(buf, root) == m;
      rc := parser.Parse(buf, root);
    }
    ok := rc == buf.Length - 1;
    RequestIsDecided(text, root.Length);
    ghost var r := Jstr.Parse(text, root.Length);
    forall before, v, after | IsWhole(text, before, v, after)
      ensures Size(v) < root.Length && Encodes(buf[..], root[..], 0, v, buf.Length)
    {
      TextIsDecided(text, |text| - 1, root.Length, before, v, after);
      EncodesMore(r.text, r.tokens, root[..], v, |text|);
    }
  }

  lemma EncodesMore(text: seq<byte>, tokens: seq<Token>, all: seq<Token>, v: Json, hi: nat)
    requires IsJson(v) && Encodes(text, tokens, 0, v, hi) && hi <= |text| && |tokens| <= |all| &&
             all[..|tokens|] == tokens
    ensures Encodes(text, all, 0, v, hi)
  {
    hide Encodes;
    SizeFits(text, tokens, 0, v, hi);
    assert forall i :: 0 <= i < |tokens| ==> all[i] == all[..|tokens|][i];
    EncodesStays(text, tokens, text, all, 0, v, hi, hi);
  }

  lemma RequestIsDecided(text: seq<byte>, cap: nat)
    requires HasEnd(text) && !Jstr.Parse(text, cap).NoMemory?
    ensures var r := Jstr.Parse(text, cap);
            (r.Done? && r.length == |text| - 1) <==> exists before, v, after :: IsWhole(text, before, v, after)
  {
    hide ParseValue, IsText, Encodes;
    if Jstr.Parse(text, cap).Done? {
      var before, v, after := AcceptedIsText(text, cap);
      assert Jstr.Parse(text, cap).length == |text| - 1 ==> IsWhole(text, before, v, after);
    }
    forall before, v, after | IsWhole(text, before, v, after)
      ensures Jstr.Parse(text, cap).Done? && Jstr.Parse(text, cap).length == |text| - 1
    {
      TextIsDecided(text, |text| - 1, cap, before, v, after);
    }
  }
}
