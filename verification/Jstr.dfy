/**
  The parser as a machine. Its labels are functions that call each other; its state is the text,
  the read position, the tokens written so far and the index of the innermost open container.
  An open container's token holds the distance to the container around it, so the token array
  is also the stack.
 */
module Jstr {
  import opened Utf8
  import opened JsonText
  import opened JsonTree
  import opened Scanning

  datatype Context = Top | ObjectKey | ObjectValue | ArrayItem

  datatype State = State(text: seq<byte>, p: nat, tokens: seq<Token>, parent: nat)

  /** A finished parse, a text that is refused, or a parse that waits for more tokens. */
  datatype Outcome = Done(length: nat, text: seq<byte>, tokens: seq<Token>) | Invalid | NoMemory(state: State)

  predicate IsContainer(kind: Kind) { kind == ObjectToken || kind == ArrayToken }

  /** The containers that are open: `at`, the one its token leads to, and so on. */
  predicate Chain(tokens: seq<Token>, at: nat) {
    && at < |tokens| && IsContainer(tokens[at].kind) && tokens[at].value <= at
    && (if tokens[at].value == 0 then at == 0 else Chain(tokens, at - tokens[at].value))
  }

  function ContextOfKind(kind: Kind): Context {
    if kind == ObjectToken then ObjectValue else ArrayItem
  }

  predicate InContext(tokens: seq<Token>, parent: nat, cs: Context) {
    match cs
    case Top => parent == 0
    case ArrayItem => Chain(tokens, parent) && tokens[parent].kind == ArrayToken
    case _ => Chain(tokens, parent) && tokens[parent].kind == ObjectToken
  }

  predicate IsReading(m: State) { HasEnd(m.text) && m.p < |m.text| }

  /** What holds whenever a value is about to be read. */
  predicate IsAtValue(m: State, cs: Context, cap: nat) {
    && IsReading(m) && InContext(m.tokens, m.parent, cs) && cs != ObjectKey
    && (cs == Top ==> m.tokens == []) && |m.tokens| <= cap
  }

  /** Outside a key there is a free slot behind every token. */
  predicate IsAtCommit(m: State, cs: Context, cap: nat) {
    && IsReading(m) && InContext(m.tokens, m.parent, cs)
    && |m.tokens| + (if cs == ObjectKey then 0 else 1) <= cap
  }

  predicate IsAtPop(m: State, cap: nat) {
    IsReading(m) && Chain(m.tokens, m.parent) && |m.tokens| < cap
  }

  predicate IsAtKey(m: State, cap: nat) {
    IsReading(m) && InContext(m.tokens, m.parent, ObjectKey) && |m.tokens| < cap
  }

  lemma {:induction false} ChainStays(tokens: seq<Token>, tokens': seq<Token>, at: nat)
    requires Chain(tokens, at) && |tokens'| >= |tokens|
    requires forall i :: 0 <= i <= at ==> tokens'[i] == tokens[i]
    ensures Chain(tokens', at) && tokens'[at] == tokens[at]
    decreases at
  {
    if tokens[at].value > 0 {
      ChainStays(tokens, tokens', at - tokens[at].value);
    }
  }

  lemma ContextStays(tokens: seq<Token>, t: Token, parent: nat, cs: Context)
    requires InContext(tokens, parent, cs)
    ensures InContext(tokens + [t], parent, cs)
  {
    if cs != Top {
      ChainStays(tokens, tokens + [t], parent);
    }
  }

  /** Add the token of a value and go on at `p`. */
  function Add(m: State, kind: Kind, value: nat, p: nat): State {
    State(m.text, p, m.tokens + [Token(kind, value)], m.parent)
  }

  /** Add the token of a container, which becomes the innermost open one. */
  function Open(m: State, cs: Context, kind: Kind, p: nat): (r: State)
    requires InContext(m.tokens, m.parent, cs) && (cs == Top ==> m.tokens == []) && IsContainer(kind)
    ensures Chain(r.tokens, r.parent) && r.tokens[r.parent].kind == kind
    ensures r.text == m.text && r.p == p && |r.tokens| == |m.tokens| + 1
  {
    var tokens := m.tokens + [Token(kind, |m.tokens| - m.parent)];
    ContextStays(m.tokens, Token(kind, |m.tokens| - m.parent), m.parent, cs);
    State(m.text, p, tokens, |m.tokens|)
  }

  /** The hash of the keyword a kind of token stands for. */
  function Keyword(kind: Kind): nat {
    if kind == TrueToken then (((31 * 32 + 19) * 32 + 17) * 32 + 20) * 32 + 4
    else if kind == FalseToken then ((((31 * 32 + 5) * 32 + 0) * 32 + 11) * 32 + 18) * 32 + 4
    else (((31 * 32 + 13) * 32 + 20) * 32 + 11) * 32 + 11
  }

  // ----- the labels -----

  /** parse_generic */
  function ParseValue(m: State, cs: Context, cap: nat): (r: Outcome)
    requires IsAtValue(m, cs, cap)
    decreases |m.text| - m.p, 4
  {
    if |m.tokens| + 2 > cap then NoMemory(m) else ParseToken(m.(p := SkipWs(m.text, m.p)), cs, cap)
  }

  /** The switch on a value's first character. */
  function ParseToken(m: State, cs: Context, cap: nat): (r: Outcome)
    requires IsAtValue(m, cs, cap) && |m.tokens| + 2 <= cap
    decreases |m.text| - m.p, 3
  {
    var c := m.text[m.p];
    if c == LBRACKET then
      var q := SkipWs(m.text, m.p + 1);
      if m.text[q] == RBRACKET then Pop(Open(m, cs, ArrayToken, q + 1), cap)
      else ParseValue(Open(m, cs, ArrayToken, q), ArrayItem, cap)
    else if c == LBRACE then
      var q := SkipWs(m.text, m.p + 1);
      if m.text[q] == RBRACE then Pop(Open(m, cs, ObjectToken, q + 1), cap)
      else ParseKey(Open(m, cs, ObjectToken, q), cap)
    else if c == MINUS || IsDigit(c) then
      var e := ScanNumber(m.text, m.p);
      ContextStays(m.tokens, Token(NumberToken, m.p), m.parent, cs);
      if e.None? then Invalid else Commit(Add(m, NumberToken, m.p, e.value), cs, cap)
    else if c == QUOTE then ParseString(m, cs, cap)
    else if c == 0x74 then ParseWord(m, TrueToken, cs, cap)
    else if c == 0x66 then ParseWord(m, FalseToken, cs, cap)
    else if c == 0x6E then ParseWord(m, NullToken, cs, cap)
    else Invalid
  }

  /** parse_string; the read position is at the opening quote. */
  function ParseString(m: State, cs: Context, cap: nat): (r: Outcome)
    requires IsReading(m) && m.text[m.p] == QUOTE && InContext(m.tokens, m.parent, cs)
    requires |m.tokens| + (if cs == ObjectKey then 1 else 2) <= cap
    decreases |m.text| - m.p, 1
  {
    var d := DecodeInPlace(m.text, m.p + 1, m.p + 1);
    ContextStays(m.tokens, Token(StringToken, m.p + 1), m.parent, cs);
    if d.None? then Invalid
    else Commit(Add(m.(text := d.value.0), StringToken, m.p + 1, d.value.1), cs, cap)
  }

  /** parse_true_false_or_null */
  function ParseWord(m: State, kind: Kind, cs: Context, cap: nat): (r: Outcome)
    requires IsReading(m) && InContext(m.tokens, m.parent, cs) && cs != ObjectKey && |m.tokens| + 2 <= cap
    requires IsLetter(m.text[m.p])
    decreases |m.text| - m.p, 1
  {
    var e := ScanLetters(m.text, m.p + 1);
    ContextStays(m.tokens, Token(kind, m.p), m.parent, cs);
    if Hash(m.text[m.p..e]) == Keyword(kind) then Commit(Add(m, kind, m.p, e), cs, cap) else Invalid
  }

  /** parse_object_key */
  function ParseKey(m: State, cap: nat): (r: Outcome)
    requires IsAtKey(m, cap)
    decreases |m.text| - m.p, 2
  {
    var q := SkipWs(m.text, m.p);
    if m.text[q] != QUOTE then Invalid else ParseString(m.(p := q), ObjectKey, cap)
  }

  /** commit_token */
  function Commit(m: State, cs: Context, cap: nat): (r: Outcome)
    requires IsAtCommit(m, cs, cap)
    decreases |m.text| - m.p, 0
  {
    var q := SkipWs(m.text, m.p);
    var c := m.text[q];
    var m' := m.(text := m.text[m.p := 0], p := q + 1);
    match cs
    case Top => if c != 0 then Invalid else Done(q, m'.text, m'.tokens)
    case ObjectKey => if c != COLON then Invalid else ParseValue(m', ObjectValue, cap)
    case ObjectValue =>
      if c == RBRACE then Pop(m', cap) else if c != COMMA then Invalid else ParseKey(m', cap)
    case ArrayItem =>
      if c == RBRACKET then Pop(m', cap) else if c != COMMA then Invalid else ParseValue(m', ArrayItem, cap)
  }

  function ContextAfter(m: State): Context
    requires Chain(m.tokens, m.parent)
  {
    if m.tokens[m.parent].value == 0 then Top
    else ContextOfKind(m.tokens[m.parent - m.tokens[m.parent].value].kind)
  }

  /** The innermost container is complete: it gets its size, and the one around it goes on. */
  function Closed(m: State): (r: State)
    requires Chain(m.tokens, m.parent)
    ensures InContext(r.tokens, r.parent, ContextAfter(m))
    ensures r.text == m.text && r.p == m.p && |r.tokens| == |m.tokens|
  {
    var t := m.tokens[m.parent];
    var tokens := m.tokens[m.parent := Token(t.kind, |m.tokens| - m.parent)];
    assert t.value > 0 ==> Chain(tokens, m.parent - t.value) by {
      if t.value > 0 {
        ChainStays(m.tokens, tokens, m.parent - t.value);
      }
    }
    m.(tokens := tokens, parent := m.parent - t.value)
  }

  /** pop_context */
  function Pop(m: State, cap: nat): (r: Outcome)
    requires IsAtPop(m, cap)
    decreases |m.text| - m.p, 1
  {
    Commit(Closed(m), ContextAfter(m), cap)
  }

  // ----- calls -----

  function Parse(text: seq<byte>, cap: nat): (r: Outcome)
    requires HasEnd(text)
  {
    ParseValue(State(text, 0, [], 0), Top, cap)
  }

  /** The context a later call rebuilds from the offsets alone. */
  function Rebuilt(m: State): Context
    requires m.parent <= |m.tokens|
  {
    if m.parent == |m.tokens| then Top else ContextOfKind(m.tokens[m.parent].kind)
  }

  function Resume(m: State, cap: nat): (r: Outcome)
    requires m.parent <= |m.tokens| && IsAtValue(m, Rebuilt(m), cap)
  {
    ParseValue(m, Rebuilt(m), cap)
  }
}
