/**
  Syntax trees of JSON values with their exact text, and the token array that encodes a tree:
  tokens in preorder, each container holding the number of tokens of its subtree.
 */
module JsonTree {
  import opened Utf8
  import opened JsonText

  datatype Literal = TrueWord | FalseWord | NullWord

  datatype Json =
    | Str(raw: seq<byte>)
    | Num(number: Number)
    | Lit(literal: Literal)
    | EmptyArray(pad: seq<byte>)
    | Array(items: Items)
    | EmptyObject(pad: seq<byte>)
    | Object(members: Members)

  datatype Items =
    | LastItem(before: seq<byte>, value: Json, after: seq<byte>)
    | MoreItems(before: seq<byte>, value: Json, after: seq<byte>, rest: Items)

  /** The part of a member before its value: whitespace, key, whitespace, colon, whitespace. */
  datatype Key = Key(before: seq<byte>, raw: seq<byte>, after: seq<byte>, pad: seq<byte>)

  datatype Members =
    | LastMember(key: Key, value: Json, after: seq<byte>)
    | MoreMembers(key: Key, value: Json, after: seq<byte>, rest: Members)

  predicate IsKey(k: Key) {
    AreWs(k.before) && IsBody(k.raw) && AreWs(k.after) && AreWs(k.pad)
  }

  predicate IsJson(v: Json) {
    match v
    case Str(raw) => IsBody(raw)
    case Num(n) => IsNumber(n)
    case Lit(_) => true
    case EmptyArray(pad) => AreWs(pad)
    case Array(items) => AreItems(items)
    case EmptyObject(pad) => AreWs(pad)
    case Object(members) => AreMembers(members)
  }

  predicate AreItems(items: Items) {
    && AreWs(items.before) && IsJson(items.value) && AreWs(items.after)
    && (items.MoreItems? ==> AreItems(items.rest))
  }

  predicate AreMembers(members: Members) {
    && IsKey(members.key) && IsJson(members.value) && AreWs(members.after)
    && (members.MoreMembers? ==> AreMembers(members.rest))
  }

  function LiteralText(l: Literal): (t: seq<byte>)
    ensures |t| >= 4
  {
    match l
    case TrueWord => [0x74, 0x72, 0x75, 0x65]
    case FalseWord => [0x66, 0x61, 0x6C, 0x73, 0x65]
    case NullWord => [0x6E, 0x75, 0x6C, 0x6C]
  }

  function Text(v: Json): seq<byte>
    decreases v, 0
  {
    match v
    case Str(raw) => [QUOTE] + raw + [QUOTE]
    case Num(n) => NumberText(n)
    case Lit(l) => LiteralText(l)
    case EmptyArray(pad) => [LBRACKET] + pad + [RBRACKET]
    case Array(items) => [LBRACKET] + ItemsText(items)
    case EmptyObject(pad) => [LBRACE] + pad + [RBRACE]
    case Object(members) => [LBRACE] + MembersText(members)
  }

  /** The items of an array with the bracket that closes it. */
  function ItemsText(items: Items): seq<byte> {
    if items.LastItem? then ElementText(items.before, items.value, items.after, RBRACKET)
    else ElementText(items.before, items.value, items.after, COMMA) + ItemsText(items.rest)
  }

  /** A value in its whitespace, with the character behind it. */
  function ElementText(before: seq<byte>, v: Json, after: seq<byte>, c: byte): seq<byte>
    decreases v, 1
  {
    before + Text(v) + after + [c]
  }

  /** A key up to its colon. */
  function KeyText(k: Key): seq<byte> {
    k.before + ([QUOTE] + k.raw + [QUOTE]) + k.after + [COLON]
  }

  /** The members of an object with the brace that closes it. */
  function MembersText(members: Members): seq<byte> {
    KeyText(members.key) +
    if members.LastMember? then ElementText(members.key.pad, members.value, members.after, RBRACE)
    else ElementText(members.key.pad, members.value, members.after, COMMA) + MembersText(members.rest)
  }

  // ----- tokens -----

  datatype Kind = ObjectToken | ArrayToken | StringToken | NumberToken | TrueToken | FalseToken | NullToken

  datatype Token = Token(kind: Kind, value: nat)

  /** The number of tokens of a value. */
  function Size(v: Json): (n: nat)
    ensures n >= 1
  {
    match v
    case Array(items) => 1 + ItemsSize(items)
    case Object(members) => 1 + MembersSize(members)
    case _ => 1
  }

  function ItemsSize(items: Items): (n: nat)
    ensures n >= 1
  {
    Size(items.value) + if items.LastItem? then 0 else ItemsSize(items.rest)
  }

  function MembersSize(members: Members): (n: nat)
    ensures n >= 2
  {
    1 + Size(members.value) + if members.LastMember? then 0 else MembersSize(members.rest)
  }

  function LiteralKind(l: Literal): Kind {
    match l
    case TrueWord => TrueToken
    case FalseWord => FalseToken
    case NullWord => NullToken
  }

  /** A C string of these bytes starts at `at` and ends, with its NUL, before `hi`. */
  predicate IsCString(text: seq<byte>, at: nat, bytes: seq<byte>, hi: nat) {
    && at + |bytes| < hi <= |text|
    && text[at..at + |bytes|] == bytes && text[at + |bytes|] == 0
  }

  /** The tokens from index `k` on encode `v`; their strings lie in `text[..hi]`. */
  predicate Encodes(text: seq<byte>, tokens: seq<Token>, k: nat, v: Json, hi: nat)
    requires IsJson(v)
    decreases v
  {
    && k + Size(v) <= |tokens|
    && match v
       case Str(raw) =>
         tokens[k].kind == StringToken && IsCString(text, tokens[k].value, BodyBytes(raw), hi)
       case Num(n) =>
         tokens[k].kind == NumberToken && IsCString(text, tokens[k].value, NumberText(n), hi)
       case Lit(l) =>
         tokens[k].kind == LiteralKind(l) && IsCString(text, tokens[k].value, LiteralText(l), hi)
       case EmptyArray(_) => tokens[k] == Token(ArrayToken, 1)
       case Array(items) =>
         tokens[k] == Token(ArrayToken, Size(v)) && EncodesItems(text, tokens, k + 1, items, hi)
       case EmptyObject(_) => tokens[k] == Token(ObjectToken, 1)
       case Object(members) =>
         tokens[k] == Token(ObjectToken, Size(v)) && EncodesMembers(text, tokens, k + 1, members, hi)
  }

  predicate EncodesItems(text: seq<byte>, tokens: seq<Token>, k: nat, items: Items, hi: nat)
    requires AreItems(items)
    decreases items
  {
    && k + ItemsSize(items) <= |tokens|
    && Encodes(text, tokens, k, items.value, hi)
    && (items.MoreItems? ==> EncodesItems(text, tokens, k + Size(items.value), items.rest, hi))
  }

  predicate EncodesMembers(text: seq<byte>, tokens: seq<Token>, k: nat, members: Members, hi: nat)
    requires AreMembers(members)
    decreases members
  {
    && k + MembersSize(members) <= |tokens|
    && tokens[k].kind == StringToken && IsCString(text, tokens[k].value, BodyBytes(members.key.raw), hi)
    && Encodes(text, tokens, k + 1, members.value, hi)
    && (members.MoreMembers? ==>
          EncodesMembers(text, tokens, k + 1 + Size(members.value), members.rest, hi))
  }
}
