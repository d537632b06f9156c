/**
  The response buffer: a fixed number of bytes and a few more that an escape may spill into.
 */
module Response {
  import opened Options
  import opened Utf8
  import opened JsonText
  import opened JsonTree
  import opened Jstr
  import opened Accepting
  import opened Escaping

  /** PIPE_BUF: what is sent in one piece. */
  const CAPACITY: nat := 4096
  const OVERFLOW: nat := 8

  predicate NoNul(s: seq<byte>) { forall i :: 0 <= i < |s| ==> s[i] != 0 }

  /** What of `s` is escaped when the loop stops as soon as there is no room left. */
  function Fill(s: seq<byte>, room: int): (t: seq<byte>)
    ensures t <= Escape(s)
    ensures room <= 0 ==> t == []
    ensures room > 0 ==> |t| <= room + 5
    ensures |t| < room ==> t == Escape(s)
  {
    if s == [] || room <= 0 then []
    else
      var e := EscapeByte(s[0]);
      PrefixAfter(e, Fill(s[1..], room - |e|), Escape(s[1..]));
      e + Fill(s[1..], room - |e|)
  }

  lemma PrefixAfter(e: seq<byte>, a: seq<byte>, b: seq<byte>)
    requires a <= b
    ensures e + a <= e + b
  {
  }

  /** Escaping is cut short without leaving a trace in the size exactly when a beginning of the
      text, and not all of it, fills the room to the last byte. */
  lemma {:induction false} CutIsSilentIff(s: seq<byte>, room: nat)
    ensures |Fill(s, room)| <= room && Fill(s, room) != Escape(s) <==>
            exists i :: 0 <= i < |s| && |Escape(s[..i])| == room
    decreases |s|
  {
    hide EscapeByte;
    if s != [] && room == 0 {
      assert s[..0] == [] && |Escape(s[..0])| == 0;
    } else if s != [] {
      var e := EscapeByte(s[0]);
      forall i | 0 < i <= |s| ensures Escape(s[..i]) == e + Escape(s[1..][..i - 1]) {
        assert s[..i][1..] == s[1..][..i - 1];
      }
      assert |Escape(s[..0])| == 0;
      if |e| <= room {
        CutIsSilentIff(s[1..], room - |e|);
        CutShifts(s, e, room);
      }
    }
  }

  lemma CutShifts(s: seq<byte>, e: seq<byte>, room: nat)
    requires s != [] && |e| <= room && room > 0
    requires |Escape(s[..0])| == 0
    requires forall i :: 0 < i <= |s| ==> Escape(s[..i]) == e + Escape(s[1..][..i - 1])
    ensures (exists i :: 0 <= i < |s| && |Escape(s[..i])| == room) <==>
            (exists i :: 0 <= i < |s[1..]| && |Escape(s[1..][..i])| == room - |e|)
  {
    hide Escape;
    if i :| 0 <= i < |s| && |Escape(s[..i])| == room {
      assert |Escape(s[1..][..i - 1])| == room - |e|;
    }
    if i :| 0 <= i < |s[1..]| && |Escape(s[1..][..i])| == room - |e| {
      assert Escape(s[..i + 1]) == e + Escape(s[1..][..i + 1 - 1]);
    }
  }

  class Buffer {
    var size: nat
    const buf: array<byte>
    /** What has been appended. */
    ghost var whole: seq<byte>

    constructor ()
      ensures Valid() && whole == [] && fresh(buf)
    {
      size, whole := 0, [];
      buf := new byte[CAPACITY + OVERFLOW](_ => 0);
    }

    /** Below the capacity all that was appended is there. At the capacity its beginning is there,
        and perhaps not all; beyond it the response is lost and known to be. */
    ghost predicate Valid()
      reads this, buf
    {
      && buf.Length == CAPACITY + OVERFLOW
      && size <= |whole| && (size < CAPACITY ==> size == |whole|)
      && (size <= CAPACITY ==> buf[..size] == whole[..size])
    }

    method AppendRaw(str: seq<byte>)
      requires Valid() && NoNul(str)
      modifies this`size, this`whole, buf
      ensures Valid() && whole == old(whole) + str && size == old(size) + |str|
      ensures str != [] && size <= CAPACITY ==> buf[..size] == whole
    {
      size := size + |str|;
      if size <= CAPACITY {
        var at := size - |str|;
        var i := 0;
        while i < |str|
          modifies buf
          invariant i <= |str| && buf[..at] == old(buf[..at]) && buf[at..at + i] == str[..i]
        {
          buf[at + i] := str[i];
          i := i + 1;
        }
        assert buf[..size] == buf[..at] + buf[at..at + |str|];
      }
      whole := whole + str;
      assert size <= CAPACITY ==> whole[..size] == old(whole[..size]) + str;
    }

    /** Write one byte's escape at `p`, which may end in the overflow. */
    method PutEscape(p: nat, c: byte) returns (p': nat)
      requires Valid() && p < CAPACITY
      modifies buf
      ensures p' == p + |EscapeByte(c)| && buf[..p] == old(buf[..p]) && buf[p..p'] == EscapeByte(c)
    {
      if IsPlainByte(c) {
        buf[p] := c;
        p' := p + 1;
      } else {
        buf[p] := BACKSLASH;
        var letter := EscapeLetter(c);
        if letter != 0 {
          buf[p + 1] := letter;
          p' := p + 2;
        } else {
          var n: nat := c;
          buf[p + 1], buf[p + 2], buf[p + 3] := LOWER_U, ZERO, ZERO;
          buf[p + 4], buf[p + 5] := HEX[n / 16 % 16], HEX[n % 16];
          p' := p + 6;
        }
      }
    }

    /** Escape into the buffer until the text ends or the room does. */
    method FillIn(str: seq<byte>) returns (p: nat)
      requires Valid()
      modifies buf
      ensures Valid() && p == size + |Fill(str, CAPACITY - size)|
      ensures size < p ==> p <= buf.Length && buf[size..p] == Fill(str, CAPACITY - size)
    {
      hide Fill, Escape, EscapeByte;
      ghost var t: seq<byte> := [];
      p := size;
      var i := 0;
      while i < |str| && p < CAPACITY
        invariant Valid()
        invariant i <= |str| && p == size + |t| && (t != [] ==> size < CAPACITY && p <= CAPACITY + 5)
        invariant t != [] ==> buf[size..p] == t
        invariant t + Fill(str[i..], CAPACITY - p) == Fill(str, CAPACITY - size)
        decreases |str| - i
      {
        ghost var e, p0, before := EscapeByte(str[i]), p, buf[..];
        FillStep(str, i, CAPACITY - p);
        p := PutEscape(p, str[i]);
        Glue(before, buf[..], size, p0, p, t, e);
        assert t + (e + Fill(str[i + 1..], CAPACITY - p)) == t + e + Fill(str[i + 1..], CAPACITY - p);
        t, i := t + e, i + 1;
      }
      FillEnds(str, i, CAPACITY - p);
      assert t + [] == t;
    }

    method AppendEsc(str: seq<byte>)
      requires Valid() && NoNul(str)
      modifies this`size, this`whole, buf
      ensures Valid() && whole == old(whole) + Escape(str)
      ensures size == old(size) + |Fill(str, CAPACITY - old(size))|
    {
      hide Escape, EscapeByte;
      var p := FillIn(str);
      Appended(whole, Escape(str), Fill(str, CAPACITY - size), size, buf[..]);
      size, whole := p, whole + Escape(str);
    }

    /** Send what was appended, unless it is too much: then nothing is sent. The last append must
        have been a nonempty raw one. */
    method Send() returns (sent: Option<seq<byte>>)
      requires Valid() && (size <= CAPACITY ==> buf[..size] == whole)
      ensures sent == if |whole| <= CAPACITY then Some(whole) else None
    {
      sent := if size > CAPACITY then None else Some(buf[..size]);
    }
  }

  lemma Glue(before: seq<byte>, after: seq<byte>, size: nat, p0: nat, p: nat, t: seq<byte>, e: seq<byte>)
    requires size <= p0 <= p <= |after| == |before| && p0 == size + |t| && after[..p0] == before[..p0] &&
             after[p0..p] == e
    requires t != [] ==> before[size..p0] == t
    ensures after[..size] == before[..size] && after[size..p] == t + e
  {
    assert after[..size] == after[..p0][..size] && before[..size] == before[..p0][..size];
    assert after[size..p] == after[..p0][size..] + after[p0..p];
    assert before[size..p0] == before[..p0][size..];
  }

  lemma FillEnds(str: seq<byte>, i: nat, room: int)
    requires i <= |str| && (i == |str| || room <= 0)
    ensures Fill(str[i..], room) == []
  {
  }

  lemma FillStep(str: seq<byte>, i: nat, room: int)
    requires i < |str| && room > 0
    ensures var e := EscapeByte(str[i]); Fill(str[i..], room) == e + Fill(str[i + 1..], room - |e|)
  {
    assert str[i..][1..] == str[i + 1..];
  }

  /** The buffer holds what was there and the part `t` of `all` that was written. */
  lemma Appended(was: seq<byte>, all: seq<byte>, t: seq<byte>, size: nat, bytes: seq<byte>)
    requires t <= all && size <= |was| && CAPACITY <= |bytes|
    requires size < CAPACITY ==> size == |was|
    requires size <= CAPACITY ==> bytes[..size] == was[..size]
    requires t != [] ==> size < CAPACITY && size + |t| <= |bytes| && bytes[size..size + |t|] == t
    ensures size + |t| <= CAPACITY ==> bytes[..size + |t|] == (was + all)[..size + |t|]
  {
    if t != [] {
      assert bytes[..size + |t|] == bytes[..size] + bytes[size..size + |t|];
      assert (was + all)[..size + |t|] == was + all[..|t|];
    } else {
      assert (was + all)[..size] == was[..size];
    }
  }

  // ----- failures -----

  const STATUS: seq<byte> := [0x73, 0x74, 0x61, 0x74, 0x75, 0x73]
  const DESCRIPTION: seq<byte> := [0x64, 0x65, 0x73, 0x63, 0x72, 0x69, 0x70, 0x74, 0x69, 0x6F, 0x6E]
  const TOO_BIG: seq<byte> := [0x72, 0x65, 0x73, 0x70, 0x6F, 0x6E, 0x73, 0x65, 0x54, 0x6F, 0x6F, 0x42, 0x69, 0x67]

  const BEFORE_STATUS: seq<byte> := [LBRACE, QUOTE] + STATUS + [QUOTE, COLON, QUOTE]
  const BEFORE_DESCRIPTION: seq<byte> := [QUOTE, COMMA, QUOTE] + DESCRIPTION + [QUOTE, COLON, QUOTE]
  const THE_END: seq<byte> := [QUOTE, RBRACE, 0x0A]

  function FailureText(status: seq<byte>, description: seq<byte>): (t: seq<byte>) {
    BEFORE_STATUS + Escape(status)
    + (if description == [] then [] else BEFORE_DESCRIPTION + Escape(description)) + THE_END
  }

  /** The response to a failure: what is sent is all of it, or the word that it was too big. */
  method Fail(status: seq<byte>, description: seq<byte>) returns (sent: seq<byte>)
    requires NoNul(status) && NoNul(description) && |status| <= 64
    ensures sent == FailureText(status, description) || sent == FailureText(TOO_BIG, [])
    ensures |description| < CAPACITY && |FailureText(status, description)| <= CAPACITY ==>
              sent == FailureText(status, description)
    decreases |description|
  {
    hide FailureText;
    TooBigFits(status);
    if |description| >= CAPACITY {
      sent := Fail(TOO_BIG, []);
      return;
    }
    var response := Report(status, description);
    var r := response.Send();
    if r.None? {
      sent := Fail(TOO_BIG, []);
    } else {
      sent := r.value;
    }
  }

  /** Put a failure together. */
  method Report(status: seq<byte>, description: seq<byte>) returns (response: Buffer)
    requires NoNul(status) && NoNul(description)
    ensures fresh(response) && response.Valid() && response.whole == FailureText(status, description)
    ensures response.size <= CAPACITY ==> response.buf[..response.size] == response.whole
  {
    hide Escape, EscapeByte, Fill;
    response := new Buffer();
    response.AppendRaw(BEFORE_STATUS);
    response.AppendEsc(status);
    if description != [] {
      response.AppendRaw(BEFORE_DESCRIPTION);
      response.AppendEsc(description);
    }
    response.AppendRaw(THE_END);
    assert response.whole == FailureText(status, description);
  }

  lemma TooBigFits(status: seq<byte>)
    requires |status| <= 64
    ensures NoNul(TOO_BIG) && |FailureText(status, [])| <= CAPACITY
  {
    hide Escape;
    EscapeBound(status);
  }

  lemma {:induction false} EscapeBound(s: seq<byte>)
    ensures |Escape(s)| <= 6 * |s|
    decreases |s|
  {
    if s != [] {
      EscapeBound(s[1..]);
    }
  }

  // ----- read back -----

  predicate IsPlainAscii(s: seq<byte>) { forall i :: 0 <= i < |s| ==> IsPlainByte(s[i]) && s[i] < 0x80 }

  lemma {:induction false} AsciiIsCText(s: seq<byte>)
    requires IsPlainAscii(s)
    ensures IsCText(s)
    decreases |s|
  {
    if s != [] {
      AsciiIsCText(s[1..]);
    }
  }

  lemma PlainIsBody(s: seq<byte>)
    requires IsPlainAscii(s)
    ensures IsBody(s) && BodyBytes(s) == s
  {
    AsciiIsCText(s);
    EscapePlain(s, []);
    assert s + [] == s && Escape([]) == [];
    EscapedIsBody(s);
  }

  /** An object with one text member, or two. */
  function TextMembers(k: seq<byte>, e: seq<byte>, rest: Option<Members>): Members {
    if rest.None? then LastMember(Key([], k, [], []), Str(e), [])
    else MoreMembers(Key([], k, [], []), Str(e), [], rest.value)
  }

  function FailureTree(status: seq<byte>, description: seq<byte>): Json {
    Object(TextMembers(STATUS, Escape(status),
                       if description == [] then None
                       else Some(TextMembers(DESCRIPTION, Escape(description), None))))
  }

  lemma TextMembersAre(k: seq<byte>, e: seq<byte>, rest: Option<Members>)
    requires IsBody(k) && IsBody(e) && (rest.Some? ==> AreMembers(rest.value))
    ensures AreMembers(TextMembers(k, e, rest))
    ensures MembersSize(TextMembers(k, e, rest)) == 2 + if rest.None? then 0 else MembersSize(rest.value)
  {
    hide IsBody;
    assert IsJson(Str(e)) && Size(Str(e)) == 1;
  }

  lemma TextMembersText(k: seq<byte>, e: seq<byte>, rest: Option<Members>)
    ensures MembersText(TextMembers(k, e, rest)) ==
            [QUOTE] + k + [QUOTE, COLON, QUOTE] + e +
            if rest.None? then [QUOTE, RBRACE] else [QUOTE, COMMA] + MembersText(rest.value)
  {
    var key := [QUOTE] + k + [QUOTE];
    var value := [QUOTE] + e + [QUOTE];
    var c := if rest.None? then RBRACE else COMMA;
    assert KeyText(Key([], k, [], [])) == key + [COLON];
    assert ElementText([], Str(e), [], c) == value + [c];
    assert key + [COLON] + (value + [c]) == [QUOTE] + k + [QUOTE, COLON, QUOTE] + e + [QUOTE, c];
  }

  lemma FailureTreeIsJson(status: seq<byte>, description: seq<byte>)
    requires IsCText(status) && IsCText(description)
    ensures var v := FailureTree(status, description);
            IsJson(v) && Size(v) == if description == [] then 3 else 5
  {
    hide IsBody, Escape, IsCText, TextMembers, BodyBytes;
    PlainIsBody(STATUS);
    PlainIsBody(DESCRIPTION);
    EscapedIsBody(status);
    EscapedIsBody(description);
    TextMembersAre(DESCRIPTION, Escape(description), None);
    TextMembersAre(STATUS, Escape(status), None);
    TextMembersAre(STATUS, Escape(status), Some(TextMembers(DESCRIPTION, Escape(description), None)));
  }

  lemma FailureTreeText(status: seq<byte>, description: seq<byte>)
    ensures FailureText(status, description) == Text(FailureTree(status, description)) + [0x0A]
  {
    hide Escape, TextMembers, MembersText;
    TextMembersText(DESCRIPTION, Escape(description), None);
    TextMembersText(STATUS, Escape(status), None);
    TextMembersText(STATUS, Escape(status), Some(TextMembers(DESCRIPTION, Escape(description), None)));
    if description != [] {
      Regroup(STATUS, Escape(status), DESCRIPTION, Escape(description));
    }
  }

  lemma Regroup(k: seq<byte>, e: seq<byte>, k': seq<byte>, e': seq<byte>)
    ensures [LBRACE, QUOTE] + k + [QUOTE, COLON, QUOTE] + e +
            ([QUOTE, COMMA, QUOTE] + k' + [QUOTE, COLON, QUOTE] + e') + [QUOTE, RBRACE, 0x0A] ==
            [LBRACE] +
            ([QUOTE] + k + [QUOTE, COLON, QUOTE] + e +
             ([QUOTE, COMMA] + ([QUOTE] + k' + [QUOTE, COLON, QUOTE] + e' + [QUOTE, RBRACE]))) + [0x0A]
  {
    var m := [QUOTE] + k' + [QUOTE, COLON, QUOTE] + e';
    var l := [QUOTE] + k + [QUOTE, COLON, QUOTE] + e;
    assert [QUOTE, COMMA, QUOTE] + k' + [QUOTE, COLON, QUOTE] + e' == [QUOTE, COMMA] + m;
    assert [LBRACE, QUOTE] + k + [QUOTE, COLON, QUOTE] + e == [LBRACE] + l;
    assert [QUOTE, RBRACE, 0x0A] == [QUOTE, RBRACE] + [0x0A];
  }

  /** The response to a failure is a JSON text that jstr accepts, and the strings in it decode to
      the status and the description. */
  lemma FailureReadsBack(status: seq<byte>, description: seq<byte>, cap: nat)
    requires IsCText(status) && IsCText(description) && cap >= 6
    ensures var sent := FailureText(status, description); var r := Parse(sent + [0], cap);
            && r.Done? && r.length == |sent|
            && IsTextMember(r.text, r.tokens, 1, STATUS, status)
            && (description != [] ==> IsTextMember(r.text, r.tokens, 3, DESCRIPTION, description))
  {
    hide Parse, Escape, IsBody, BodyBytes, IsCText, IsTextMember, EncodesMembers;
    var sent, v := FailureText(status, description), FailureTree(status, description);
    FailureTreeIsJson(status, description);
    FailureTreeText(status, description);
    assert IsText(sent + [0], |sent|, [], v, [0x0A]) by {
      hide Text, IsJson, FailureText, FailureTree;
      assert [] + Text(v) + [0x0A] == sent;
    }
    TextIsAccepted(sent + [0], |sent|, cap, [], v, [0x0A]);
    var r := Parse(sent + [0], cap);
    PlainIsBody(STATUS);
    PlainIsBody(DESCRIPTION);
    EscapedIsBody(status);
    EscapedIsBody(description);
    var rest := TextMembers(DESCRIPTION, Escape(description), None);
    if description == [] {
      TextMembersEncoded(r.text, r.tokens, 1, STATUS, Escape(status), None, |sent| + 1);
    } else {
      TextMembersEncoded(r.text, r.tokens, 1, STATUS, Escape(status), Some(rest), |sent| + 1);
      TextMembersEncoded(r.text, r.tokens, 3, DESCRIPTION, Escape(description), None, |sent| + 1);
    }
  }

  /** The tokens at `k` are a key and a string value. */
  predicate IsTextMember(text: seq<byte>, tokens: seq<Token>, k: nat, key: seq<byte>, value: seq<byte>) {
    && k + 2 <= |tokens| && tokens[k].kind == StringToken && tokens[k + 1].kind == StringToken
    && JsonTree.IsCString(text, tokens[k].value, key, |text|)
    && JsonTree.IsCString(text, tokens[k + 1].value, value, |text|)
  }

  lemma TextMembersEncoded(text: seq<byte>, tokens: seq<Token>, k: nat, key: seq<byte>, e: seq<byte>,
                           rest: Option<Members>, hi: nat)
    requires IsBody(key) && IsBody(e) && AreMembers(TextMembers(key, e, rest)) && hi == |text|
    requires EncodesMembers(text, tokens, k, TextMembers(key, e, rest), hi)
    ensures IsTextMember(text, tokens, k, BodyBytes(key), BodyBytes(e))
    ensures rest.Some? ==> AreMembers(rest.value) && EncodesMembers(text, tokens, k + 2, rest.value, hi)
  {
    hide IsBody, BodyBytes;
    assert Encodes(text, tokens, k + 1, Str(e), hi) && Size(Str(e)) == 1;
  }
}
