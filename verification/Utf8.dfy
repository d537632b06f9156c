/**
  UTF-8 as section 4 of RFC 3629 defines it, and the parser's own test of a multi-byte
  character, which accumulates the code point behind a marker bit.
 */
module Utf8 {

  type byte = x: nat | x < 256

  // ----- well-formed characters -----

  predicate IsTail(b: byte) { 0x80 <= b <= 0xBF }

  predicate IsTwo(s: seq<byte>) {
    |s| >= 2 && 0xC2 <= s[0] <= 0xDF && IsTail(s[1])
  }

  predicate IsThree(s: seq<byte>) {
    && |s| >= 3 && IsTail(s[2])
    && (|| (s[0] == 0xE0 && 0xA0 <= s[1] <= 0xBF)
        || (0xE1 <= s[0] <= 0xEC && IsTail(s[1]))
        || (s[0] == 0xED && 0x80 <= s[1] <= 0x9F)
        || (0xEE <= s[0] <= 0xEF && IsTail(s[1])))
  }

  predicate IsFour(s: seq<byte>) {
    && |s| >= 4 && IsTail(s[2]) && IsTail(s[3])
    && (|| (s[0] == 0xF0 && 0x90 <= s[1] <= 0xBF)
        || (0xF1 <= s[0] <= 0xF3 && IsTail(s[1]))
        || (s[0] == 0xF4 && 0x80 <= s[1] <= 0x8F))
  }

  /** The length of the well-formed character `s` starts with, or 0. */
  function CharLength(s: seq<byte>): (n: nat)
    ensures n <= |s| && n <= 4
  {
    if |s| >= 1 && s[0] < 0x80 then 1
    else if IsTwo(s) then 2
    else if IsThree(s) then 3
    else if IsFour(s) then 4
    else 0
  }

  /** Well-formed UTF-8 without NUL: what a C string can hold. */
  predicate IsCText(s: seq<byte>) {
    s == [] || (CharLength(s) > 0 && s[0] != 0 && IsCText(s[CharLength(s)..]))
  }

  lemma {:induction false} CTextAppend(a: seq<byte>, b: seq<byte>)
    requires IsCText(a) && IsCText(b)
    ensures IsCText(a + b)
    decreases |a|
  {
    hide CharLength;
    if a == [] {
      assert a + b == b;
    } else {
      var n := CharLength(a);
      CharExtends(a, b);
      CTextAppend(a[n..], b);
      assert (a + b)[n..] == a[n..] + b;
    }
  }

  lemma CharExtends(a: seq<byte>, b: seq<byte>)
    requires CharLength(a) > 0
    ensures CharLength(a + b) == CharLength(a)
  {
    assert forall i :: 0 <= i < |a| ==> (a + b)[i] == a[i];
  }

  // ----- encoding -----

  predicate IsScalar(code: nat) {
    code <= 0x10FFFF && !(0xD800 <= code <= 0xDFFF)
  }

  function Encode(code: nat): (s: seq<byte>)
    requires IsScalar(code)
    ensures 1 <= |s| <= 4
  {
    if code <= 0x7F then [code]
    else if code <= 0x7FF then [0xC0 + code / 64, 0x80 + code % 64]
    else if code <= 0xFFFF then [0xE0 + code / 4096, 0x80 + code / 64 % 64, 0x80 + code % 64]
    else [0xF0 + code / 262144, 0x80 + code / 4096 % 64, 0x80 + code / 64 % 64, 0x80 + code % 64]
  }

  lemma EncodeThree(code: nat)
    requires IsScalar(code) && 0x7FF < code <= 0xFFFF
    ensures IsThree(Encode(code))
  {
    var a, m := code / 4096, code / 64 % 64;
    assert a <= 15 && code / 64 == a * 64 + m;
    assert a == 0 ==> m >= 0x20;
    assert a == 13 ==> m < 0x20;
  }

  lemma EncodeFour(code: nat)
    requires IsScalar(code) && 0xFFFF < code
    ensures IsFour(Encode(code))
  {
    var a, m := code / 262144, code / 4096 % 64;
    assert a <= 4 && code / 4096 == a * 64 + m;
    assert a == 0 ==> m >= 0x10;
    assert a == 4 ==> m < 0x10;
  }

  lemma EncodeIsOne(code: nat)
    requires IsScalar(code) && code != 0
    ensures CharLength(Encode(code)) == |Encode(code)| && Encode(code)[0] != 0
  {
    if code > 0xFFFF {
      EncodeFour(code);
    } else if code > 0x7FF {
      EncodeThree(code);
    }
  }

  lemma EncodeIsWellFormed(code: nat)
    requires IsScalar(code) && code != 0
    ensures CharLength(Encode(code)) == |Encode(code)| && IsCText(Encode(code))
  {
    var s := Encode(code);
    EncodeIsOne(code);
    hide Encode, CharLength;
    assert s[|s|..] == [];
  }

  // ----- the parser's test -----

  /** The number of bytes after the first two, looked up by bits 3 to 5 of the first byte. */
  function ExtraBytes(b: byte): (len: nat)
    requires 0xC2 <= b <= 0xF4
    ensures len <= 2
  {
    [0, 0, 0, 0, 1, 1, 2][b / 8 % 8]
  }

  /** The payload bits of the first byte behind a marker that leaves the low 21 bits when the
      last byte has been read. */
  function FirstCode(b: byte): (code: nat)
    requires 0xC2 <= b <= 0xF4
    ensures code > 0
  {
    match ExtraBytes(b)
    case 0 => b % 32 + 0x40000
    case 1 => b % 16 + 0x1000
    case _ => b % 8 + 0x40
  }

  /** Read continuation bytes from `k` on until the marker has been shifted out of the way. */
  function ScanTail(s: seq<byte>, k: nat, code: nat): (r: (bool, nat, nat))
    requires k <= |s| && code > 0
    ensures k <= r.1 <= |s|
    decreases |s| - k
  {
    if code > 0x1FFFFF then (true, k, code)
    else if k < |s| && IsTail(s[k]) then ScanTail(s, k + 1, code * 64 + s[k] % 64)
    else (false, k, code)
  }

  /** Not overlong, not a surrogate, and in range; `code` has lost its marker. */
  predicate IsProper(code: nat, len: nat)
    requires len <= 2
  {
    && (code / (match len case 0 => 64 case 1 => 2048 case _ => 65536)) % 32 != 0
    && !(0xD800 <= code <= 0xDFFF) && code <= 0x10FFFF
  }

  /** The length of the multi-byte character the parser accepts at the start of `s`, or 0. */
  function ScanLength(s: seq<byte>): (n: nat)
    requires s != [] && 0xC2 <= s[0] <= 0xF4
    ensures n <= |s|
  {
    var (ok, k, code) := ScanTail(s, 1, FirstCode(s[0]));
    if ok && IsProper(code % 0x200000, ExtraBytes(s[0])) then k else 0
  }

  /** The parser accepts exactly the well-formed multi-byte characters. */
  lemma ScanAcceptsWellFormed(s: seq<byte>)
    requires s != [] && 0xC2 <= s[0] <= 0xF4
    ensures ScanLength(s) == CharLength(s)
  {
    if s[0] < 0xE0 {
      ScanTwo(s);
    } else if s[0] < 0xF0 {
      ScanThree(s);
    } else {
      ScanFour(s);
    }
  }

  lemma TailSteps(s: seq<byte>, k: nat, code: nat)
    requires k <= |s| && code > 0
    ensures ScanTail(s, k, code) ==
            if code > 0x1FFFFF then (true, k, code)
            else if k < |s| && IsTail(s[k]) then ScanTail(s, k + 1, code * 64 + s[k] % 64)
            else (false, k, code)
  {
  }

  lemma MarkerFalls(code: nat)
    requires code < 0x200000
    ensures (0x1000000 + code) % 0x200000 == code
  {
  }

  lemma ScanTwo(s: seq<byte>)
    requires s != [] && 0xC2 <= s[0] < 0xE0
    ensures ScanLength(s) == CharLength(s)
  {
    var b: nat := s[0];
    assert ExtraBytes(s[0]) == 0 && FirstCode(s[0]) == b - 0xC0 + 0x40000;
    hide ExtraBytes, FirstCode, IsProper, ScanTail;
    TailSteps(s, 1, FirstCode(s[0]));
    if |s| >= 2 && IsTail(s[1]) {
      var t1: nat := s[1] - 0x80;
      var c1 := (b - 0xC0 + 0x40000) * 64 + t1;
      assert s[1] % 64 == t1;
      TailSteps(s, 2, c1);
      ProperTwo(b - 0xC0, t1);
      MarkerFalls((b - 0xC0) * 64 + t1);
    }
  }

  lemma ProperTwo(b: nat, t1: nat)
    requires 2 <= b < 32 && t1 < 64
    ensures IsProper(b * 64 + t1, 0)
  {
    assert (b * 64 + t1) / 64 == b;
  }

  lemma ProperThree(b: nat, t1: nat, t2: nat)
    requires b < 16 && t1 < 64 && t2 < 64
    ensures IsProper(b * 4096 + t1 * 64 + t2, 1) <==> (b > 0 || t1 >= 32) && (b == 13 ==> t1 < 32)
  {
    var code := b * 4096 + t1 * 64 + t2;
    assert code / 2048 == b * 2 + t1 / 32;
    assert 0xD800 <= code <= 0xDFFF <==> b == 13 && t1 >= 32;
  }

  lemma ProperFour(b: nat, t1: nat, t2: nat, t3: nat)
    requires b < 5 && t1 < 64 && t2 < 64 && t3 < 64
    ensures IsProper(b * 262144 + t1 * 4096 + t2 * 64 + t3, 2) <==> (b > 0 || t1 >= 16) && (b == 4 ==> t1 < 16)
  {
    var code := b * 262144 + t1 * 4096 + t2 * 64 + t3;
    assert code / 65536 == b * 4 + t1 / 16;
    assert code > 0x10FFFF <==> b == 4 && t1 >= 16;
  }

  lemma ScanThree(s: seq<byte>)
    requires s != [] && 0xE0 <= s[0] < 0xF0
    ensures ScanLength(s) == CharLength(s)
  {
    var b: nat := s[0];
    assert ExtraBytes(s[0]) == 1 && FirstCode(s[0]) == b - 0xE0 + 0x1000;
    hide ExtraBytes, FirstCode, IsProper, ScanTail;
    if |s| >= 3 && IsTail(s[1]) && IsTail(s[2]) {
      var t1: nat, t2: nat := s[1] - 0x80, s[2] - 0x80;
      ThreeIsRead(s, b - 0xE0, t1, t2);
      ProperThree(b - 0xE0, t1, t2);
    } else {
      CutShort(s, b - 0xE0 + 0x1000, 2);
    }
  }

  lemma ScanFour(s: seq<byte>)
    requires s != [] && 0xF0 <= s[0] <= 0xF4
    ensures ScanLength(s) == CharLength(s)
  {
    var b: nat := s[0];
    assert ExtraBytes(s[0]) == 2 && FirstCode(s[0]) == b - 0xF0 + 0x40;
    hide ExtraBytes, FirstCode, IsProper, ScanTail;
    if |s| >= 4 && IsTail(s[1]) && IsTail(s[2]) && IsTail(s[3]) {
      var t1: nat, t2: nat, t3: nat := s[1] - 0x80, s[2] - 0x80, s[3] - 0x80;
      FourIsRead(s, b - 0xF0, t1, t2, t3);
      ProperFour(b - 0xF0, t1, t2, t3);
    } else {
      CutShort(s, b - 0xF0 + 0x40, 3);
    }
  }

  lemma TailByte(b: byte)
    requires IsTail(b)
    ensures b % 64 == b - 0x80
  {
  }

  lemma TwoTails(s: seq<byte>, code: nat, t1: nat, t2: nat)
    requires |s| >= 3 && IsTail(s[1]) && IsTail(s[2]) && t1 == s[1] - 0x80 && t2 == s[2] - 0x80 && 0 < code <= 0x1FFF
    ensures ScanTail(s, 1, code) == ScanTail(s, 3, (code * 64 + t1) * 64 + t2)
  {
    hide ScanTail;
    TailByte(s[1]);
    TailByte(s[2]);
    TailSteps(s, 1, code);
    TailSteps(s, 2, code * 64 + t1);
  }

  lemma ThreeIsRead(s: seq<byte>, b: nat, t1: nat, t2: nat)
    requires |s| >= 3 && IsTail(s[1]) && IsTail(s[2]) && t1 == s[1] - 0x80 && t2 == s[2] - 0x80 && b < 16
    ensures var r := ScanTail(s, 1, b + 0x1000);
            r.0 && r.1 == 3 && r.2 % 0x200000 == b * 4096 + t1 * 64 + t2
  {
    hide ScanTail;
    TwoTails(s, b + 0x1000, t1, t2);
    TailSteps(s, 3, ((b + 0x1000) * 64 + t1) * 64 + t2);
    MarkerFalls(b * 4096 + t1 * 64 + t2);
  }

  lemma FourIsRead(s: seq<byte>, b: nat, t1: nat, t2: nat, t3: nat)
    requires |s| >= 4 && IsTail(s[1]) && IsTail(s[2]) && IsTail(s[3])
    requires t1 == s[1] - 0x80 && t2 == s[2] - 0x80 && t3 == s[3] - 0x80 && b < 8
    ensures var r := ScanTail(s, 1, b + 0x40);
            r.0 && r.1 == 4 && r.2 % 0x200000 == b * 262144 + t1 * 4096 + t2 * 64 + t3
  {
    hide ScanTail;
    var c2 := ((b + 0x40) * 64 + t1) * 64 + t2;
    TwoTails(s, b + 0x40, t1, t2);
    TailSteps(s, 3, c2);
    TailByte(s[3]);
    TailSteps(s, 4, c2 * 64 + t3);
    MarkerFalls(b * 262144 + t1 * 4096 + t2 * 64 + t3);
  }

  /** A character that lacks one of its `n` continuation bytes is refused. */
  lemma CutShort(s: seq<byte>, code: nat, n: nat)
    requires s != [] && 2 <= n <= 3 && 0 < code && (if n == 2 then code <= 0x7FFF else code <= 0x1FF)
    requires |s| <= n || !IsTail(s[1]) || !IsTail(s[2]) || (n == 3 && !IsTail(s[3]))
    ensures !ScanTail(s, 1, code).0
  {
    hide ScanTail;
    TailSteps(s, 1, code);
    if |s| >= 2 && IsTail(s[1]) {
      TailByte(s[1]);
      var c1 := code * 64 + s[1] % 64;
      TailSteps(s, 2, c1);
      if |s| >= 3 && IsTail(s[2]) {
        TailSteps(s, 3, c1 * 64 + s[2] % 64);
      }
    }
  }
}
