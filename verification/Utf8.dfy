/** UTF-8 (section 4 of RFC 3629): the test that a host name must pass, what the names that pass
    it are, and which beginnings of a name can still become one. */
module Utf8 {
  import opened Bytes

  predicate Tail(b: byte) {
    0x80 <= b <= 0xbf
  }

  /** The length of the well-formed character that s begins with, or 0. */
  function CharLen(s: seq<byte>): (n: nat)
    requires s != []
    ensures n <= |s|
  {
    var b := s[0];
    if b <= 0x7f then 1
    else if 0xc2 <= b <= 0xdf && |s| >= 2 && Tail(s[1]) then 2
    else if |s| >= 3 && Tail(s[1]) && Tail(s[2]) && 0xe0 <= b <= 0xef
            && (b == 0xe0 ==> s[1] >= 0xa0) && (b == 0xed ==> s[1] <= 0x9f) then 3
    else if |s| >= 4 && Tail(s[1]) && Tail(s[2]) && Tail(s[3]) && 0xf0 <= b <= 0xf4
            && (b == 0xf0 ==> s[1] >= 0x90) && (b == 0xf4 ==> s[1] <= 0x8f) then 4
    else 0
  }

  predicate ValidUtf8(s: seq<byte>) {
    s == [] || (CharLen(s) > 0 && ValidUtf8(s[CharLen(s)..]))
  }

  // ---- characters and their code -----------------------------------------------------------------

  /** A Unicode scalar value: a code point that is no surrogate. */
  type scalar = c: int | 0 <= c < 0xd800 || 0xe000 <= c <= 0x10ffff

  function EncodeChar(c: scalar): (s: seq<byte>)
    ensures s != []
  {
    if c < 0x80 then [c]
    else if c < 0x800 then [0xc0 + c / 64, 0x80 + c % 64]
    else if c < 0x10000 then [0xe0 + c / 4096, 0x80 + c / 64 % 64, 0x80 + c % 64]
    else [0xf0 + c / 262144, 0x80 + c / 4096 % 64, 0x80 + c / 64 % 64, 0x80 + c % 64]
  }

  function EncodeText(cs: seq<scalar>): seq<byte> {
    if cs == [] then [] else EncodeChar(cs[0]) + EncodeText(cs[1..])
  }

  ghost predicate IsText(s: seq<byte>) {
    exists cs :: EncodeText(cs) == s
  }

  lemma EncodedCharLen(c: scalar, rest: seq<byte>)
    ensures CharLen(EncodeChar(c) + rest) == |EncodeChar(c)|
  {
  }

  /** The scalar value that four six-bit digits make. */
  function FromDigits(a: nat, b: nat, c: nat, d: nat): nat {
    262144 * a + 4096 * b + 64 * c + d
  }

  lemma Digits(a: nat, b: nat, c: nat, d: nat)
    requires b < 64 && c < 64 && d < 64
    ensures var x := FromDigits(a, b, c, d);
            && x == 262144 * a + 4096 * b + 64 * c + d
            && x / 262144 == a && x / 4096 % 64 == b && x / 64 % 64 == c && x % 64 == d
            && x / 4096 == 64 * a + b && x / 64 == 4096 * a + 64 * b + c
  {
    var x := FromDigits(a, b, c, d);
    assert x == 64 * (4096 * a + 64 * b + c) + d;
    assert x == 4096 * (64 * a + b) + (64 * c + d);
  }

  function DecodeChar(s: seq<byte>): (c: scalar)
    requires s != [] && CharLen(s) > 0
  {
    match CharLen(s)
    case 1 => s[0]
    case 2 => FromDigits(0, 0, s[0] - 0xc0, s[1] - 0x80)
    case 3 => FromDigits(0, s[0] - 0xe0, s[1] - 0x80, s[2] - 0x80)
    case _ => FromDigits(s[0] - 0xf0, s[1] - 0x80, s[2] - 0x80, s[3] - 0x80)
  }

  lemma DecodedChar(s: seq<byte>)
    requires s != [] && CharLen(s) > 0
    ensures EncodeChar(DecodeChar(s)) == s[..CharLen(s)]
  {
    hide FromDigits;
    match CharLen(s)
    case 1 =>
    case 2 => Digits(0, 0, s[0] - 0xc0, s[1] - 0x80);
    case 3 => Digits(0, s[0] - 0xe0, s[1] - 0x80, s[2] - 0x80);
    case _ => Digits(s[0] - 0xf0, s[1] - 0x80, s[2] - 0x80, s[3] - 0x80);
  }

  lemma {:induction false} EncodedIsValid(cs: seq<scalar>)
    ensures ValidUtf8(EncodeText(cs))
  {
    hide CharLen, EncodeChar;
    if cs != [] {
      var c, rest := EncodeChar(cs[0]), EncodeText(cs[1..]);
      EncodedCharLen(cs[0], rest);
      assert (c + rest)[|c|..] == rest;
      EncodedIsValid(cs[1..]);
    }
  }

  lemma {:induction false} ValidIsEncoded(s: seq<byte>) returns (cs: seq<scalar>)
    requires ValidUtf8(s)
    ensures EncodeText(cs) == s
  {
    hide CharLen, EncodeChar, DecodeChar;
    if s == [] {
      cs := [];
    } else {
      DecodedChar(s);
      var rest := ValidIsEncoded(s[CharLen(s)..]);
      cs := [DecodeChar(s)] + rest;
      assert cs[1..] == rest;
    }
  }

  /** The names that pass the test are exactly the encodings of texts. */
  lemma ValidIff(s: seq<byte>)
    ensures ValidUtf8(s) <==> IsText(s)
  {
    hide ValidUtf8, EncodeText;
    if ValidUtf8(s) {
      var cs := ValidIsEncoded(s);
    }
    if cs :| EncodeText(cs) == s {
      EncodedIsValid(cs);
    }
  }

  // ---- beginnings of names -----------------------------------------------------------------------

  lemma {:induction false} AsciiIsValid(s: seq<byte>)
    requires forall i :: 0 <= i < |s| ==> s[i] <= 0x7f
    ensures ValidUtf8(s)
  {
    if s != [] {
      AsciiIsValid(s[1..]);
    }
  }

  /** The number of bytes that the last character of s still lacks, if s is the beginning of some
      valid text. */
  function Lacking(s: seq<byte>): Option<nat> {
    if s == [] then Some(0)
    else if CharLen(s) > 0 then Lacking(s[CharLen(s)..])
    else CharLacking(s)
  }

  /** The same for a single character. */
  function CharLacking(s: seq<byte>): Option<nat>
    requires s != []
  {
    var b := s[0];
    var len := if 0xc2 <= b <= 0xdf then 2 else if 0xe0 <= b <= 0xef then 3 else if 0xf0 <= b <= 0xf4 then 4 else 0;
    if |s| >= len || (|s| > 1 && !SecondFits(b, s[1])) || (|s| > 2 && !Tail(s[2])) then None else Some(len - |s|)
  }

  /** A character that begins with b may continue with c. */
  predicate SecondFits(b: byte, c: byte) {
    && Tail(c)
    && (b == 0xe0 ==> c >= 0xa0) && (b == 0xed ==> c <= 0x9f)
    && (b == 0xf0 ==> c >= 0x90) && (b == 0xf4 ==> c <= 0x8f)
  }

  predicate CanBecome(s: seq<byte>, n: nat) {
    Lacking(s).Some? && |s| + Lacking(s).value <= n
  }

  lemma CharLenOfPrefix(s: seq<byte>, t: seq<byte>)
    requires s != [] && s <= t
    ensures CharLen(s) > 0 ==> CharLen(t) == CharLen(s)
    ensures 0 < CharLen(t) <= |s| ==> CharLen(s) == CharLen(t)
    ensures CharLen(t) > |s| ==> CharLen(s) == 0 && CharLacking(s) == Some(CharLen(t) - |s|)
  {
  }

  /** The bytes that complete a character. */
  function Completion(s: seq<byte>): seq<byte>
    requires s != [] && CharLen(s) == 0 && CharLacking(s).Some?
  {
    var n := CharLacking(s).value;
    if |s| == 1 then [if s[0] == 0xe0 then 0xa0 else if s[0] == 0xf0 then 0x90 else 0x80] + Fill(n - 1, 0x80)
    else Fill(n, 0x80)
  }

  function Fill(n: nat, b: byte): seq<byte> {
    seq(n, i => b)
  }

  lemma CompletedChar(s: seq<byte>, rest: seq<byte>)
    requires s != [] && CharLen(s) == 0 && CharLacking(s).Some?
    ensures var t := s + Completion(s) + rest;
            CharLen(t) == |s| + CharLacking(s).value && t[CharLen(t)..] == rest
  {
  }

  lemma {:induction false} Become(s: seq<byte>, n: nat) returns (w: seq<byte>)
    requires CanBecome(s, n)
    ensures |s + w| == n && ValidUtf8(s + w)
  {
    hide CharLacking, Completion, CharLen;
    if s == [] {
      w := Fill(n, 0x61);
      AsciiIsValid(w);
      assert s + w == w;
    } else if CharLen(s) > 0 {
      var k := CharLen(s);
      w := Become(s[k..], n - k);
      CharLenOfPrefix(s, s + w);
      assert (s + w)[k..] == s[k..] + w;
    } else {
      var rest := Fill(n - |s| - CharLacking(s).value, 0x61);
      w := Completion(s) + rest;
      AsciiIsValid(rest);
      CompletedChar(s, rest);
      assert s + w == s + Completion(s) + rest;
    }
  }

  lemma {:induction false} Became(s: seq<byte>, w: seq<byte>)
    requires ValidUtf8(s + w)
    ensures CanBecome(s, |s + w|)
  {
    hide CharLacking, CharLen;
    if s != [] {
      var t := s + w;
      CharLenOfPrefix(s, t);
      var k := CharLen(t);
      if k <= |s| {
        assert t[k..] == s[k..] + w;
        Became(s[k..], w);
      }
    }
  }

  /** Which beginnings can become a valid name of n bytes. */
  lemma CanBecomeIff(s: seq<byte>, n: nat)
    ensures CanBecome(s, n) <==> exists t :: s <= t && |t| == n && ValidUtf8(t)
  {
    hide CanBecome, ValidUtf8;
    if CanBecome(s, n) {
      var w := Become(s, n);
      assert s <= s + w;
    }
    if t :| s <= t && |t| == n && ValidUtf8(t) {
      assert t == s + t[|s|..];
      Became(s, t[|s|..]);
    }
  }
}
