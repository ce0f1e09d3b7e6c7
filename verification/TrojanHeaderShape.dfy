/** Which bytes are a Trojan request header (the comment at src/server/inbound/acceptor.rs:85-111
    and the code beside it), and when bytes that are none are found out. */
module TrojanHeaderShapes {
  import opened Bytes
  import opened MixAddrs
  import opened TrojanHeaders
  import opened Utf8

  /** The first c bytes of s are the header of a request, byte by byte: the hash, two bytes that
      are not looked at, the command, the address if the command has one, and the line end. */
  ghost predicate IsHeader(hash: seq<byte>, s: seq<byte>, cmd: byte, host: MixAddr, c: nat) {
    && 61 <= c <= |s|
    && s[..56] == hash && s[58] == cmd && s[c - 2..c] == [0x0d, 0x0a]
    && if cmd == 0xff then c == 61 && host == NoAddr
       else (cmd == 0x01 || cmd == 0x03 || cmd == 0x11) && Spells(s[59..c - 2], host)
  }

  /** A header is accepted if and only if it is there, byte by byte. */
  lemma AcceptedIff(hash: seq<byte>, s: seq<byte>, cmd: byte, host: MixAddr, c: nat)
    ensures ParseHeader(hash, s) == Accepted(cmd, host, c) <==> IsHeader(hash, s, cmd, host, c)
  {
    hide Decode, Spells;
    if 61 <= c <= |s| {
      assert s[59..][..c - 61] == s[59..c - 2];
      ParsedIff(s[59..], host, c - 61);
    }
    if ParseHeader(hash, s).Accepted? {
      DecidedBy320Bytes(hash, s);
    }
  }

  /** The line end is there as far as s goes from p. */
  predicate LineEndAt(s: seq<byte>, p: nat) {
    (|s| > p ==> s[p] == 0x0d) && (|s| > p + 1 ==> s[p + 1] == 0x0a)
  }

  /** s can still become a header. */
  predicate CanBeHeader(hash: seq<byte>, s: seq<byte>) {
    && |hash| == 56 && s[..Min(56, |s|)] <= hash
    && (|s| < 59
        || (s[58] == 0xff && LineEndAt(s, 59))
        || ((s[58] == 0x01 || s[58] == 0x03 || s[58] == 0x11) && Viable(s[59..])
            && (Decode(s[59..]).Parsed? ==> LineEndAt(s, 59 + Decode(s[59..]).len))))
  }

  /** The bytes that the parser waits for: the hash, two bytes of what follows the command, the
      address and the line end. */
  function Awaited(hash: seq<byte>, s: seq<byte>): nat {
    if |s| < 56 || s[..56] != hash then 56
    else if |s| < 61 || s[58] !in [0x01, 0x03, 0x11] then 61
    else 59 + Announced(s[59..]) + (if Decode(s[59..]).Invalid? then 0 else 2)
  }

  /** The verdict comes with the last of the bytes awaited. */
  lemma DecidedIff(hash: seq<byte>, s: seq<byte>)
    ensures ParseHeader(hash, s).Incomplete? <==> |s| < Awaited(hash, s)
  {
    hide Decode, Viable, Announced;
    if |s| >= 61 {
      VerdictIff(s[59..]);
      if Decode(s[59..]).Parsed? {
        ParsedLen(s[59..]);
      }
    }
  }

  lemma ParsedLen(s: seq<byte>)
    requires Decode(s).Parsed?
    ensures Decode(s).len == Announced(s) <= |s|
  {
    hide ValidUtf8, ReadSegments;
  }

  /** Which beginnings can become a header. */
  lemma CanBeHeaderIff(hash: seq<byte>, s: seq<byte>)
    ensures CanBeHeader(hash, s) <==> exists t :: s <= t && ParseHeader(hash, t).Accepted?
  {
    hide CanBeHeader, ParseHeader;
    if CanBeHeader(hash, s) {
      var t := Finish(hash, s);
    }
    if t :| s <= t && ParseHeader(hash, t).Accepted? {
      BeginningOfHeader(hash, s, t);
    }
  }

  /** Bytes are rejected if and only if no header begins like them and the bytes awaited have
      come: hopeless bytes are not rejected before. */
  lemma RejectedIff(hash: seq<byte>, s: seq<byte>)
    ensures ParseHeader(hash, s).Invalid? <==> !CanBeHeader(hash, s) && |s| >= Awaited(hash, s)
  {
    hide CanBeHeader, Awaited, ParseHeader;
    DecidedIff(hash, s);
    CanBeHeaderIff(hash, s);
    if !ParseHeader(hash, s).Incomplete? {
      forall t | s <= t ensures ParseHeader(hash, t) == ParseHeader(hash, s) {
        HeaderIsMonotone(hash, s, t);
      }
      assert s <= s;
    }
  }

  /** A request of another protocol waits for 56 bytes before it is passed on. */
  lemma FallbackWaits(hash: seq<byte>, s: seq<byte>)
    requires |s| < 56 && !(s <= hash)
    ensures ParseHeader(hash, s).Incomplete? && !CanBeHeader(hash, s)
  {
  }

  lemma Finish(hash: seq<byte>, s: seq<byte>) returns (t: seq<byte>)
    requires CanBeHeader(hash, s)
    ensures s <= t && ParseHeader(hash, t).Accepted?
  {
    hide Decode, Viable, ParseHeader, Spells;
    if |s| < 59 {
      var head := if |s| <= 56 then hash + [0, 0, 0xff] else s + Fill(58 - |s|, 0) + [0xff];
      t := head + [0x0d, 0x0a];
      assert t[59..61] == [0x0d, 0x0a];
      AcceptedIff(hash, t, 0xff, NoAddr, 61);
    } else if s[58] == 0xff {
      t := if |s| == 59 then s + [0x0d, 0x0a] else if |s| == 60 then s + [0x0a] else s;
      assert t[59..61] == [0x0d, 0x0a];
      AcceptedIff(hash, t, 0xff, NoAddr, 61);
    } else {
      var full, a, n := FinishAddress(s[59..]);
      t := s[..59] + full;
      assert t[59..59 + n] == full[..n] && t[59 + n..59 + n + 2] == full[n..n + 2];
      AcceptedIff(hash, t, s[58], a, 59 + n + 2);
    }
  }

  lemma FinishAddress(s: seq<byte>) returns (t: seq<byte>, a: MixAddr, n: nat)
    requires Viable(s) && (Decode(s).Parsed? ==> LineEndAt(s, Decode(s).len))
    ensures s <= t && n + 2 <= |t| && Spells(t[..n], a) && t[n..n + 2] == [0x0d, 0x0a]
  {
    hide Decode, Viable, Spells;
    if Decode(s).Parsed? {
      a, n := Decode(s).addr, Decode(s).len;
      ParsedIff(s, a, n);
      t := if |s| == n then s + [0x0d, 0x0a] else if |s| == n + 1 then s + [0x0a] else s;
      assert t[..n] == s[..n] && t[n] == 0x0d && t[n + 1] == 0x0a;
    } else {
      var u := CompletedFrom(s);
      a, n := Decode(u).addr, Decode(u).len;
      ParsedIff(u, a, n);
      if n <= |s| {
        assert s[..n] == u[..n];
        ParsedIff(s, a, n);
      }
      t := u[..n] + [0x0d, 0x0a];
      assert t[..n] == u[..n] && t[n] == 0x0d && t[n + 1] == 0x0a;
    }
    TwoBytes(t, n);
  }

  lemma TwoBytes(t: seq<byte>, n: nat)
    requires n + 2 <= |t|
    ensures t[n..n + 2] == [t[n], t[n + 1]]
  {
  }

  lemma BeginningOfHeader(hash: seq<byte>, s: seq<byte>, t: seq<byte>)
    requires s <= t && ParseHeader(hash, t).Accepted?
    ensures CanBeHeader(hash, s)
  {
    hide Decode, Viable, Spells;
    var h := ParseHeader(hash, t);
    DecidedBy320Bytes(hash, t);
    AcceptedIff(hash, t, h.cmd, h.host, h.cursor);
    assert t[h.cursor - 2..h.cursor][0] == 0x0d && t[h.cursor - 2..h.cursor][1] == 0x0a;
    if |s| >= 59 && h.cmd != 0xff {
      assert s[59..] <= t[59..];
      PrefixIsViable(s[59..], t[59..]);
      if Decode(s[59..]).Parsed? {
        DecodeIsMonotone(s[59..], t[59..]);
      }
    }
  }
}
