/** The SOCKS5 address form (section 5 of RFC 1928) as the Trojan header and the UDP frames use
    it: its printer, its incremental parser, and how far the two undo each other. */
module MixAddrs {
  import opened Bytes
  import opened Utf8

  datatype MixAddr =
    | Hostname(host: seq<byte>, port: u16)
    | V4(ip: seq<byte>, port: u16)
    | V6(segments: seq<u16>, port: u16)
    | NoAddr

  /** What the types of the original guarantee of an address. */
  predicate WellFormed(a: MixAddr) {
    match a
    case Hostname(host, _) => ValidUtf8(host)
    case V4(ip, _) => |ip| == 4
    case V6(segments, _) => |segments| == 8
    case NoAddr => true
  }

  // ---- printing --------------------------------------------------------------------------------

  function EncodedLen(a: MixAddr): nat
    requires WellFormed(a) && !a.NoAddr?
  {
    match a
    case Hostname(host, _) => 2 + |host| + 2
    case V4(_, _) => 1 + 4 + 2
    case V6(_, _) => 1 + 16 + 2
  }

  /** The big-endian bytes of a list of 16-bit numbers. */
  function SegmentBytes(a: seq<u16>): (s: seq<byte>)
    ensures |s| == 2 * |a|
  {
    seq(2 * |a|, i requires 0 <= i < 2 * |a| => if i % 2 == 0 then a[i / 2] / 256 else a[i / 2] % 256)
  }

  function Encoded(a: MixAddr): (s: seq<byte>)
    requires WellFormed(a) && !a.NoAddr?
    ensures |s| == EncodedLen(a)
  {
    match a
    case Hostname(host, port) => [0x03, |host| % 256] + host + ToBE(port)
    case V4(ip, port) => [0x01] + ip + ToBE(port)
    case V6(segments, port) => [0x04] + SegmentBytes(segments) + ToBE(port)
  }

  method TransmuteU16sToU8s(a: seq<u16>, b: array<byte>)
    modifies b
    ensures b.Length < 2 * |a| ==> b[..] == old(b[..])
    ensures b.Length >= 2 * |a| ==> b[..] == SegmentBytes(a) + old(b[2 * |a|..])
  {
    if b.Length < |a| * 2 {
      return;
    }
    for i := 0 to |a|
      invariant b[..2 * i] == SegmentBytes(a)[..2 * i]
      invariant b[2 * i..] == old(b[2 * i..])
    {
      ghost var was := b[2 * i..];
      b[2 * i] := a[i] / 256;
      b[2 * i + 1] := a[i] % 256;
      assert b[..2 * i + 2] == b[..2 * i] + [a[i] / 256, a[i] % 256];
      assert b[2 * i + 2..] == was[2..];
    }
  }

  method WriteBuf(a: MixAddr, buf: seq<byte>) returns (buf': seq<byte>)
    requires WellFormed(a) && !a.NoAddr?
    ensures buf' == buf + Encoded(a)
  {
    hide ValidUtf8, SegmentBytes;
    match a {
      case Hostname(host, port) =>
        buf' := buf + [0x03, |host| % 256];
        buf' := buf' + host;
        buf' := buf' + ToBE(port);
        assert buf' == buf + Encoded(a);
      case V4(ip, port) =>
        buf' := buf + [0x01];
        buf' := buf' + ip;
        buf' := buf' + ToBE(port);
        assert buf' == buf + Encoded(a);
      case V6(segments, port) =>
        var v6AddrU8 := new byte[16](_ => 0);
        TransmuteU16sToU8s(segments, v6AddrU8);
        buf' := buf + [0x04];
        buf' := buf' + v6AddrU8[..];
        buf' := buf' + ToBE(port);
        assert buf' == buf + Encoded(a);
    }
  }

  // ---- parsing -----------------------------------------------------------------------------------

  datatype AddrParse = Incomplete | Invalid | Parsed(addr: MixAddr, len: nat)

  /** The segments that the parser makes of 16 address bytes: segment i is read at bytes i and
      i + 1, not at 2i and 2i + 1. */
  function ReadSegments(v6: seq<byte>): (segments: seq<u16>)
    requires |v6| == 16
    ensures |segments| == 8
  {
    seq(8, i requires 0 <= i < 8 => FromBE(v6[i], v6[i + 1]))
  }

  function Decode(buf: seq<byte>): AddrParse {
    if |buf| < 2 then Incomplete
    else if buf[0] == 0x01 then
      if |buf| < 7 then Incomplete else Parsed(V4(buf[1..5], FromBE(buf[5], buf[6])), 7)
    else if buf[0] == 0x03 then
      var n: nat := buf[1];
      if |buf| < n + 4 then Incomplete
      else if !ValidUtf8(buf[2..n + 2]) then Invalid
      else Parsed(Hostname(buf[2..n + 2], FromBE(buf[n + 2], buf[n + 3])), n + 4)
    else if buf[0] == 0x04 then
      if |buf| < 19 then Incomplete else Parsed(V6(ReadSegments(buf[1..17]), FromBE(buf[17], buf[18])), 19)
    else Invalid
  }

  method FromEncodedBytes(buf: seq<byte>) returns (r: AddrParse)
    ensures r == Decode(buf)
  {
    if |buf| < 2 {
      return Incomplete;
    }
    match buf[0] {
      case 0x01 =>
        if |buf| < 1 + 4 + 2 {
          return Incomplete;
        }
        var ip := [buf[1], buf[2], buf[3], buf[4]];
        assert ip == buf[1..5];
        return Parsed(V4(ip, FromBE(buf[5], buf[6])), 7);
      case 0x03 =>
        var hostLen: nat := buf[1];
        if |buf| < 1 + 1 + hostLen + 2 {
          return Incomplete;
        }
        if !ValidUtf8(buf[2..2 + hostLen]) {
          return Invalid;
        }
        var host, port := buf[2..2 + hostLen], FromBE(buf[2 + hostLen], buf[2 + hostLen + 1]);
        return Parsed(Hostname(host, port), 1 + 1 + hostLen + 2);
      case 0x04 =>
        if |buf| < 1 + 16 + 2 {
          return Incomplete;
        }
        var v6u8 := buf[1..1 + 16];
        var v6u16: seq<u16> := [0, 0, 0, 0, 0, 0, 0, 0];
        for i := 0 to 8
          invariant |v6u16| == 8
          invariant forall k :: 0 <= k < i ==> v6u16[k] == FromBE(v6u8[k], v6u8[k + 1])
        {
          v6u16 := v6u16[i := FromBE(v6u8[i], v6u8[i + 1])];
        }
        assert v6u16 == ReadSegments(v6u8);
        return Parsed(V6(v6u16, FromBE(buf[1 + 16], buf[1 + 16 + 1])), 1 + 16 + 2);
      case _ =>
        return Invalid;
    }
  }

  /** Parses at a cursor and advances it.  The check in advance cannot fail, because no more is
      consumed than is there. */
  method FromEncoded(cursor: nat, buf: seq<byte>) returns (cursor': nat, r: AddrParse)
    requires cursor <= |buf|
    ensures r == Decode(buf[cursor..])
    ensures cursor' == if r.Parsed? then cursor + r.len else cursor
    ensures cursor' <= |buf|
  {
    r := FromEncodedBytes(buf[cursor..]);
    cursor' := cursor;
    if r.Parsed? {
      cursor' := cursor + r.len;
    }
  }

  // ---- what the parser finds ---------------------------------------------------------------------

  /** What is parsed is a well-formed address of exactly the consumed length, at most 259; the
      consumed bytes are its print-out, unless it is of the V6 kind. */
  lemma ParsedIsPrinted(buf: seq<byte>)
    requires Decode(buf).Parsed?
    ensures var r := Decode(buf);
            && WellFormed(r.addr) && !r.addr.NoAddr?
            && r.len == EncodedLen(r.addr) <= 259 && r.len <= |buf|
            && (!r.addr.V6? ==> Encoded(r.addr) == buf[..r.len])
  {
    hide ValidUtf8, IsText, Decode;
    var a := Decode(buf).addr;
    ParsedIsSpelt(buf);
    if a.Hostname? {
      ValidIff(a.host);
    }
  }

  /** A verdict does not change when more bytes arrive. */
  lemma DecodeIsMonotone(s: seq<byte>, t: seq<byte>)
    requires s <= t && !Decode(s).Incomplete?
    ensures Decode(t) == Decode(s)
  {
    hide ValidUtf8, ReadSegments;
    if s[0] == 0x01 {
      assert s[1..5] == t[1..5];
    } else if s[0] == 0x03 {
      assert s[2..s[1] + 2] == t[2..s[1] + 2];
    } else if s[0] == 0x04 {
      assert s[1..17] == t[1..17];
    }
  }

  lemma DecidedBy259Bytes(buf: seq<byte>)
    requires |buf| >= 259
    ensures !Decode(buf).Incomplete?
  {
    hide ValidUtf8, ReadSegments;
  }

  // ---- parsing what was printed ------------------------------------------------------------------

  predicate Printable(a: MixAddr) {
    WellFormed(a) && !a.NoAddr? && (a.Hostname? ==> |a.host| <= 255)
  }

  /** What the parser makes of the print-out of an address. */
  function Reread(a: MixAddr): MixAddr
    requires WellFormed(a)
  {
    if a.V6? then V6(ReadSegments(SegmentBytes(a.segments)), a.port) else a
  }

  /** Round trip: the print-out of an address followed by anything is consumed exactly, and
      gives back the address if it is of the V4 or Hostname kind. */
  lemma DecodeEncoded(a: MixAddr, rest: seq<byte>)
    requires Printable(a)
    ensures Decode(Encoded(a) + rest) == Parsed(Reread(a), EncodedLen(a))
  {
    hide ValidUtf8, ReadSegments, Encoded, Decode, Spells;
    var s := Encoded(a);
    var t := s + rest;
    assert t[..|s|] == s;
    if a.V6? {
      RereadSegments(a, t);
    } else {
      PrintedIsSpelt(a);
      ParsedIff(t, a, |s|);
    }
  }

  lemma RereadSegments(a: MixAddr, t: seq<byte>)
    requires Printable(a) && a.V6? && Encoded(a) <= t
    ensures Decode(t) == Parsed(Reread(a), 19)
  {
    hide ReadSegments, SegmentBytes;
    var s := Encoded(a);
    assert t[1..17] == s[1..17] == SegmentBytes(a.segments);
    assert t[17] == s[17] == ToBE(a.port)[0] && t[18] == s[18] == ToBE(a.port)[1];
  }

  /** Exactly which addresses survive the round trip: a V6 address does if and only if all its
      bytes but the first are equal. */
  lemma RereadIsExactIff(a: MixAddr)
    requires Printable(a)
    ensures Reread(a) == a <==> !a.V6? || AllButFirstEqual(SegmentBytes(a.segments))
  {
    hide SegmentBytes, ReadSegments, ValidUtf8;
    if a.V6? {
      var v := SegmentBytes(a.segments);
      forall i: nat | i < 8 ensures ReadSegments(v)[i] == a.segments[i] <==> Agrees(v, i) {
        SegmentIsExactIff(a.segments, i);
      }
      AgreesIff(v);
      assert ReadSegments(v) == a.segments <==> forall i: nat :: i < 8 ==> Agrees(v, i);
    }
  }

  predicate AllButFirstEqual(v: seq<byte>) {
    forall j :: 1 < j < |v| ==> v[j] == v[1]
  }

  /** Segment i of the bytes v is read where it was written. */
  predicate Agrees(v: seq<byte>, i: nat)
    requires |v| == 16 && i < 8
  {
    v[i] == v[2 * i] && v[i + 1] == v[2 * i + 1]
  }

  lemma SegmentIsExactIff(segments: seq<u16>, i: nat)
    requires |segments| == 8 && i < 8
    ensures var v := SegmentBytes(segments);
            ReadSegments(v)[i] == segments[i] <==> Agrees(v, i)
  {
    hide FromBE, SegmentBytes;
    var v := SegmentBytes(segments);
    SegmentAt(segments, i);
    BigEndian(v[i], v[i + 1]);
    BigEndian(v[2 * i], v[2 * i + 1]);
  }

  lemma AgreesIff(v: seq<byte>)
    requires |v| == 16
    ensures (forall i: nat :: i < 8 ==> Agrees(v, i)) <==> AllButFirstEqual(v)
  {
    if forall i: nat :: i < 8 ==> Agrees(v, i) {
      assert Agrees(v, 1) && Agrees(v, 2) && Agrees(v, 3) && Agrees(v, 4);
      assert Agrees(v, 5) && Agrees(v, 6) && Agrees(v, 7);
    }
  }

  /** The loopback address ::1 comes out as the unspecified address. */
  lemma LoopbackIsLost(port: u16)
    ensures Reread(V6([0, 0, 0, 0, 0, 0, 0, 1], port)) == V6([0, 0, 0, 0, 0, 0, 0, 0], port)
  {
    var a := V6([0, 0, 0, 0, 0, 0, 0, 1], port);
    var v := SegmentBytes(a.segments);
    assert forall j :: 0 <= j < 9 ==> v[j] == 0;
    assert ReadSegments(v) == [0, 0, 0, 0, 0, 0, 0, 0];
  }

  /** The length byte is truncated: the print-out of an address is consumed exactly if and only
      if a host name fits it. */
  lemma ConsumedExactlyIff(a: MixAddr, rest: seq<byte>)
    requires WellFormed(a) && !a.NoAddr?
    ensures (Decode(Encoded(a) + rest).Parsed? && Decode(Encoded(a) + rest).len == EncodedLen(a)) <==> Printable(a)
  {
    hide ValidUtf8, ReadSegments, SegmentBytes;
    if Printable(a) {
      DecodeEncoded(a, rest);
    } else {
      var t := Encoded(a) + rest;
      assert t[0] == 0x03 && t[1] == |a.host| % 256;
    }
  }

  /** Every proper prefix of a print-out is incomplete. */
  lemma PrefixIsIncomplete(a: MixAddr, k: nat)
    requires Printable(a) && k < EncodedLen(a)
    ensures Decode(Encoded(a)[..k]).Incomplete?
  {
    hide ValidUtf8, ReadSegments, SegmentBytes;
    var s := Encoded(a);
    if k >= 2 {
      assert s[..k][0] == s[0] && s[..k][1] == s[1];
    }
  }

  lemma SegmentBytesInjective(a: seq<u16>, b: seq<u16>)
    requires SegmentBytes(a) == SegmentBytes(b)
    ensures a == b
  {
    assert |a| == |b|;
    forall i | 0 <= i < |a| ensures a[i] == b[i] {
      assert SegmentBytes(a)[2 * i] == SegmentBytes(b)[2 * i];
      assert SegmentBytes(a)[2 * i + 1] == SegmentBytes(b)[2 * i + 1];
    }
  }

  /** The code is prefix-free, for addresses of every kind. */
  lemma CodeIsPrefixFree(a: MixAddr, b: MixAddr)
    requires Printable(a) && Printable(b) && Encoded(a) <= Encoded(b)
    ensures a == b
  {
    hide ValidUtf8, ReadSegments, SegmentBytes;
    var s, t := Encoded(a), Encoded(b);
    var rest := t[|s|..];
    assert s + rest == t && t + [] == t;
    DecodeEncoded(a, rest);
    DecodeEncoded(b, []);
    if a.V6? {
      assert s[1..17] == SegmentBytes(a.segments) && t[1..17] == SegmentBytes(b.segments);
      SegmentBytesInjective(a.segments, b.segments);
    }
  }

  // ---- which bytes are an address ----------------------------------------------------------------

  /** s is the address a byte by byte: the kind, the address, which for a name is its length and
      its bytes, and the port.  The segments of a V6 address overlap as the parser reads them. */
  ghost predicate Spells(s: seq<byte>, a: MixAddr) {
    match a
    case V4(ip, port) => |ip| == 4 && s == [0x01] + ip + ToBE(port)
    case Hostname(host, port) =>
      |host| < 256 && IsText(host) && s == [0x03, |host|] + host + ToBE(port)
    case V6(segments, port) =>
      && |s| == 19 && s[0] == 0x04 && |segments| == 8
      && (forall i :: 0 <= i < 8 ==> segments[i] == FromBE(s[i + 1], s[i + 2])) && s[17..] == ToBE(port)
    case NoAddr => false
  }

  /** An address is found if and only if it is there, byte by byte. */
  lemma ParsedIff(buf: seq<byte>, a: MixAddr, n: nat)
    ensures Decode(buf) == Parsed(a, n) <==> n <= |buf| && Spells(buf[..n], a)
  {
    hide ValidUtf8, IsText;
    if Decode(buf) == Parsed(a, n) {
      ParsedIsSpelt(buf);
    }
    if n <= |buf| && Spells(buf[..n], a) {
      SpeltIsParsed(buf, a, n);
    }
  }

  lemma ParsedIsSpelt(buf: seq<byte>)
    requires Decode(buf).Parsed?
    ensures Decode(buf).len <= |buf| && Spells(buf[..Decode(buf).len], Decode(buf).addr)
  {
    hide ValidUtf8, IsText;
    var r := Decode(buf);
    var s := buf[..r.len];
    match r.addr {
      case V4(ip, port) =>
        BigEndian(buf[5], buf[6]);
        assert s == [0x01] + ip + [buf[5], buf[6]];
      case Hostname(host, port) =>
        var n := |host|;
        ValidIff(host);
        BigEndian(buf[n + 2], buf[n + 3]);
        assert s == [0x03, n] + host + [buf[n + 2], buf[n + 3]];
      case V6(segments, port) =>
        BigEndian(buf[17], buf[18]);
        assert s[17..] == [buf[17], buf[18]];
    }
  }

  lemma SpeltIsParsed(buf: seq<byte>, a: MixAddr, n: nat)
    requires n <= |buf| && Spells(buf[..n], a)
    ensures Decode(buf) == Parsed(a, n)
  {
    hide ValidUtf8, IsText, FromBE, ReadSegments;
    var s, k := buf[..n], n - 2;
    assert n >= 4 && s[k..] == ToBE(a.port) by { SpeltPort(s, a); }
    assert buf[k] == s[k..][0] && buf[k + 1] == s[k..][1];
    assert buf[0] == s[0] && buf[1] == s[1];
    match a {
      case V4(ip, port) =>
        assert buf[1..5] == s[1..5] == ip;
      case Hostname(host, port) =>
        ValidIff(host);
        assert buf[2..k] == s[2..k] == host;
      case V6(segments, port) =>
        SpeltSegments(buf[1..17], segments);
    }
  }

  lemma SpeltPort(s: seq<byte>, a: MixAddr)
    requires Spells(s, a)
    ensures |s| >= 4 && s[|s| - 2..] == ToBE(a.port)
  {
  }

  lemma SpeltSegments(v6: seq<byte>, segments: seq<u16>)
    requires |v6| == 16 && |segments| == 8 && forall i :: 0 <= i < 8 ==> segments[i] == FromBE(v6[i], v6[i + 1])
    ensures ReadSegments(v6) == segments
  {
  }

  /** What is printed: the segments of a V6 address one after the other, unlike where the parser
      looks for them. */
  lemma PrintedIsSpelt(a: MixAddr)
    requires Printable(a)
    ensures !a.V6? ==> Spells(Encoded(a), a)
    ensures a.V6? ==>
              var s := Encoded(a);
              && s[0] == 0x04 && s[17..] == ToBE(a.port)
              && (forall i :: 0 <= i < 8 ==> FromBE(s[2 * i + 1], s[2 * i + 2]) == a.segments[i])
  {
    hide ValidUtf8, IsText, SegmentBytes, FromBE;
    var s := Encoded(a);
    if a.V6? {
      var v := SegmentBytes(a.segments);
      assert s[1..17] == v;
      forall i | 0 <= i < 8 ensures FromBE(s[2 * i + 1], s[2 * i + 2]) == a.segments[i] {
        SegmentAt(a.segments, i);
        assert s[1..17][2 * i] == s[2 * i + 1] && s[1..17][2 * i + 1] == s[2 * i + 2];
      }
    } else if a.Hostname? {
      ValidIff(a.host);
    }
  }

  lemma SegmentAt(segments: seq<u16>, i: nat)
    requires i < |segments|
    ensures var v := SegmentBytes(segments); FromBE(v[2 * i], v[2 * i + 1]) == segments[i]
  {
    var v := SegmentBytes(segments);
    assert v[2 * i] == segments[i] / 256 && v[2 * i + 1] == segments[i] % 256;
  }

  /** The bytes that the parser waits for. */
  function Announced(s: seq<byte>): nat {
    if |s| < 2 then 2
    else match s[0] case 0x01 => 7 case 0x03 => s[1] as int + 4 case 0x04 => 19 case _ => 2
  }

  /** s can still become an address. */
  predicate Viable(s: seq<byte>) {
    || s == [] || s[0] == 0x01 || s[0] == 0x04
    || (s[0] == 0x03 && (|s| > 1 ==> CanBecome(s[2..Min(|s|, s[1] as int + 2)], s[1])))
  }

  /** The verdict comes with the last of the bytes announced, and is Invalid if and only if no
      address begins like this. */
  lemma VerdictIff(s: seq<byte>)
    ensures Decode(s).Incomplete? <==> |s| < Announced(s)
    ensures Decode(s).Invalid? <==> |s| >= Announced(s) && !Viable(s)
  {
    hide ValidUtf8, CanBecome, ReadSegments;
    if |s| >= 2 && s[0] == 0x03 && |s| >= Announced(s) {
      FullNameIff(s[2..s[1] + 2]);
    }
  }

  lemma FullNameIff(name: seq<byte>)
    ensures CanBecome(name, |name|) <==> ValidUtf8(name)
  {
    hide ValidUtf8, CanBecome;
    CanBecomeIff(name, |name|);
    if t :| name <= t && |t| == |name| && ValidUtf8(t) {
      assert t == name;
    }
  }

  /** Which beginnings can become an address: a hopeless one is not always noticed before the
      announced bytes have come. */
  lemma ViableIff(s: seq<byte>)
    ensures Viable(s) <==> exists t :: s <= t && Decode(t).Parsed?
  {
    hide Viable, Decode;
    if Viable(s) {
      var t := CompletedFrom(s);
    }
    if t :| s <= t && Decode(t).Parsed? {
      PrefixIsViable(s, t);
    }
  }

  lemma CompletedFrom(s: seq<byte>) returns (t: seq<byte>)
    requires Viable(s)
    ensures s <= t && Decode(t).Parsed?
  {
    hide ValidUtf8, CanBecome, ReadSegments;
    if s == [] {
      t := [0x01, 0, 0, 0, 0, 0, 0];
    } else if s[0] != 0x03 {
      t := s + Fill(19, 0);
    } else if |s| == 1 {
      t := [0x03, 0, 0, 0];
      assert ValidUtf8(t[2..2]) by { AsciiIsValid(t[2..2]); }
    } else {
      var n: nat, name := s[1], s[2..Min(|s|, s[1] as int + 2)];
      var rest := Become(name, n);
      t := s + rest + [0, 0];
      assert t[2..n + 2] == name + rest;
    }
  }

  lemma PrefixIsViable(s: seq<byte>, t: seq<byte>)
    requires s <= t && Decode(t).Parsed?
    ensures Viable(s)
  {
    hide ValidUtf8, CanBecome, ReadSegments;
    if |s| > 1 && s[0] == 0x03 {
      var n: nat := s[1];
      var name := t[2..n + 2];
      CanBecomeIff(s[2..Min(|s|, n + 2)], n);
      assert s[2..Min(|s|, n + 2)] <= name;
    }
  }
}
