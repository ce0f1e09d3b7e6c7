/** The Trojan request header: printed by the client, parsed incrementally by the server, which
    keeps what follows the header for the first read of the request. */
module TrojanHeaders {
  import opened Bytes
  import opened MixAddrs
  import opened Streams
  import opened Utf8

  const HASH_LEN := 56
  const TCP_REQUEST_CMD: byte := 0x01
  const UDP_REQUEST_CMD: byte := 0x03
  const LITE_TLS_REQUEST_CMD: byte := 0x11
  const ECHO_REQUEST_CMD: byte := 0xff
  const CRLF: seq<byte> := [0x0d, 0x0a]

  /** The commands that carry an address. */
  predicate Addressed(cmd: byte) {
    cmd == TCP_REQUEST_CMD || cmd == UDP_REQUEST_CMD || cmd == LITE_TLS_REQUEST_CMD
  }

  // ---- one-shot parsing --------------------------------------------------------------------------

  datatype Header = Incomplete | Invalid | Accepted(cmd: byte, host: MixAddr, cursor: nat)

  /** The line end after the request. */
  function Trailer(s: seq<byte>, p: nat, cmd: byte, host: MixAddr): Header {
    if |s| < p + 2 then Header.Incomplete
    else if s[p..p + 2] == CRLF then Accepted(cmd, host, p + 2)
    else Header.Invalid
  }

  /** The header of s as one sees it when all of s is there at once.  The line end after the
      hash, bytes 56 and 57, is skipped unchecked. */
  function ParseHeader(hash: seq<byte>, s: seq<byte>): Header {
    if |s| < HASH_LEN then Header.Incomplete
    else if s[..HASH_LEN] != hash then Header.Invalid
    else if |s| < HASH_LEN + 5 then Header.Incomplete
    else
      var cmd := s[HASH_LEN + 2];
      if Addressed(cmd) then
        match Decode(s[HASH_LEN + 3..])
        case Incomplete => Header.Incomplete
        case Invalid => Header.Invalid
        case Parsed(addr, len) => Trailer(s, HASH_LEN + 3 + len, cmd, addr)
      else if cmd == ECHO_REQUEST_CMD then Trailer(s, HASH_LEN + 3, cmd, NoAddr)
      else Header.Invalid
  }

  lemma TrailerIsMonotone(s: seq<byte>, t: seq<byte>, p: nat, cmd: byte, host: MixAddr)
    requires s <= t && !Trailer(s, p, cmd, host).Incomplete?
    ensures Trailer(t, p, cmd, host) == Trailer(s, p, cmd, host)
  {
    assert s[p..p + 2] == t[p..p + 2];
  }

  /** A verdict does not change when more bytes arrive. */
  lemma HeaderIsMonotone(hash: seq<byte>, s: seq<byte>, t: seq<byte>)
    requires s <= t && !ParseHeader(hash, s).Incomplete?
    ensures ParseHeader(hash, t) == ParseHeader(hash, s)
  {
    hide Decode, Trailer;
    assert s[..HASH_LEN] == t[..HASH_LEN];
    if s[..HASH_LEN] == hash {
      var cmd, d := s[HASH_LEN + 2], Decode(s[HASH_LEN + 3..]);
      assert t[HASH_LEN + 2] == cmd;
      if Addressed(cmd) {
        assert s[HASH_LEN + 3..] <= t[HASH_LEN + 3..];
        DecodeIsMonotone(s[HASH_LEN + 3..], t[HASH_LEN + 3..]);
        if d.Parsed? {
          TrailerIsMonotone(s, t, HASH_LEN + 3 + d.len, cmd, d.addr);
        }
      } else if cmd == ECHO_REQUEST_CMD {
        TrailerIsMonotone(s, t, HASH_LEN + 3, cmd, NoAddr);
      }
    }
  }

  /** No header needs more than 320 bytes, and the part before the payload has at least 61. */
  lemma DecidedBy320Bytes(hash: seq<byte>, s: seq<byte>)
    ensures |s| >= 320 ==> !ParseHeader(hash, s).Incomplete?
    ensures ParseHeader(hash, s).Accepted? ==> 61 <= ParseHeader(hash, s).cursor <= Min(320, |s|)
  {
    hide Decode;
    if |s| >= HASH_LEN + 5 {
      var chunk := s[HASH_LEN + 3..];
      if |chunk| >= 259 {
        DecidedBy259Bytes(chunk);
      }
      if Decode(chunk).Parsed? {
        ParsedIsPrinted(chunk);
      }
    }
  }

  // ---- the parser as an object -------------------------------------------------------------------

  class TrojanAcceptor {
    var host: MixAddr
    var cursor: nat
    var buf: seq<byte>
    var cmdCode: byte
    const passwordHash: seq<byte>

    constructor (passwordHash: seq<byte>)
      ensures this.passwordHash == passwordHash && buf == [] && cursor == 0 && Valid()
    {
      this.passwordHash := passwordHash;
      buf, cursor, cmdCode := [], 0, 0;
      host := NoAddr;
    }

    ghost predicate Verified()
      reads this
    {
      |buf| >= HASH_LEN && buf[..HASH_LEN] == passwordHash
    }

    /** How far an unfinished parse has come. */
    ghost predicate Valid()
      reads this
    {
      if cursor == 0 then host == NoAddr
      else if host == NoAddr then
        Verified() && (cursor == HASH_LEN + 2 || cursor == HASH_LEN + 3)
      else
        && Verified() && |buf| >= HASH_LEN + 5 && cmdCode == buf[HASH_LEN + 2] && Addressed(cmdCode)
        && cursor >= HASH_LEN + 3
        && Decode(buf[HASH_LEN + 3..]) == Parsed(host, cursor - (HASH_LEN + 3))
    }

    /** More bytes do not invalidate what has been parsed. */
    method Extend(chunk: seq<byte>)
      requires Valid()
      modifies this`buf
      ensures Valid() && buf == old(buf) + chunk
    {
      hide Decode;
      if cursor != 0 {
        assert (buf + chunk)[..HASH_LEN] == buf[..HASH_LEN];
      }
      if host != NoAddr {
        assert buf[HASH_LEN + 3..] + chunk == (buf + chunk)[HASH_LEN + 3..];
        DecodeIsMonotone(buf[HASH_LEN + 3..], buf[HASH_LEN + 3..] + chunk);
      }
      buf := buf + chunk;
    }

    method Verify() returns (r: Header)
      requires cursor == 0 && host == NoAddr
      modifies this`cursor
      ensures Valid()
      ensures match r
              case Incomplete => |buf| < HASH_LEN && cursor == 0
              case Invalid => |buf| >= HASH_LEN && !Verified() && cursor == 0
              case Accepted(_, _, c) => Verified() && cursor == c == HASH_LEN + 2
    {
      if |buf| < HASH_LEN {
        return Header.Incomplete;
      }
      if buf[..HASH_LEN] == passwordHash {
        cursor := HASH_LEN + 2;
        return Accepted(0, NoAddr, cursor);
      } else {
        return Header.Invalid;
      }
    }

    method SetHostAndPort() returns (r: Header)
      requires Valid() && cursor != 0 && host == NoAddr
      modifies this`cursor, this`cmdCode, this`host
      ensures r.Incomplete? || r.Invalid? ==> Valid()
      ensures |buf| < HASH_LEN + 5 ==> r.Incomplete?
      ensures |buf| >= HASH_LEN + 5 ==>
                && cmdCode == buf[HASH_LEN + 2]
                && var d := Decode(buf[HASH_LEN + 3..]);
                   if Addressed(cmdCode) then
                     match d
                     case Incomplete => r.Incomplete?
                     case Invalid => r.Invalid?
                     case Parsed(addr, len) =>
                       r.Accepted? && host == addr && cursor == HASH_LEN + 3 + len <= |buf| && Valid()
                   else if cmdCode == ECHO_REQUEST_CMD then
                     r.Accepted? && host == NoAddr && cursor == HASH_LEN + 3 && Valid()
                   else r.Invalid?
    {
      hide Decode;
      if |buf| < HASH_LEN + 5 {
        return Header.Incomplete;
      }
      cursor := HASH_LEN + 3;
      cmdCode := buf[HASH_LEN + 2];
      if cmdCode == TCP_REQUEST_CMD || cmdCode == UDP_REQUEST_CMD || cmdCode == LITE_TLS_REQUEST_CMD {
        var cursor', parsed := FromEncoded(cursor, buf);
        match parsed {
          case Incomplete => return Header.Incomplete;
          case Invalid => return Header.Invalid;
          case Parsed(addr, _) =>
            ParsedIsPrinted(buf[HASH_LEN + 3..]);
            host := addr;
            cursor := cursor';
        }
      } else if cmdCode == ECHO_REQUEST_CMD {
      } else {
        return Header.Invalid;
      }
      return Accepted(cmdCode, host, cursor);
    }

    /** Whatever earlier calls have seen, the outcome is that of parsing all bytes at once. */
    method Parse() returns (r: Header)
      requires Valid()
      modifies this`cursor, this`cmdCode, this`host
      ensures r == ParseHeader(passwordHash, buf)
      ensures !r.Accepted? ==> Valid()
      ensures r.Accepted? ==> r == Accepted(cmdCode, host, cursor)
    {
      hide Decode;
      if cursor == 0 {
        var verified := Verify();
        if !verified.Accepted? {
          return verified;
        }
      }
      if host == NoAddr {
        var request := SetHostAndPort();
        if !request.Accepted? {
          return request;
        }
      }
      if |buf| < cursor + 2 {
        return Header.Incomplete;
      }
      if buf[cursor..cursor + 2] == CRLF {
        cursor := cursor + 2;
        return Accepted(cmdCode, host, cursor);
      } else {
        return Header.Invalid;
      }
    }

    /** Reads until the header is decided.  The outcome depends on the bytes of the stream
        alone, not on how they are cut into reads, and the buffer of 1024 bytes always has
        room.  Nothing is read that is not needed: the first k chunks do not decide, and the
        next one is the last to be read. */
    method Accept(inbound: Stream) returns (r: Request, recv: BufferedRecv?, ghost k: nat)
      requires Valid() && buf == [] && cursor == 0
      requires inbound.Valid() && inbound.received == []
      modifies this, inbound`incoming, inbound`received
      ensures inbound.Valid() && |inbound.received| <= BUFFER_CAPACITY
      ensures r != EndOfStream ==> DecidedAfter(passwordHash, old(inbound.incoming), k, inbound.received)
      ensures match ParseHeader(passwordHash, inbound.total)
              case Incomplete => r == EndOfStream && inbound.incoming == []
              case Invalid => r == Fallback(inbound.received)
              case Accepted(cmd, host, cursor) =>
                && r == Served(cmd, host) && recv != null && fresh(recv) && recv.inner == inbound
                && recv.Valid() && cursor <= |inbound.total| && recv.Remaining() == inbound.total[cursor..]
    {
      hide Decode, ParseHeader, Concat, UpTo;
      ghost var chunks := inbound.incoming;
      recv, k := null, 0;
      NothingParsed(passwordHash);
      NothingRead(chunks);
      while true
        invariant Valid() && inbound.Valid() && buf == inbound.received
        invariant k <= |chunks| && inbound.incoming == chunks[k..] && buf == Concat(chunks[..k])
        invariant |buf| < 320
        invariant ParseHeader(passwordHash, buf).Incomplete?
        decreases |inbound.total| - |buf|
      {
        ghost var before := inbound.incoming;
        var chunk := inbound.ReadUpTo(BUFFER_CAPACITY - |buf|);
        assert buf + chunk <= inbound.total;
        if chunk == [] {
          assert inbound.total == buf by { NothingLeft(before, buf, inbound.total); }
          return EndOfStream, null, k;
        }
        OneChunkMore(chunks, k, buf, chunk, BUFFER_CAPACITY);
        Extend(chunk);
        var parsed := Parse();
        DecidedBy320Bytes(passwordHash, buf);
        match parsed {
          case Incomplete =>
            k := k + 1;
          case Invalid =>
            HeaderIsMonotone(passwordHash, buf, inbound.total);
            return Fallback(buf), null, k;
          case Accepted(_, _, _) =>
            HeaderIsMonotone(passwordHash, buf, inbound.total);
            break;
        }
      }
      recv := new BufferedRecv(inbound, if |buf| == cursor then None else Some((cursor, buf)));
      assert inbound.total == buf + Concat(inbound.incoming);
      assert inbound.total[cursor..] == buf[cursor..] + Concat(inbound.incoming);
      return Served(cmdCode, host), recv, k;
    }
  }

  const BUFFER_CAPACITY := 1024

  datatype Request = Served(cmd: byte, host: MixAddr) | Fallback(buffered: seq<byte>) | EndOfStream

  /** The first k chunks do not decide the header, and received is what one read more brings. */
  ghost predicate DecidedAfter(hash: seq<byte>, chunks: seq<seq<byte>>, k: nat, received: seq<byte>) {
    && k < |chunks| && ParseHeader(hash, Concat(chunks[..k])).Incomplete?
    && received == UpTo(Concat(chunks[..k + 1]), BUFFER_CAPACITY)
  }

  lemma NothingRead(chunks: seq<seq<byte>>)
    ensures chunks[0..] == chunks && Concat(chunks[..0]) == []
  {
  }

  lemma OneChunkMore(chunks: seq<seq<byte>>, k: nat, buf: seq<byte>, chunk: seq<byte>, capacity: nat)
    requires k < |chunks| && buf == Concat(chunks[..k]) && |buf| < capacity
    requires chunk == UpTo(chunks[k], capacity - |buf|)
    ensures buf + chunk == UpTo(Concat(chunks[..k + 1]), capacity)
    ensures |buf + chunk| < capacity ==> |chunks[k]| <= capacity - |buf| && buf + chunk == Concat(chunks[..k + 1])
  {
    assert chunks[..k + 1] == chunks[..k] + [chunks[k]];
    ConcatSnoc(chunks[..k], chunks[k]);
  }

  lemma NothingParsed(hash: seq<byte>)
    ensures ParseHeader(hash, []).Incomplete?
  {
  }

  lemma NothingLeft(incoming: seq<seq<byte>>, buf: seq<byte>, total: seq<byte>)
    requires incoming == [] && total == buf + Concat(incoming)
    ensures total == buf
  {
  }

  // ---- replaying what followed the header -----------------------------------------------------

  datatype ReadOutcome = Data(bytes: seq<byte>) | Panicked

  class BufferedRecv {
    var bufferedRequest: Option<(nat, seq<byte>)>
    const inner: Stream

    /** The bytes that reads will still yield. */
    ghost function Remaining(): seq<byte>
      reads this, inner
      requires bufferedRequest.Some? ==> bufferedRequest.value.0 <= |bufferedRequest.value.1|
    {
      (if bufferedRequest.Some? then bufferedRequest.value.1[bufferedRequest.value.0..] else [])
      + Concat(inner.incoming)
    }

    /** A replayed rest is not empty, or its read would look like the end of the stream, and it
        came out of the header buffer behind a header. */
    ghost predicate Valid()
      reads this, inner
    {
      && inner.Valid()
      && (bufferedRequest.Some? ==>
            var (index, bytes) := bufferedRequest.value;
            61 <= index < |bytes| <= BUFFER_CAPACITY)
    }

    constructor (inner: Stream, bufferedRequest: Option<(nat, seq<byte>)>)
      requires inner.Valid()
      requires bufferedRequest.Some? ==>
                 var (index, bytes) := bufferedRequest.value; 61 <= index < |bytes| <= BUFFER_CAPACITY
      ensures Valid() && this.inner == inner && this.bufferedRequest == bufferedRequest
    {
      this.inner := inner;
      this.bufferedRequest := bufferedRequest;
    }

    /** A read into a buffer of the given capacity; put_slice panics when it does not fit.  The
        rest of the header buffer has at most 963 bytes, so no read buffer of the program (2048,
        8192 or 16384 bytes) is too small.  What is read is the next part of what remains, and
        the end of the stream is only reported when nothing remains. */
    method PollRead(capacity: nat) returns (r: ReadOutcome)
      requires Valid() && capacity > 0
      modifies this`bufferedRequest, inner`incoming, inner`received
      ensures Valid()
      ensures r.Panicked?
              <==> old(bufferedRequest.Some? && |bufferedRequest.value.1| - bufferedRequest.value.0 > capacity)
      ensures capacity >= 963 ==> r.Data?
      ensures old(bufferedRequest.Some?) && r.Data? ==>
                && bufferedRequest == None && inner.incoming == old(inner.incoming)
                && r.bytes == old(bufferedRequest.value.1[bufferedRequest.value.0..])
      ensures r.Data? ==>
                && old(Remaining()) == r.bytes + Remaining() && |r.bytes| <= capacity
                && (r.bytes == [] <==> old(Remaining()) == [])
    {
      hide Concat;
      if bufferedRequest.Some? {
        var (index, bytes) := bufferedRequest.value;
        if |bytes| - index > capacity {
          return Panicked;
        }
        bufferedRequest := None;
        assert [] + Concat(inner.incoming) == Concat(inner.incoming);
        return Data(bytes[index..]);
      }
      assert Remaining() == Concat(inner.incoming);
      EmptyIff(inner.incoming);
      var chunk := inner.ReadUpTo(capacity);
      assert Remaining() == Concat(inner.incoming);
      return Data(chunk);
    }
  }

  lemma EmptyIff(chunks: seq<seq<byte>>)
    requires forall i :: 0 <= i < |chunks| ==> chunks[i] != []
    ensures Concat(chunks) == [] <==> chunks == []
  {
  }

  // ---- the client's printer ------------------------------------------------------------------------

  function Printed(mode: byte, addr: MixAddr, password: seq<byte>): seq<byte>
    requires WellFormed(addr) && !addr.NoAddr?
  {
    password + [0x0d, 0x0a, mode] + Encoded(addr) + CRLF
  }

  method SendTrojanAuth(mode: byte, addr: MixAddr, outbound: Stream, password: seq<byte>)
    requires WellFormed(addr) && !addr.NoAddr?
    modifies outbound`written
    ensures outbound.written == old(outbound.written) + Printed(mode, addr, password)
  {
    var buf: seq<byte> := [];
    buf := buf + password;
    buf := buf + [0x0d, 0x0a, mode];
    buf := WriteBuf(addr, buf);
    buf := buf + [0x0d, 0x0a];
    assert [] + password == password;
    outbound.Write(buf);
  }

  /** Where the parts of a printed header are found again. */
  lemma PrintedParts(mode: byte, addr: MixAddr, password: seq<byte>, s: seq<byte>)
    requires Printable(addr) && |password| == HASH_LEN && Printed(mode, addr, password) <= s
    ensures var n := EncodedLen(addr);
            && |Printed(mode, addr, password)| == HASH_LEN + 3 + n + 2
            && s[..HASH_LEN] == password && s[HASH_LEN + 2] == mode
            && s[HASH_LEN + 3..] == Encoded(addr) + s[HASH_LEN + 3 + n..]
            && s[HASH_LEN + 3 + n..HASH_LEN + 3 + n + 2] == CRLF
            && n >= 4 && s[HASH_LEN + 3] != 0x0d && s[HASH_LEN..HASH_LEN + 2] == CRLF
  {
    hide WellFormed, ValidUtf8;
    var p, e := Printed(mode, addr, password), Encoded(addr);
    var n := |e|;
    assert p[..HASH_LEN] == password && p[HASH_LEN + 2] == mode;
    assert p[HASH_LEN + 3..HASH_LEN + 3 + n] == e && p[HASH_LEN + 3 + n..] == CRLF;
    assert s[..HASH_LEN] == p[..HASH_LEN] && s[HASH_LEN..HASH_LEN + 2] == p[HASH_LEN..HASH_LEN + 2] == CRLF;
    assert s[HASH_LEN + 3..HASH_LEN + 3 + n] == p[HASH_LEN + 3..HASH_LEN + 3 + n];
    assert s[HASH_LEN + 3 + n..HASH_LEN + 3 + n + 2] == p[HASH_LEN + 3 + n..];
    assert s[HASH_LEN + 3] == e[0];
  }

  /** A printed header followed by any payload is accepted, with the address it carries and the
      cursor at the payload, if and only if its command carries an address and the hash is the
      right one; otherwise it is invalid.  For the echo command the client prints an address
      that the server does not expect. */
  lemma PrintedIsAcceptedIff(mode: byte, addr: MixAddr, password: seq<byte>, hash: seq<byte>, payload: seq<byte>)
    requires Printable(addr) && |password| == HASH_LEN
    ensures var p := Printed(mode, addr, password);
            ParseHeader(hash, p + payload)
            == if hash == password && Addressed(mode) then Accepted(mode, Reread(addr), |p|) else Header.Invalid
  {
    hide Decode, WellFormed, Printed, Encoded, Reread;
    var p := Printed(mode, addr, password);
    var s := p + payload;
    PrintedParts(mode, addr, password, s);
    var rest := s[HASH_LEN + 3 + EncodedLen(addr)..];
    DecodeEncoded(addr, rest);
    if mode == ECHO_REQUEST_CMD {
      assert s[HASH_LEN + 3..HASH_LEN + 5][0] == s[HASH_LEN + 3];
    }
  }

  /** Every proper prefix of a printed header is incomplete: with a host name of 255 bytes the
      bound of 320 bytes is reached. */
  lemma PrintedPrefixIsIncomplete(mode: byte, addr: MixAddr, password: seq<byte>, k: nat)
    requires Printable(addr) && |password| == HASH_LEN && Addressed(mode)
    requires k < |Printed(mode, addr, password)|
    ensures ParseHeader(password, Printed(mode, addr, password)[..k]).Incomplete?
  {
    hide Decode, WellFormed, Printed, Encoded, Reread;
    var p := Printed(mode, addr, password);
    var s, n := p[..k], EncodedLen(addr);
    PrintedParts(mode, addr, password, p);
    if k >= HASH_LEN {
      assert s[..HASH_LEN] == p[..HASH_LEN];
    }
    if k >= HASH_LEN + 5 {
      var chunk := s[HASH_LEN + 3..];
      var e := Encoded(addr);
      if |chunk| < n {
        assert chunk == e[..|chunk|];
        PrefixIsIncomplete(addr, |chunk|);
      } else {
        assert chunk == e + chunk[n..];
        DecodeEncoded(addr, chunk[n..]);
      }
    }
  }
}
