/** Datagrams over a byte stream.  A frame is an address, the payload length, a line end and the
    payload. */
module UdpFrames {
  import opened Bytes
  import opened MixAddrs

  datatype Datagram = Datagram(addr: MixAddr, payload: seq<byte>)

  /** The length field keeps the low 16 bits of the payload length. */
  function FrameOf(d: Datagram): (s: seq<byte>)
    requires WellFormed(d.addr) && !d.addr.NoAddr?
    ensures |s| == EncodedLen(d.addr) + 4 + |d.payload|
  {
    Encoded(d.addr) + ToBE(|d.payload| % 65536) + [0x0d, 0x0a] + d.payload
  }

  datatype FrameParse = NeedMore | Malformed | Frame(datagram: Datagram, len: nat)

  /** The frame at the beginning of s when all of s is there at once; the line end is skipped
      unchecked. */
  function ParseFrame(s: seq<byte>): (r: FrameParse)
    ensures r.Frame? ==> 0 < r.len
  {
    match Decode(s)
    case Incomplete => NeedMore
    case Invalid => Malformed
    case Parsed(addr, n) => ParseBody(s, addr, n)
  }

  function ParseBody(s: seq<byte>, addr: MixAddr, n: nat): (r: FrameParse)
    ensures !r.Malformed? && (r.Frame? ==> 0 < r.len)
  {
    if |s| < n + 4 then NeedMore
    else
      var len := FromBE(s[n], s[n + 1]);
      if |s| < n + 4 + len then NeedMore else Frame(Datagram(addr, s[n + 4..n + 4 + len]), n + 4 + len)
  }

  /** f is the frame of d byte by byte, with n bytes of address; the line end may be any two
      bytes. */
  ghost predicate IsFrame(f: seq<byte>, d: Datagram, n: nat) {
    && |f| == n + 4 + |d.payload| && |d.payload| < 65536
    && Spells(f[..n], d.addr) && f[n..n + 2] == ToBE(|d.payload|) && f[n + 4..] == d.payload
  }

  /** A datagram is found if and only if its frame is there, byte by byte, and the bytes are
      malformed if and only if they can be no address. */
  lemma FrameIff(s: seq<byte>, d: Datagram, len: nat)
    ensures ParseFrame(s) == Frame(d, len) <==> len <= |s| && exists n: nat :: IsFrame(s[..len], d, n)
    ensures ParseFrame(s).Malformed? <==> |s| >= Announced(s) && !Viable(s)
  {
    hide Decode, Spells, Announced, Viable;
    VerdictIff(s);
    if ParseFrame(s) == Frame(d, len) {
      var n := Decode(s).len;
      var f := s[..len];
      ParsedIff(s, d.addr, n);
      BigEndian(s[n], s[n + 1]);
      assert f[..n] == s[..n] && f[n..n + 2] == [s[n], s[n + 1]] && f[n + 4..] == s[n + 4..len];
      assert IsFrame(f, d, n);
    }
    if len <= |s| && exists n: nat :: IsFrame(s[..len], d, n) {
      var f := s[..len];
      var n: nat :| IsFrame(f, d, n);
      ParsedIff(s, d.addr, n);
      assert s[..n] == f[..n] && s[n] == f[n..n + 2][0] && s[n + 1] == f[n..n + 2][1] && s[n + 4..len] == f[n + 4..];
    }
  }

  lemma FrameWithin(s: seq<byte>)
    requires ParseFrame(s).Frame?
    ensures ParseFrame(s).len <= |s|
  {
    hide Decode;
  }

  lemma FrameIsMonotone(s: seq<byte>, t: seq<byte>)
    requires s <= t && !ParseFrame(s).NeedMore?
    ensures ParseFrame(t) == ParseFrame(s)
  {
    hide Decode;
    DecodeIsMonotone(s, t);
    var d := Decode(s);
    if d.Parsed? {
      var len := FromBE(s[d.len], s[d.len + 1]);
      assert s[d.len + 4..d.len + 4 + len] == t[d.len + 4..d.len + 4 + len];
    }
  }

  predicate Sendable(d: Datagram) {
    Printable(d.addr) && |d.payload| <= 65535
  }

  function Delivered(d: Datagram): Datagram
    requires WellFormed(d.addr)
  {
    Datagram(Reread(d.addr), d.payload)
  }

  lemma FrameParts(d: Datagram, rest: seq<byte>)
    requires Printable(d.addr)
    ensures var s, n := FrameOf(d) + rest, EncodedLen(d.addr);
            && s == Encoded(d.addr) + s[n..]
            && |s| >= n + 4 + |d.payload| && FromBE(s[n], s[n + 1]) == |d.payload| % 65536
            && s[n + 2..n + 4] == [0x0d, 0x0a] && s[n + 4..n + 4 + |d.payload|] == d.payload
  {
    hide Encoded, WellFormed, EncodedLen;
    var f, e, n := FrameOf(d), Encoded(d.addr), EncodedLen(d.addr);
    var s := f + rest;
    var b := ToBE(|d.payload| % 65536);
    assert f[..n] == e && f[n] == b[0] && f[n + 1] == b[1] && f[n + 4..] == d.payload;
    assert f[n + 2..n + 4] == [0x0d, 0x0a];
    assert s[..n] == f[..n] && s[n] == f[n] && s[n + 1] == f[n + 1];
    assert s[n + 2..n + 4] == f[n + 2..n + 4] && s[n + 4..n + 4 + |d.payload|] == f[n + 4..];
  }

  /** A frame followed by anything is parsed as itself if and only if its payload length fits
      the length field. */
  lemma FrameRoundTripIff(d: Datagram, rest: seq<byte>)
    requires Printable(d.addr)
    ensures ParseFrame(FrameOf(d) + rest) == Frame(Delivered(d), |FrameOf(d)|) <==> |d.payload| <= 65535
  {
    hide Encoded, WellFormed, EncodedLen, Decode, FrameOf;
    var s, n := FrameOf(d) + rest, EncodedLen(d.addr);
    FrameParts(d, rest);
    DecodeEncoded(d.addr, s[n..]);
  }

  lemma FramePrefixNeedsMore(d: Datagram, k: nat)
    requires Sendable(d) && k < |FrameOf(d)|
    ensures ParseFrame(FrameOf(d)[..k]) == NeedMore
  {
    hide Encoded, WellFormed, EncodedLen, Decode, FrameOf;
    var f, n := FrameOf(d), EncodedLen(d.addr);
    var s := f[..k];
    FrameParts(d, []);
    assert f + [] == f;
    if k < n {
      assert s == Encoded(d.addr)[..k];
      PrefixIsIncomplete(d.addr, k);
    } else {
      assert s == Encoded(d.addr) + s[n..];
      DecodeEncoded(d.addr, s[n..]);
    }
  }

  // ---- sequences of frames -----------------------------------------------------------------------

  /** All complete frames at the beginning of s. */
  function Frames(s: seq<byte>): (ds: seq<Datagram>)
    decreases |s|
  {
    var r := ParseFrame(s);
    if r.Frame? && r.len <= |s| then [r.datagram] + Frames(s[r.len..]) else []
  }

  predicate AllSendable(ds: seq<Datagram>)
    ensures AllSendable(ds) ==> forall i :: 0 <= i < |ds| ==> WellFormed(ds[i].addr) && !ds[i].addr.NoAddr?
  {
    forall i :: 0 <= i < |ds| ==> Sendable(ds[i])
  }

  function AllFrames(ds: seq<Datagram>): seq<byte>
    requires forall i :: 0 <= i < |ds| ==> WellFormed(ds[i].addr) && !ds[i].addr.NoAddr?
  {
    if ds == [] then [] else FrameOf(ds[0]) + AllFrames(ds[1..])
  }

  function AllDelivered(ds: seq<Datagram>): seq<Datagram>
    requires forall i :: 0 <= i < |ds| ==> WellFormed(ds[i].addr)
  {
    seq(|ds|, i requires 0 <= i < |ds| => Delivered(ds[i]))
  }

  lemma {:induction false} FramesAreMonotone(s: seq<byte>, t: seq<byte>)
    requires s <= t
    ensures Frames(s) <= Frames(t)
    decreases |s|
  {
    var r := ParseFrame(s);
    if r.Frame? && r.len <= |s| {
      FrameIsMonotone(s, t);
      FramesAreMonotone(s[r.len..], t[r.len..]);
    }
  }

  /** The frames of any datagrams are parsed as these datagrams, and any prefix of the stream as
      a prefix of them. */
  lemma {:induction false} FramesRoundTrip(ds: seq<Datagram>, s: seq<byte>)
    requires AllSendable(ds)
    ensures Frames(AllFrames(ds)) == AllDelivered(ds)
    ensures s <= AllFrames(ds) ==> Frames(s) <= AllDelivered(ds)
    decreases |ds|
  {
    hide ParseFrame, FrameOf, Sendable, WellFormed, Delivered;
    if ds == [] {
      EmptyNeedsMore([]);
    } else {
      var f, rest := FrameOf(ds[0]), AllFrames(ds[1..]);
      FrameRoundTripOf(ds[0], rest);
      assert (f + rest)[|f|..] == rest;
      FramesRoundTrip(ds[1..], rest);
      assert AllDelivered(ds) == [Delivered(ds[0])] + AllDelivered(ds[1..]);
    }
    if s <= AllFrames(ds) {
      FramesAreMonotone(s, AllFrames(ds));
    }
  }

  lemma EmptyNeedsMore(s: seq<byte>)
    requires s == []
    ensures ParseFrame(s) == NeedMore
  {
  }

  lemma FrameRoundTripOf(d: Datagram, rest: seq<byte>)
    requires Sendable(d)
    ensures ParseFrame(FrameOf(d) + rest) == Frame(Delivered(d), |FrameOf(d)|)
  {
    FrameRoundTripIff(d, rest);
  }

  // ---- resumable parsing -------------------------------------------------------------------------

  /** What the reader keeps of the frame it is parsing: the unconsumed bytes, the address and the
      payload length once they are known. */
  datatype Partial = Partial(chunk: seq<byte>, addr: MixAddr, expecting: Option<nat>)

  datatype Extract = Nothing(rest: Partial) | Got(datagram: Datagram, rest: Partial) | Bad | Crash

  function ExtractAddr(p: Partial): Extract {
    if p.addr != NoAddr then ExtractLength(p)
    else
      match Decode(p.chunk)
      case Incomplete => Nothing(p)
      case Invalid => Bad
      case Parsed(addr, n) =>
        if n <= |p.chunk| then ExtractLength(p.(chunk := p.chunk[n..], addr := addr)) else Crash
  }

  /** The length field needs two bytes, but four are consumed. */
  function ExtractLength(p: Partial): Extract {
    if p.expecting.Some? then ExtractPayload(p)
    else if |p.chunk| < 2 then Nothing(p)
    else if |p.chunk| < 4 then Crash
    else ExtractPayload(p.(chunk := p.chunk[4..], expecting := Some(FromBE(p.chunk[0], p.chunk[1]))))
  }

  function ExtractPayload(p: Partial): Extract
    requires p.expecting.Some?
  {
    var n := p.expecting.value;
    if n <= |p.chunk| then Got(Datagram(p.addr, p.chunk[..n]), Partial(p.chunk[n..], NoAddr, None))
    else Nothing(p)
  }

  /** p is what remains of raw, the bytes received since the beginning of the current frame. */
  ghost predicate Holds(raw: seq<byte>, p: Partial) {
    if p.addr == NoAddr then p.expecting.None? && p.chunk == raw
    else
      var d := Decode(raw);
      && d.Parsed? && d.addr == p.addr && d.len <= |raw|
      && match p.expecting
         case None => p.chunk == raw[d.len..]
         case Some(len) =>
           d.len + 4 <= |raw| && len == FromBE(raw[d.len], raw[d.len + 1]) && p.chunk == raw[d.len + 4..]
  }

  /** The received bytes end two or three bytes after an address. */
  predicate CutInLength(raw: seq<byte>) {
    Decode(raw).Parsed? && Decode(raw).len + 2 <= |raw| < Decode(raw).len + 4
  }

  /** A read that ends inside a frame makes the reader panic if and only if it ends right
      after the length field or in the middle of the line end: two cuts of every frame do. */
  lemma PanickingCuts(d: Datagram, k: nat)
    requires Printable(d.addr)
    ensures k <= |FrameOf(d)| ==>
              (CutInLength(FrameOf(d)[..k]) <==> k == EncodedLen(d.addr) + 2 || k == EncodedLen(d.addr) + 3)
  {
    hide Encoded, WellFormed, EncodedLen, Decode, FrameOf;
    var f, n := FrameOf(d), EncodedLen(d.addr);
    if k > |f| {
      return;
    }
    var s := f[..k];
    FrameParts(d, []);
    assert f + [] == f;
    if k < n {
      assert s == Encoded(d.addr)[..k];
      PrefixIsIncomplete(d.addr, k);
    } else {
      assert s == Encoded(d.addr) + s[n..];
      DecodeEncoded(d.addr, s[n..]);
    }
  }

  lemma HoldsAppend(raw: seq<byte>, p: Partial, more: seq<byte>)
    requires Holds(raw, p)
    ensures Holds(raw + more, p.(chunk := p.chunk + more))
  {
    hide Decode;
    if p.addr != NoAddr {
      DecodeIsMonotone(raw, raw + more);
    }
  }

  /** One extraction attempt does what parsing the whole of raw at once would do, and crashes if
      and only if raw ends two or three bytes after its address. */
  lemma ExtractIsParse(raw: seq<byte>, p: Partial)
    requires Holds(raw, p)
    ensures var r := ExtractAddr(p);
            && (r.Crash? <==> CutInLength(raw))
            && match ParseFrame(raw)
               case NeedMore => r.Crash? || (r.Nothing? && Holds(raw, r.rest))
               case Malformed => r.Bad?
               case Frame(d, len) => len <= |raw| && r.Got? && r.datagram == d && Holds(raw[len..], r.rest)
  {
    hide Decode, ParseBody, ExtractLength, ExtractPayload;
    var d := Decode(raw);
    if d.Parsed? {
      ParsedIsPrinted(raw);
      var p' := if p.addr == NoAddr then p.(chunk := raw[d.len..], addr := d.addr) else p;
      if p'.expecting.None? {
        LengthIsParse(raw, p', d.len);
      } else {
        PayloadIsParse(raw, p', d.len);
        assert ExtractLength(p') == ExtractPayload(p') by { LengthKnown(p'); }
      }
    }
  }

  lemma LengthKnown(p: Partial)
    requires p.expecting.Some?
    ensures ExtractLength(p) == ExtractPayload(p)
  {
  }

  lemma PayloadIsParse(raw: seq<byte>, p: Partial, n: nat)
    requires n + 4 <= |raw| && p.chunk == raw[n + 4..] && p.expecting == Some(FromBE(raw[n], raw[n + 1]))
    ensures var r := ExtractPayload(p);
            match ParseBody(raw, p.addr, n)
            case NeedMore => r == Nothing(p)
            case Frame(d, len) => len <= |raw| && r == Got(d, Partial(raw[len..], NoAddr, None))
  {
    var len: nat := p.expecting.value;
    if len <= |p.chunk| {
      assert p.chunk[..len] == raw[n + 4..n + 4 + len] && p.chunk[len..] == raw[n + 4 + len..];
    }
  }

  lemma LengthIsParse(raw: seq<byte>, p: Partial, n: nat)
    requires n <= |raw| && p.chunk == raw[n..] && p.expecting == None
    ensures var r := ExtractLength(p);
            && (r.Crash? <==> n + 2 <= |raw| < n + 4)
            && match ParseBody(raw, p.addr, n)
               case NeedMore =>
                 r.Crash? || r == Nothing(p)
                 || (n + 4 <= |raw| && r == Nothing(Partial(raw[n + 4..], p.addr, Some(FromBE(raw[n], raw[n + 1])))))
               case Frame(d, len) => len <= |raw| && r == Got(d, Partial(raw[len..], NoAddr, None))
  {
    hide ParseBody, ExtractPayload;
    if |raw| < n + 4 {
      ShortBody(raw, p.addr, n);
    } else {
      var p' := Partial(raw[n + 4..], p.addr, Some(FromBE(raw[n], raw[n + 1])));
      assert p.(chunk := p.chunk[4..], expecting := Some(FromBE(p.chunk[0], p.chunk[1]))) == p';
      PayloadIsParse(raw, p', n);
      NeverCrashes(p');
    }
  }

  lemma ShortBody(raw: seq<byte>, addr: MixAddr, n: nat)
    requires |raw| < n + 4
    ensures ParseBody(raw, addr, n) == NeedMore
  {
  }

  lemma NeverCrashes(p: Partial)
    requires p.expecting.Some?
    ensures !ExtractPayload(p).Crash? && !ExtractPayload(p).Bad?
  {
  }

  /** s consists of the frames of ds followed by the bytes raw. */
  ghost predicate ParsesTo(s: seq<byte>, ds: seq<Datagram>, raw: seq<byte>)
    decreases |ds|
  {
    if ds == [] then s == raw
    else
      var r := ParseFrame(s);
      r.Frame? && r.datagram == ds[0] && r.len <= |s| && ParsesTo(s[r.len..], ds[1..], raw)
  }

  lemma {:induction false} ParsesToAppend(s: seq<byte>, ds: seq<Datagram>, raw: seq<byte>, more: seq<byte>)
    requires ParsesTo(s, ds, raw)
    ensures ParsesTo(s + more, ds, raw + more)
    decreases |ds|
  {
    hide ParseFrame;
    if ds != [] {
      var r := ParseFrame(s);
      FrameIsMonotone(s, s + more);
      assert (s + more)[r.len..] == s[r.len..] + more;
      ParsesToAppend(s[r.len..], ds[1..], raw, more);
    }
  }

  lemma {:induction false} ParsesToSnoc(s: seq<byte>, ds: seq<Datagram>, raw: seq<byte>, d: Datagram, len: nat)
    requires ParsesTo(s, ds, raw) && ParseFrame(raw) == Frame(d, len) && len <= |raw|
    ensures ParsesTo(s, ds + [d], raw[len..])
    decreases |ds|
  {
    hide ParseFrame;
    if ds == [] {
      assert (ds + [d])[1..] == [];
    } else {
      var r := ParseFrame(s);
      ParsesToSnoc(s[r.len..], ds[1..], raw, d, len);
      assert (ds + [d])[1..] == ds[1..] + [d];
    }
  }

  lemma {:induction false} ParsesToIsFrames(s: seq<byte>, ds: seq<Datagram>, raw: seq<byte>)
    requires ParsesTo(s, ds, raw)
    ensures Frames(s) == ds + Frames(raw)
    decreases |ds|
  {
    hide ParseFrame;
    if ds == [] {
    } else {
      var r := ParseFrame(s);
      ParsesToIsFrames(s[r.len..], ds[1..], raw);
      assert ds + Frames(raw) == [ds[0]] + (ds[1..] + Frames(raw));
    }
  }
}
