/** The stream that carries datagrams as frames: a resumable writer and a resumable reader. */
module TrojanUdpStreams {
  import opened Bytes
  import opened MixAddrs
  import opened PollIo
  import opened UdpFrames
  import opened UdpRelayBuffers

  datatype Step = StepOk | StepIncomplete | StepInvalid | StepPanicked

  datatype Attempt = NotYet | Packet(addr: MixAddr) | Rejected | Panicked

  /** Received(NoAddr) is the end of the stream. */
  datatype RecvPoll = Received(addr: MixAddr) | RecvPending | RecvFailed | RecvPanicked

  lemma {:induction false} AllFramesSnoc(ds: seq<Datagram>, d: Datagram)
    requires forall i :: 0 <= i < |ds| ==> WellFormed(ds[i].addr) && !ds[i].addr.NoAddr?
    requires WellFormed(d.addr) && !d.addr.NoAddr?
    ensures AllFrames(ds + [d]) == AllFrames(ds) + FrameOf(d)
    decreases |ds|
  {
    hide FrameOf, WellFormed;
    if ds == [] {
      assert ds + [d] == [d] && [d][1..] == [];
    } else {
      AllFramesSnoc(ds[1..], d);
      assert (ds + [d])[1..] == ds[1..] + [d];
      Assoc(FrameOf(ds[0]), AllFrames(ds[1..]), FrameOf(d));
    }
  }

  class TrojanUdpStream {
    const reader: PollReader
    const writer: PollWriter
    // receiving half
    const recvBuffer: UdpRelayBuffer
    var expecting: Option<nat>
    var addrBuf: MixAddr
    var wantToExtract: bool
    // sending half
    const sendBuffer: UdpRelayBuffer
    var dataLen: nat

    /** The datagrams read so far, and what was received since. */
    ghost var yielded: seq<Datagram>
    ghost var raw: seq<byte>
    /** The datagrams whose frames have been started. */
    ghost var accepted: seq<Datagram>
    ghost const before: seq<byte>

    constructor (reader: PollReader, writer: PollWriter)
      requires reader.Valid() && writer.Valid() && reader.received == []
      ensures RecvValid() && SendValid() && yielded == [] && accepted == []
      ensures this.reader == reader && this.writer == writer && before == writer.written
      ensures fresh(recvBuffer) && fresh(sendBuffer) && recvBuffer != sendBuffer
    {
      this.reader, this.writer := reader, writer;
      expecting, addrBuf, wantToExtract, dataLen := None, NoAddr, false, 0;
      recvBuffer := new UdpRelayBuffer();
      sendBuffer := new UdpRelayBuffer();
      yielded, raw, accepted, before := [], [], [], writer.written;
      new;
      assert writer.written + [] == writer.written == before + [];
    }

    // ---- receiving ---------------------------------------------------------------------------

    function View(): Partial
      reads this, recvBuffer
      requires recvBuffer.Valid()
    {
      Partial(recvBuffer.Chunk(), addrBuf, expecting)
    }

    /** What has been received is the frames of the datagrams read and then the bytes of an
        unfinished one; when the reader does not want to extract there is no complete frame in
        them. */
    ghost predicate RecvValid()
      reads this, reader, recvBuffer
    {
      && reader.Valid() && recvBuffer.Valid()
      && Holds(raw, View()) && ParsesTo(reader.received, yielded, raw)
      && (!wantToExtract ==> ParseFrame(raw) == NeedMore && !CutInLength(raw))
    }

    method TryUpdateAddrBuf() returns (r: Step)
      requires recvBuffer.Valid()
      modifies this`addrBuf, recvBuffer`cursor
      ensures recvBuffer.Valid()
      ensures match r
              case StepOk => ExtractAddr(old(View())) == ExtractLength(View()) && addrBuf != NoAddr
              case StepIncomplete => ExtractAddr(old(View())) == Nothing(View())
              case StepInvalid => ExtractAddr(old(View())) == Bad && View() == old(View())
              case StepPanicked => false
    {
      hide Decode, ExtractLength;
      if addrBuf == NoAddr {
        var parsed := FromEncodedBytes(recvBuffer.inner[recvBuffer.cursor..]);
        match parsed {
          case Incomplete => return StepIncomplete;
          case Invalid => return StepInvalid;
          case Parsed(addr, len) =>
            ParsedIsPrinted(recvBuffer.Chunk());
            var _ := recvBuffer.Advance(len);
            addrBuf := addr;
        }
      }
      return StepOk;
    }

    method TryUpdateExpecting() returns (r: Step)
      requires recvBuffer.Valid()
      modifies this`expecting, recvBuffer
      ensures recvBuffer.Valid()
      ensures r.StepOk? ==> expecting.Some?
      ensures match r
              case StepOk => ExtractLength(old(View())) == ExtractPayload(View())
              case StepIncomplete => ExtractLength(old(View())) == Nothing(View())
              case StepInvalid => false
              case StepPanicked => ExtractLength(old(View())) == Crash
    {
      hide ExtractPayload;
      if expecting.None? {
        var chunk := recvBuffer.inner[recvBuffer.cursor..];
        if |chunk| < 2 {
          return StepIncomplete;
        }
        expecting := Some(FromBE(chunk[0], chunk[1]));
        var ok := recvBuffer.Advance(2 + 2);
        if !ok {
          return StepPanicked;
        }
        recvBuffer.ReserveByCursor(expecting.value);
      }
      return StepOk;
    }

    method CopyIntoOuter(outerBuf: UdpRelayBuffer)
      requires recvBuffer.Valid() && outerBuf.Valid() && outerBuf != recvBuffer
      requires expecting.Some? && expecting.value <= |recvBuffer.Chunk()|
      modifies this`expecting, recvBuffer`inner, recvBuffer`cursor, outerBuf`inner, outerBuf`capacity
      ensures recvBuffer.Valid() && outerBuf.Valid() && expecting == None
      ensures recvBuffer.Chunk() == old(recvBuffer.Chunk()[expecting.value..])
      ensures outerBuf.Chunk() == old(outerBuf.Chunk()) + old(recvBuffer.Chunk()[..expecting.value])
    {
      var n := expecting.value;
      outerBuf.ExtendFromSlice(recvBuffer.inner[recvBuffer.cursor..][..n]);
      var _ := recvBuffer.Advance(n);
      recvBuffer.Compact();
      expecting := None;
    }

    method TryExtractPacket(outerBuf: UdpRelayBuffer) returns (r: Attempt)
      requires recvBuffer.Valid() && outerBuf.Valid() && outerBuf != recvBuffer
      modifies this`expecting, this`addrBuf, recvBuffer, outerBuf`inner, outerBuf`capacity
      ensures recvBuffer.Valid() && outerBuf.Valid()
      ensures match ExtractAddr(old(View()))
              case Nothing(p) => r == NotYet && View() == p
              case Got(d, p) =>
                r == Packet(d.addr) && View() == p && outerBuf.Chunk() == old(outerBuf.Chunk()) + d.payload
              case Bad => r == Rejected && View() == old(View())
              case Crash => r == Panicked
      ensures !r.Packet? ==> outerBuf.Chunk() == old(outerBuf.Chunk())
    {
      hide Decode;
      var step := TryUpdateAddrBuf();
      if step.StepOk? {
        step := TryUpdateExpecting();
      }
      match step {
        case StepOk =>
          if expecting.value <= |recvBuffer.inner| - recvBuffer.cursor {
            CopyIntoOuter(outerBuf);
            r := Packet(addrBuf);
            addrBuf := NoAddr;
          } else {
            r := NotYet;
          }
        case StepIncomplete => return NotYet;
        case StepInvalid => return Rejected;
        case StepPanicked => return Panicked;
      }
    }

    /** One read into the free part of the receive buffer. */
    method FillRecvBuffer() returns (polled: PollRead)
      requires RecvValid() && !wantToExtract
      modifies this`wantToExtract, this`raw, recvBuffer`inner, recvBuffer`capacity, reader
      ensures RecvValid()
      ensures wantToExtract <==> polled.ReadReady? && polled.bytes != []
      ensures polled.ReadReady? && polled.bytes != [] ==> Size(reader.script) < old(Size(reader.script))
      ensures reader.stalls == old(reader.stalls) + (if polled.ReadPending? then 1 else 0)
      ensures reader.faults == old(reader.faults) + (if polled.ReadError? then 1 else 0)
      ensures reader.ends == old(reader.ends) + (if polled == ReadReady([]) then 1 else 0)
    {
      hide Holds, ParsesTo, ParseFrame, CutInLength, PollReader.Valid, Size, Decode, UdpRelayBuffer.Chunk;
      var room := recvBuffer.AsReadBuf();
      ghost var p, before := View(), reader.received;
      polled := reader.Poll(room);
      assert View() == p;
      if polled.ReadReady? && |polled.bytes| > 0 {
        ghost var p' := MoreReceived(before, yielded, raw, p, polled.bytes);
        recvBuffer.Fill(polled.bytes);
        raw := raw + polled.bytes;
        wantToExtract := true;
        assert View() == p';
      }
    }

    /** One poll for a datagram.  It yields exactly the next frame of the byte stream, under
        whatever fragmentation.  It is pending if and only if the reader was not ready, and then
        the received bytes hold no further complete frame; it reports the end if and only if the
        reader did; it fails on a reader that failed and on malformed bytes; and it panics on bytes
        that end two or three bytes after an address. */
    method PollProxyStreamRead(outerBuf: UdpRelayBuffer) returns (r: RecvPoll)
      requires RecvValid() && outerBuf.Valid() && outerBuf != recvBuffer
      modifies this`expecting, this`addrBuf, this`wantToExtract, this`yielded, this`raw
      modifies recvBuffer, reader, outerBuf`inner, outerBuf`capacity
      ensures outerBuf.Valid() && ParsesTo(reader.received, yielded, raw)
      ensures r.RecvPanicked? ==> CutInLength(raw)
      ensures r.RecvPending? || r == Received(NoAddr) ==> !CutInLength(raw)
      ensures r.RecvFailed? ==> (wantToExtract <==> ParseFrame(raw).Malformed?)
      ensures r.RecvPending? <==> reader.stalls > old(reader.stalls)
      ensures r == Received(NoAddr) <==> reader.ends > old(reader.ends)
      ensures reader.faults > old(reader.faults) ==> r.RecvFailed?
      ensures r.RecvFailed? && reader.faults <= old(reader.faults) ==> ParseFrame(raw).Malformed?
      ensures yielded == old(yielded) && ParseFrame(raw).Malformed? ==> r.RecvFailed?
      ensures yielded == old(yielded) && CutInLength(raw) ==> r.RecvPanicked?
      ensures !r.RecvPanicked? ==> RecvValid()
      ensures !r.Received? || r.addr.NoAddr? ==> yielded == old(yielded) && outerBuf.Chunk() == old(outerBuf.Chunk())
      ensures r.RecvPending? || r == Received(NoAddr) ==> yielded == Frames(reader.received)
      ensures r.Received? && !r.addr.NoAddr? ==>
                && yielded != [] && yielded[..|yielded| - 1] == old(yielded)
                && yielded[|yielded| - 1].addr == r.addr
                && outerBuf.Chunk() == old(outerBuf.Chunk()) + yielded[|yielded| - 1].payload
                && yielded <= Frames(reader.received)
    {
      hide Holds, ParsesTo, ParseFrame, ExtractAddr, Decode, CutInLength, Frames, Size, PollReader.Valid;
      while true
        invariant RecvValid() && outerBuf.Valid()
        invariant yielded == old(yielded) && outerBuf.Chunk() == old(outerBuf.Chunk())
        invariant reader.stalls == old(reader.stalls) && reader.faults == old(reader.faults)
        invariant reader.ends == old(reader.ends)
        decreases Size(reader.script)
      {
        if wantToExtract {
          ghost var p := View();
          ExtractIsParse(raw, p);
          var res := TryExtractPacket(outerBuf);
          match res {
            case NotYet => wantToExtract := false;
            case Packet(addr) =>
              FrameYields(reader.received, yielded, raw);
              yielded, raw := yielded + [ParseFrame(raw).datagram], raw[ParseFrame(raw).len..];
              return Received(addr);
            case Rejected => return RecvFailed;
            case Panicked => return RecvPanicked;
          }
        }
        var polled := FillRecvBuffer();
        match polled {
          case ReadReady(bytes) =>
            if |bytes| == 0 {
              NoFrameLeft(reader.received, yielded, raw);
              return Received(NoAddr);
            }
          case ReadPending =>
            NoFrameLeft(reader.received, yielded, raw);
            return RecvPending;
          case ReadError =>
            return RecvFailed;
        }
      }
    }

    // ---- sending -----------------------------------------------------------------------------

    /** What has been written, followed by what is still to be written, is the frames of the
        accepted datagrams, in order. */
    ghost predicate SendValid()
      reads this, writer, sendBuffer
    {
      && writer.Valid() && sendBuffer.Valid()
      && (forall i :: 0 <= i < |accepted| ==> WellFormed(accepted[i].addr) && !accepted[i].addr.NoAddr?)
      && (sendBuffer.cursor == |sendBuffer.inner| ==> sendBuffer.inner == [])
      && (sendBuffer.inner != [] ==> accepted != [] && dataLen == |accepted[|accepted| - 1].payload|)
      && writer.written + sendBuffer.Chunk() == before + AllFrames(accepted)
    }

    /** Puts a frame into the empty buffer. */
    method PutFrame(buf: seq<byte>, addr: MixAddr)
      requires sendBuffer.Valid() && sendBuffer.inner == [] && WellFormed(addr) && !addr.NoAddr?
      modifies sendBuffer
      ensures sendBuffer.Valid() && sendBuffer.HasRemaining()
      ensures sendBuffer.Chunk() == FrameOf(Datagram(addr, buf))
    {
      hide WellFormed, Encoded, EncodedLen, ToBE, UdpRelayBuffer.Chunk;
      sendBuffer.RemainsIff();
      sendBuffer.ReserveByCursor(EncodedLen(addr) + 4 + |buf|);
      var printed := WriteBuf(addr, []);
      assert [] + printed == printed && [] + Encoded(addr) == Encoded(addr);
      sendBuffer.ExtendFromSlice(printed);
      sendBuffer.ExtendFromSlice(ToBE(|buf| % 65536));
      sendBuffer.ExtendFromSlice([0x0d, 0x0a]);
      sendBuffer.ExtendFromSlice(buf);
      sendBuffer.RemainsIff();
    }

    method CopyIntoInner(buf: seq<byte>, addr: MixAddr)
      requires SendValid() && sendBuffer.inner == [] && WellFormed(addr) && !addr.NoAddr?
      modifies this`dataLen, this`accepted, sendBuffer
      ensures SendValid() && sendBuffer.inner != [] && accepted == old(accepted) + [Datagram(addr, buf)]
    {
      hide AllFrames, WellFormed, FrameOf, UdpRelayBuffer.Chunk;
      ghost var d, chunk := Datagram(addr, buf), sendBuffer.Chunk();
      sendBuffer.RemainsIff();
      dataLen := |buf|;
      PutFrame(buf, addr);
      AllFramesSnoc(accepted, d);
      Assoc(before, AllFrames(accepted), FrameOf(d));
      assert writer.written + chunk == writer.written;
      accepted := accepted + [d];
    }

    /** One write of what is left of a frame. */
    method WriteSome() returns (polled: PollWrite)
      requires SendValid() && sendBuffer.inner != []
      modifies sendBuffer, writer`writes, writer`written, writer`stalls, writer`faults, writer`zeros
      ensures SendValid() && old(writer.written) <= writer.written
      ensures sendBuffer.inner == [] ==> polled.WriteReady? && polled.n > 0
      ensures !polled.WritePending? ==> |writer.writes| < |old(writer.writes)|
      ensures writer.stalls == old(writer.stalls) + (if polled.WritePending? then 1 else 0)
      ensures writer.faults == old(writer.faults) + (if polled.WriteError? then 1 else 0)
      ensures writer.zeros == old(writer.zeros) + (if polled == WriteReady(0) then 1 else 0)
    {
      hide AllFrames, WellFormed;
      ghost var was, left := writer.written, sendBuffer.Chunk();
      polled := writer.Write(sendBuffer.inner[sendBuffer.cursor..]);
      if polled.WriteReady? {
        var x := polled.n;
        assert left == left[..x] + left[x..];
        Assoc(was, left[..x], left[x..]);
        if x == 0 {
          assert was + left[..x] == was;
        } else if x < |sendBuffer.inner| - sendBuffer.cursor {
          var _ := sendBuffer.Advance(x);
        } else {
          sendBuffer.Reset();
        }
      }
    }

    /** One poll for sending a datagram.  A datagram is accepted once, when nothing of an earlier
        one is left; it is reported as sent when its frame is completely written, and otherwise
        the answer is the writer's. */
    method PollProxyStreamWrite(buf: seq<byte>, addr: MixAddr) returns (r: PollWrite)
      requires SendValid() && WellFormed(addr) && !addr.NoAddr?
      modifies this`dataLen, this`accepted, sendBuffer
      modifies writer`writes, writer`written, writer`stalls, writer`faults, writer`zeros
      ensures SendValid() && accepted != []
      ensures accepted == if old(sendBuffer.inner) == [] then old(accepted) + [Datagram(addr, buf)] else old(accepted)
      ensures old(writer.written) <= writer.written
      ensures r.WriteReady? && sendBuffer.inner == [] ==> r.n == |accepted[|accepted| - 1].payload|
      ensures sendBuffer.inner != [] ==> r == WriteReady(0) || !r.WriteReady?
      ensures !r.WriteReady? ==> sendBuffer.inner != []
      ensures r.WritePending? <==> writer.stalls > old(writer.stalls)
      ensures r.WriteError? <==> writer.faults > old(writer.faults)
      ensures r.WriteReady? && sendBuffer.inner != [] <==> writer.zeros > old(writer.zeros)
    {
      hide AllFrames, WellFormed;
      if sendBuffer.IsEmpty() {
        CopyIntoInner(buf, addr);
      }
      while true
        invariant SendValid() && sendBuffer.inner != []
        invariant accepted
                  == if old(sendBuffer.inner) == [] then old(accepted) + [Datagram(addr, buf)] else old(accepted)
        invariant dataLen == |accepted[|accepted| - 1].payload|
        invariant writer.stalls == old(writer.stalls) && writer.faults == old(writer.faults)
        invariant writer.zeros == old(writer.zeros)
        invariant old(writer.written) <= writer.written
        decreases |writer.writes|
      {
        var polled := WriteSome();
        match polled {
          case WriteReady(x) =>
            if x == 0 {
              return WriteReady(0);
            }
            if sendBuffer.IsEmpty() {
              return WriteReady(dataLen);
            }
          case WritePending => return WritePending;
          case WriteError => return WriteError;
        }
      }
    }
  }

  lemma MoreReceived(received: seq<byte>, yielded: seq<Datagram>, raw: seq<byte>, p: Partial, bytes: seq<byte>)
    returns (p': Partial)
    requires Holds(raw, p) && ParsesTo(received, yielded, raw)
    ensures p' == Partial(p.chunk + bytes, p.addr, p.expecting)
    ensures Holds(raw + bytes, p') && ParsesTo(received + bytes, yielded, raw + bytes)
  {
    hide Holds, ParsesTo;
    p' := p.(chunk := p.chunk + bytes);
    HoldsAppend(raw, p, bytes);
    ParsesToAppend(received, yielded, raw, bytes);
  }

  /** Reading one frame more. */
  lemma FrameYields(received: seq<byte>, yielded: seq<Datagram>, raw: seq<byte>)
    requires ParsesTo(received, yielded, raw) && ParseFrame(raw).Frame?
    ensures var r := ParseFrame(raw);
            && r.len <= |raw| && r.datagram.addr != NoAddr
            && ParsesTo(received, yielded + [r.datagram], raw[r.len..])
            && yielded + [r.datagram] <= Frames(received)
  {
    hide Decode, ParsesTo, Frames;
    var r := ParseFrame(raw);
    FrameWithin(raw);
    ParsedIsPrinted(raw);
    ParsesToSnoc(received, yielded, raw, r.datagram, r.len);
    ParsesToIsFrames(received, yielded + [r.datagram], raw[r.len..]);
  }

  lemma NoFrameLeft(received: seq<byte>, yielded: seq<Datagram>, raw: seq<byte>)
    requires ParsesTo(received, yielded, raw) && ParseFrame(raw) == NeedMore
    ensures Frames(received) == yielded
  {
    hide ParsesTo, ParseFrame;
    ParsesToIsFrames(received, yielded, raw);
    assert yielded + [] == yielded;
  }

  /** End to end: datagrams whose frames travel through any byte stream, written in any pieces
      and received in any pieces, are read in order and unchanged, apart from what the address
      form does to V6 addresses; when everything has arrived, all of them are. */
  lemma ReadIsWhatWasSent(sent: seq<Datagram>, received: seq<byte>, yielded: seq<Datagram>, raw: seq<byte>)
    requires AllSendable(sent) && ParsesTo(received, yielded, raw)
    ensures received <= AllFrames(sent) ==> yielded <= AllDelivered(sent) && !ParseFrame(raw).Malformed?
    ensures received == AllFrames(sent) && ParseFrame(raw) == NeedMore ==> yielded == AllDelivered(sent)
  {
    hide ParsesTo, ParseFrame, AllFrames, AllDelivered, Frames;
    FramesRoundTrip(sent, received);
    ParsesToIsFrames(received, yielded, raw);
    if received == AllFrames(sent) && ParseFrame(raw) == NeedMore {
      NoFrameLeft(received, yielded, raw);
    }
    PrefixIsWellFormed(sent, received, yielded, raw);
  }

  lemma {:induction false} PrefixIsWellFormed(sent: seq<Datagram>, received: seq<byte>, yielded: seq<Datagram>,
                                              raw: seq<byte>)
    requires AllSendable(sent) && ParsesTo(received, yielded, raw)
    ensures received <= AllFrames(sent) ==> !ParseFrame(raw).Malformed?
    decreases |sent|
  {
    hide ParseFrame, FrameOf, Sendable, WellFormed;
    if !(received <= AllFrames(sent)) {
    } else if sent == [] {
      EmptyNeedsMore(received);
    } else {
      var f := FrameOf(sent[0]);
      var all := AllFrames(sent);
      FrameRoundTripOf(sent[0], AllFrames(sent[1..]));
      if |received| < |f| {
        assert received == f[..|received|];
        FramePrefixNeedsMore(sent[0], |received|);
      } else {
        var rest := received[|f|..];
        assert received == f + rest;
        FrameRoundTripOf(sent[0], rest);
        assert rest <= all[|f|..] == AllFrames(sent[1..]);
        if yielded != [] {
          PrefixIsWellFormed(sent[1..], rest, yielded[1..], raw);
        }
      }
    }
  }
}
