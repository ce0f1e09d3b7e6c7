/** The poll-driven copy of a byte stream, and the copy of two streams in opposite directions. */
module CopyEngine {
  import opened Bytes
  import opened PollIo

  const RELAY_BUFFER_SIZE := 16384

  datatype CopyPoll = CopyReady(count: nat) | CopyPending | CopyFailed

  /** Everything up to the end of the input has been written and flushed. */
  ghost predicate Transferred(r: PollReader, w: PollWriter, before: seq<byte>, skipped: nat, count: nat)
    reads r, w
  {
    && r.ends > 0 && skipped <= |r.received| && w.written == before + r.received[skipped..]
    && count == |r.received| - skipped && w.flushed == |w.written|
  }

  /** What the answer to a poll says about the answers it got: it has failed if and only if
      somebody failed, and is otherwise pending if and only if somebody was not ready. */
  predicate Outcome(r: CopyPoll, stalls: nat, stalls': nat, faults: nat, faults': nat) {
    && stalls' >= stalls && faults' >= faults
    && (r.CopyFailed? <==> faults' > faults)
    && (r.CopyPending? <==> faults' == faults && stalls' > stalls)
  }

  class CopyBuffer {
    var readDone: bool
    var needFlush: bool
    var pos: nat
    var cap: nat
    var amt: nat
    const buf: array<byte>
    /** What had been written, and how much had been read, before this copy. */
    ghost const before: seq<byte>
    ghost const skipped: nat

    constructor (r: PollReader, w: PollWriter)
      requires r.Valid() && w.Valid()
      ensures Valid(r, w) && fresh(buf) && before == w.written && skipped == |r.received|
      ensures amt == 0 && !readDone
    {
      readDone, needFlush, pos, cap, amt := false, false, 0, 0, 0;
      buf := new byte[RELAY_BUFFER_SIZE](_ => 0);
      before, skipped := w.written, |r.received|;
      new;
      assert w.written + [] == w.written == before + r.received[skipped..];
    }

    /** What was written, followed by the buffered bytes, is what was read; amt counts what was
        written; and the buffer knows whether anything is unflushed, except what was there before. */
    ghost predicate Valid(r: PollReader, w: PollWriter)
      reads this, buf, r, w
    {
      && r.Valid() && w.Valid() && buf.Length == RELAY_BUFFER_SIZE && pos <= cap <= buf.Length
      && skipped <= |r.received|
      && w.written + buf[pos..cap] == before + r.received[skipped..]
      && amt + |before| == |w.written|
      && (if needFlush then amt > 0 && (w.flushed < |w.written| || readDone) else amt == 0 || w.flushed == |w.written|)
      && (readDone ==> r.ends > 0)
    }

    /** One read into the empty buffer. */
    method FillBuf(reader: PollReader, writer: PollWriter) returns (r: PollRead)
      requires Valid(reader, writer) && pos == cap && !readDone
      modifies this`pos, this`cap, this`readDone, buf, reader
      ensures Valid(reader, writer)
      ensures !r.ReadPending? ==> Size(reader.script) < old(Size(reader.script))
      ensures r.ReadReady? ==> (readDone || pos < cap)
      ensures !r.ReadReady? ==> pos == cap && !readDone
      ensures Stalls(reader, writer) == old(Stalls(reader, writer)) + (if r.ReadPending? then 1 else 0)
      ensures Faults(reader, writer) == old(Faults(reader, writer)) + (if r.ReadError? then 1 else 0)
    {
      hide PollReader.Valid, Size;
      ghost var got := reader.received;
      assert buf[pos..cap] == [];
      assert writer.written + [] == writer.written;
      r := reader.Poll(RELAY_BUFFER_SIZE);
      match r {
        case ReadReady(bytes) =>
          var n := |bytes|;
          forall k | 0 <= k < n {
            buf[k] := bytes[k];
          }
          if n == 0 {
            readDone := true;
          } else {
            pos := 0;
            cap := n;
            assert buf[pos..cap] == bytes;
            assert reader.received[skipped..] == got[skipped..] + bytes;
            Assoc(before, got[skipped..], bytes);
          }
        case _ =>
      }
    }

    /** One write of the buffered bytes. */
    method WriteBuf(reader: PollReader, writer: PollWriter) returns (r: PollWrite)
      requires Valid(reader, writer) && pos < cap
      modifies this`pos, this`amt, this`needFlush
      modifies writer`writes, writer`written, writer`stalls, writer`faults, writer`zeros
      ensures Valid(reader, writer)
      ensures r.WriteReady? ==> cap - pos == old(cap - pos) - r.n
      ensures amt >= old(amt)
      ensures !r.WriteReady? ==> pos == old(pos)
      ensures writer.stalls == old(writer.stalls) + (if r.WritePending? then 1 else 0)
      ensures Faults(reader, writer) == old(Faults(reader, writer))
                                        + (if r.WriteError? || r == WriteReady(0) then 1 else 0)
    {
      hide PollReader.Valid;
      ghost var was, left := writer.written, buf[pos..cap];
      r := writer.Write(buf[pos..cap]);
      if r.WriteReady? {
        var i := r.n;
        assert left == left[..i] + left[i..];
        Assoc(was, left[..i], left[i..]);
        if i == 0 {
          assert was + left[..i] == was;
        } else {
          pos := pos + i;
          amt := amt + i;
          needFlush := true;
        }
        assert buf[pos..cap] == left[i..];
      }
    }

    /** What is done when the reader has no progress: flushing, to avoid a deadlock when it depends
        on the writer. */
    method FlushWritten(reader: PollReader, writer: PollWriter) returns (r: CopyPoll)
      requires Valid(reader, writer) && pos == cap
      modifies this`needFlush, writer`flushes, writer`flushed, writer`stalls, writer`faults
      ensures Valid(reader, writer) && !r.CopyReady?
      ensures r.CopyFailed? <==> writer.faults > old(writer.faults)
      ensures writer.stalls >= old(writer.stalls) && writer.faults >= old(writer.faults)
      ensures r.CopyPending? && writer.stalls == old(writer.stalls) ==>
                (writer.flushed < |writer.written| <==> amt == 0 && old(writer.flushed) < |writer.written|)
    {
      if needFlush {
        var flushed := writer.Flush();
        match flushed {
          case UnitReady => needFlush := false;
          case UnitPending => return CopyPending;
          case UnitError => return CopyFailed;
        }
      }
      return CopyPending;
    }

    /** Writes until the buffer is empty, or gives the answer to the poll. */
    method WriteAll(reader: PollReader, writer: PollWriter) returns (ended: Option<CopyPoll>)
      requires Valid(reader, writer)
      modifies this`pos, this`amt, this`needFlush
      modifies writer`writes, writer`written, writer`stalls, writer`faults, writer`zeros
      ensures Valid(reader, writer) && amt >= old(amt)
      ensures ended.Some? ==>
                && !ended.value.CopyReady?
                && Outcome(ended.value, old(Stalls(reader, writer)), Stalls(reader, writer),
                           old(Faults(reader, writer)), Faults(reader, writer))
                && (ended.value.CopyPending? ==> writer.stalls > old(writer.stalls))
      ensures ended.None? ==>
                && pos == cap && writer.stalls == old(writer.stalls)
                && Faults(reader, writer) == old(Faults(reader, writer))
    {
      hide PollReader.Valid;
      while pos < cap
        invariant Valid(reader, writer) && amt >= old(amt)
        invariant writer.stalls == old(writer.stalls) && Faults(reader, writer) == old(Faults(reader, writer))
        decreases cap - pos
      {
        var written := WriteBuf(reader, writer);
        match written {
          case WritePending => return Some(CopyPending);
          case WriteError => return Some(CopyFailed);
          case WriteReady(i) =>
            if i == 0 {
              return Some(CopyFailed);
            }
        }
      }
      return None;
    }

    /** One poll.  It fails if and only if reader or writer failed or the writer took nothing, and
        it is otherwise pending if and only if one of them was not ready.  It is ready when all
        input was written and flushed.  When it is pending and the writer was ready, everything
        written has been flushed, except in one case: this copy has not written anything yet, and
        its writer held unflushed bytes before. */
    method PollCopy(reader: PollReader, writer: PollWriter) returns (r: CopyPoll)
      requires Valid(reader, writer)
      modifies this`readDone, this`needFlush, this`pos, this`cap, this`amt, buf, reader
      modifies writer`writes, writer`written, writer`flushes, writer`flushed
      modifies writer`stalls, writer`faults, writer`zeros
      ensures Valid(reader, writer)
      ensures Outcome(r, old(Stalls(reader, writer)), Stalls(reader, writer), old(Faults(reader, writer)),
                      Faults(reader, writer))
      ensures r.CopyReady? ==> r.count == amt && Transferred(reader, writer, before, skipped, r.count)
      ensures r.CopyPending? && writer.stalls == old(writer.stalls) ==>
                (writer.flushed < |writer.written| <==> amt == 0 && old(writer.flushed < |writer.written|))
      ensures old(readDone) ==> reader.received == old(reader.received) && reader.script == old(reader.script)
    {
      hide PollReader.Valid, Size;
      while true
        invariant Valid(reader, writer) && writer.stalls >= old(writer.stalls)
        invariant amt >= old(amt) && writer.flushed == old(writer.flushed)
        invariant Stalls(reader, writer) == old(Stalls(reader, writer))
        invariant Faults(reader, writer) == old(Faults(reader, writer))
        invariant old(readDone) ==>
                    readDone && reader.received == old(reader.received) && reader.script == old(reader.script)
        decreases Size(reader.script), cap - pos
      {
        if pos == cap && !readDone {
          var polled := FillBuf(reader, writer);
          match polled {
            case ReadReady(_) =>
            case ReadError => return CopyFailed;
            case ReadPending =>
              r := FlushWritten(reader, writer);
              return;
          }
        }
        var ended := WriteAll(reader, writer);
        if ended.Some? {
          return ended.value;
        }
        if pos == cap && readDone {
          var flushed := writer.Flush();
          match flushed {
            case UnitReady =>
              assert writer.written + buf[pos..cap] == writer.written;
              return CopyReady(amt);
            case UnitPending => return CopyPending;
            case UnitError => return CopyFailed;
          }
        }
      }
    }
  }

  // ---- two directions ------------------------------------------------------------------------

  datatype TransferState = Running(buf: CopyBuffer) | ShuttingDown(count: nat) | Done(count: nat)

  /** A writer is shut down only when its direction is done, and a direction shuts down only
      after everything was transferred. */
  ghost predicate Direction(state: TransferState, r: PollReader, w: PollWriter, before: seq<byte>, skipped: nat)
    reads r, w, if state.Running? then {state.buf, state.buf.buf} else {}
  {
    && r.Valid() && w.Valid() && (w.shut <==> state.Done?)
    && match state
       case Running(b) => b.Valid(r, w) && b.before == before && b.skipped == skipped
       case ShuttingDown(count) => Transferred(r, w, before, skipped, count)
       case Done(count) => Transferred(r, w, before, skipped, count)
  }

  /** One poll of one direction; a direction that is done is not touched. */
  method TransferOneDirection(state: TransferState, r: PollReader, w: PollWriter,
                              ghost before: seq<byte>, ghost skipped: nat)
    returns (state': TransferState, res: CopyPoll)
    requires Direction(state, r, w, before, skipped)
    modifies if state.Running? then {state.buf, state.buf.buf} else {}
    modifies if state.Done? then {} else {r, w}
    ensures Direction(state', r, w, before, skipped)
    ensures state'.Running? ==> state == state'
    ensures res.CopyReady? <==> state'.Done?
    ensures Outcome(res, old(Stalls(r, w)), Stalls(r, w), old(Faults(r, w)), Faults(r, w))
    ensures res.CopyReady? ==> res.count == state'.count
    ensures state.Done? ==> state' == state
    ensures state.ShuttingDown? ==> !state'.Running?
  {
    hide PollReader.Valid;
    state' := state;
    while true
      invariant Direction(state', r, w, before, skipped)
      invariant Stalls(r, w) == old(Stalls(r, w)) && Faults(r, w) == old(Faults(r, w))
      invariant state'.Running? ==> state == state'
      invariant state.Done? ==> state' == state
      invariant state.ShuttingDown? ==> !state'.Running?
      decreases match state' case Running(_) => 2 case ShuttingDown(_) => 1 case Done(_) => 0
    {
      match state' {
        case Running(buf) =>
          var polled := buf.PollCopy(r, w);
          if !polled.CopyReady? {
            return state', polled;
          }
          state' := ShuttingDown(polled.count);
        case ShuttingDown(count) =>
          var polled := w.Shutdown();
          match polled {
            case UnitReady => state' := Done(count);
            case UnitPending => return state', CopyPending;
            case UnitError => return state', CopyFailed;
          }
        case Done(count) =>
          return state', CopyReady(count);
      }
    }
  }

  datatype StopReason = Upload | Download

  datatype BidiPoll = BidiReady(reason: StopReason) | BidiPending | BidiFailed(reason: StopReason)

  class CopyBidirectional {
    const inReader: PollReader
    const inWriter: PollWriter
    const outReader: PollReader
    const outWriter: PollWriter
    const upBuffer: CopyBuffer
    const downBuffer: CopyBuffer
    var upload: TransferState
    var download: TransferState
    var stopReason: StopReason

    ghost predicate Separate()
      reads this
    {
      && inReader != outReader && inWriter != outWriter
      && upBuffer != downBuffer && upBuffer.buf != downBuffer.buf
      && (upload.Running? ==> upload.buf == upBuffer) && (download.Running? ==> download.buf == downBuffer)
    }

    ghost predicate UploadInv()
      reads this, inReader, outWriter, upBuffer, upBuffer.buf
      requires Separate()
    {
      Direction(upload, inReader, outWriter, upBuffer.before, upBuffer.skipped)
    }

    ghost predicate DownloadInv()
      reads this, outReader, inWriter, downBuffer, downBuffer.buf
      requires Separate()
    {
      Direction(download, outReader, inWriter, downBuffer.before, downBuffer.skipped)
    }

    /** Until both directions are done, stopReason is Upload if and only if the upload is done. */
    ghost predicate Valid()
      reads this, inReader, outWriter, outReader, inWriter, upBuffer, upBuffer.buf, downBuffer, downBuffer.buf
    {
      && Separate() && UploadInv() && DownloadInv()
      && (!upload.Done? ==> stopReason == Download)
      && (upload.Done? && !download.Done? ==> stopReason == Upload)
    }

    constructor (inReader: PollReader, inWriter: PollWriter, outReader: PollReader, outWriter: PollWriter)
      requires inReader != outReader && inWriter != outWriter
      requires inReader.Valid() && outReader.Valid() && inWriter.Valid() && outWriter.Valid()
      requires !inWriter.shut && !outWriter.shut
      ensures Valid() && upload.Running? && download.Running?
      ensures this.inReader == inReader && this.outReader == outReader
      ensures this.inWriter == inWriter && this.outWriter == outWriter
      ensures upBuffer.before == outWriter.written && upBuffer.skipped == |inReader.received|
      ensures downBuffer.before == inWriter.written && downBuffer.skipped == |outReader.received|
    {
      this.inReader, this.inWriter, this.outReader, this.outWriter := inReader, inWriter, outReader, outWriter;
      var up := new CopyBuffer(inReader, outWriter);
      var down := new CopyBuffer(outReader, inWriter);
      upBuffer, downBuffer := up, down;
      upload, download := Running(up), Running(down);
      stopReason := Download;
    }

    method PollUpload() returns (up: CopyPoll)
      requires Separate() && UploadInv() && DownloadInv()
      modifies this`upload, upBuffer, upBuffer.buf, inReader, outWriter
      ensures Separate() && UploadInv() && DownloadInv()
      ensures Outcome(up, old(Stalls(inReader, outWriter)), Stalls(inReader, outWriter),
                      old(Faults(inReader, outWriter)), Faults(inReader, outWriter))
      ensures up.CopyReady? <==> upload.Done?
      ensures old(upload).Done? ==> upload == old(upload)
    {
      hide PollReader.Valid, Transferred, CopyBuffer.Valid, Direction, Stalls, Faults, Outcome;
      upload, up := TransferOneDirection(upload, inReader, outWriter, upBuffer.before, upBuffer.skipped);
    }

    method PollDownload() returns (down: CopyPoll)
      requires Separate() && UploadInv() && DownloadInv()
      modifies this`download, downBuffer, downBuffer.buf, outReader, inWriter
      ensures Separate() && UploadInv() && DownloadInv()
      ensures Outcome(down, old(Stalls(outReader, inWriter)), Stalls(outReader, inWriter),
                      old(Faults(outReader, inWriter)), Faults(outReader, inWriter))
      ensures down.CopyReady? <==> download.Done?
      ensures old(download).Done? ==> download == old(download)
    {
      hide PollReader.Valid, Transferred, CopyBuffer.Valid, Direction, Stalls, Faults, Outcome;
      download, down := TransferOneDirection(download, outReader, inWriter, downBuffer.before, downBuffer.skipped);
    }

    /** One poll of both directions.  It fails if and only if a direction does, the upload first.
        Otherwise it has polled both: each direction that is not done had to wait in this very
        poll.  It completes when both are done, and then reports the upload if and only if that
        was done in an earlier poll, before the download. */
    method Poll() returns (r: BidiPoll)
      requires Valid()
      modifies this`upload, this`download, this`stopReason
      modifies upBuffer, upBuffer.buf, downBuffer, downBuffer.buf, inReader, inWriter, outReader, outWriter
      ensures Separate() && UploadInv() && DownloadInv()
      ensures !r.BidiFailed? ==> Valid()
      ensures r == BidiFailed(Upload) <==> Faults(inReader, outWriter) > old(Faults(inReader, outWriter))
      ensures r == BidiFailed(Download) <==>
                && Faults(inReader, outWriter) <= old(Faults(inReader, outWriter))
                && Faults(outReader, inWriter) > old(Faults(outReader, inWriter))
      ensures r.BidiPending? ==>
                && (!upload.Done? ==> Stalls(inReader, outWriter) > old(Stalls(inReader, outWriter)))
                && (!download.Done? ==> Stalls(outReader, inWriter) > old(Stalls(outReader, inWriter)))
      ensures r.BidiReady? <==> !r.BidiFailed? && upload.Done? && download.Done?
      ensures old(upload).Done? ==> upload == old(upload)
      ensures old(download).Done? ==> download == old(download)
      ensures r.BidiReady? && !(old(upload).Done? && old(download).Done?) ==>
                r.reason == if old(upload).Done? then Upload else Download
    {
      hide PollReader.Valid, Transferred, CopyBuffer.Valid, Direction, Stalls, Faults;
      var up := PollUpload();
      if up.CopyFailed? {
        return BidiFailed(Upload);
      }
      var down := PollDownload();
      if down.CopyFailed? {
        return BidiFailed(Download);
      }
      match (up, down) {
        case (CopyPending, CopyPending) => return BidiPending;
        case (CopyReady(_), CopyPending) =>
          stopReason := Upload;
          return BidiPending;
        case (CopyPending, CopyReady(_)) =>
          stopReason := Download;
          return BidiPending;
        case _ => return BidiReady(stopReason);
      }
    }
  }
}
