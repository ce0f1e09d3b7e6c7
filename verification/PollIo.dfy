/** Poll-driven byte readers and writers: each poll takes the next outcome of a script that is
    arbitrary but fixed in advance.  A poll past the end of the script is Pending. */
module PollIo {
  import opened Bytes

  datatype ReadEvent = Chunk(bytes: seq<byte>) | Eof | ReadNotReady | ReadBroken

  datatype PollRead = ReadReady(bytes: seq<byte>) | ReadPending | ReadError

  class PollReader {
    var script: seq<ReadEvent>
    ghost var received: seq<byte>
    /** How often the end of the stream was reported, the reader was not ready, or it failed. */
    ghost var ends: nat
    ghost var stalls: nat
    ghost var faults: nat

    ghost predicate Valid()
      reads this
    {
      forall i :: 0 <= i < |script| && script[i].Chunk? ==> script[i].bytes != []
    }

    constructor (script: seq<ReadEvent>)
      requires forall i :: 0 <= i < |script| && script[i].Chunk? ==> script[i].bytes != []
      ensures Valid() && this.script == script && received == [] && ends == 0
    {
      this.script := script;
      received, ends, stalls, faults := [], 0, 0, 0;
    }

    /** Reads into a buffer with the given room; ReadReady([]) is the end of the stream. */
    method Poll(room: nat) returns (r: PollRead)
      requires Valid() && room > 0
      modifies this
      ensures Valid()
      ensures r.ReadReady? ==> |r.bytes| <= room && received == old(received) + r.bytes
      ensures r == ReadReady([]) || !r.ReadReady? ==> received == old(received)
      ensures ends == old(ends) + (if r == ReadReady([]) then 1 else 0)
      ensures stalls == old(stalls) + (if r.ReadPending? then 1 else 0)
      ensures faults == old(faults) + (if r.ReadError? then 1 else 0)
      ensures Size(script) <= old(Size(script)) && (!r.ReadPending? ==> Size(script) < old(Size(script)))
    {
      if script == [] {
        stalls := stalls + 1;
        return ReadPending;
      }
      var event := script[0];
      match event {
        case Chunk(bytes) =>
          if |bytes| <= room {
            script := script[1..];
            r := ReadReady(bytes);
          } else {
            script := [Chunk(bytes[room..])] + script[1..];
            r := ReadReady(bytes[..room]);
          }
          received := received + r.bytes;
        case Eof =>
          script := script[1..];
          ends := ends + 1;
          r := ReadReady([]);
        case ReadNotReady =>
          script := script[1..];
          stalls := stalls + 1;
          r := ReadPending;
        case ReadBroken =>
          script := script[1..];
          faults := faults + 1;
          r := ReadError;
      }
    }
  }

  /** The number of bytes still to be read, plus one for every event. */
  function Size(script: seq<ReadEvent>): nat {
    if script == [] then 0
    else 1 + (if script[0].Chunk? then |script[0].bytes| else 0) + Size(script[1..])
  }

  datatype WriteEvent = Takes(n: nat) | WriteNotReady | WriteBroken

  datatype PollWrite = WriteReady(n: nat) | WritePending | WriteError

  datatype UnitEvent = Succeeds | UnitNotReady | UnitBroken

  datatype PollUnit = UnitReady | UnitPending | UnitError

  class PollWriter {
    var writes: seq<WriteEvent>
    var flushes: seq<UnitEvent>
    var shutdowns: seq<UnitEvent>
    var written: seq<byte>
    /** How many of the written bytes have been flushed. */
    ghost var flushed: nat
    /** The shutdown has completed. */
    ghost var shut: bool
    /** How often the writer was not ready, failed, or took nothing of what it was offered. */
    ghost var stalls: nat
    ghost var faults: nat
    ghost var zeros: nat

    ghost predicate Valid()
      reads this
    {
      flushed <= |written|
    }

    constructor (writes: seq<WriteEvent>, flushes: seq<UnitEvent>, shutdowns: seq<UnitEvent>)
      ensures Valid() && written == [] && flushed == 0 && !shut
    {
      this.writes, this.flushes, this.shutdowns := writes, flushes, shutdowns;
      written, flushed, shut, stalls, faults, zeros := [], 0, false, 0, 0, 0;
    }

    /** The writer takes any part of what it is offered. */
    method Write(buf: seq<byte>) returns (r: PollWrite)
      requires Valid()
      modifies this`writes, this`written, this`stalls, this`faults, this`zeros
      ensures Valid() && stalls == old(stalls) + (if r.WritePending? then 1 else 0)
      ensures faults == old(faults) + (if r.WriteError? then 1 else 0)
      ensures zeros == old(zeros) + (if r == WriteReady(0) then 1 else 0)
      ensures r.WriteReady? ==> r.n <= |buf| && written == old(written) + buf[..r.n]
      ensures !r.WriteReady? ==> written == old(written)
      ensures !r.WritePending? ==> |writes| < |old(writes)|
    {
      if writes == [] {
        stalls := stalls + 1;
        return WritePending;
      }
      var event := writes[0];
      writes := writes[1..];
      match event {
        case Takes(n) =>
          var m := Min(n, |buf|);
          zeros := zeros + (if m == 0 then 1 else 0);
          written := written + buf[..m];
          return WriteReady(m);
        case WriteNotReady =>
          stalls := stalls + 1;
          return WritePending;
        case WriteBroken =>
          faults := faults + 1;
          return WriteError;
      }
    }

    method Flush() returns (r: PollUnit)
      requires Valid()
      modifies this`flushes, this`flushed, this`stalls, this`faults
      ensures Valid() && stalls == old(stalls) + (if r.UnitPending? then 1 else 0)
      ensures faults == old(faults) + (if r.UnitError? then 1 else 0)
      ensures flushed == if r.UnitReady? then |written| else old(flushed)
    {
      if flushes == [] {
        stalls := stalls + 1;
        return UnitPending;
      }
      var event := flushes[0];
      flushes := flushes[1..];
      match event {
        case Succeeds =>
          flushed := |written|;
          return UnitReady;
        case UnitNotReady =>
          stalls := stalls + 1;
          return UnitPending;
        case UnitBroken =>
          faults := faults + 1;
          return UnitError;
      }
    }

    method Shutdown() returns (r: PollUnit)
      modifies this`shutdowns, this`shut, this`stalls, this`faults
      ensures stalls == old(stalls) + (if r.UnitPending? then 1 else 0)
      ensures faults == old(faults) + (if r.UnitError? then 1 else 0)
      ensures shut == (old(shut) || r.UnitReady?)
    {
      if shutdowns == [] {
        stalls := stalls + 1;
        return UnitPending;
      }
      var event := shutdowns[0];
      shutdowns := shutdowns[1..];
      match event {
        case Succeeds =>
          shut := true;
          return UnitReady;
        case UnitNotReady =>
          stalls := stalls + 1;
          return UnitPending;
        case UnitBroken =>
          faults := faults + 1;
          return UnitError;
      }
    }
  }

  /** How often a direction had to wait, and how often it failed. */
  ghost function Stalls(r: PollReader, w: PollWriter): nat
    reads r, w
  {
    r.stalls + w.stalls
  }

  ghost function Faults(r: PollReader, w: PollWriter): nat
    reads r, w
  {
    r.faults + w.faults + w.zeros
  }
}
