/** An asynchronous byte stream as its user sees it: reads deliver the chunks of a script that
    is fixed in advance but arbitrary, writes are accepted in full. */
module Streams {
  import opened Bytes

  class Stream {
    /** The outcomes of the reads still to come; a read past the end is EOF. */
    var incoming: seq<seq<byte>>
    var written: seq<byte>
    /** Everything read so far. */
    ghost var received: seq<byte>
    /** Everything that will ever have been read. */
    ghost const total: seq<byte>

    ghost predicate Valid()
      reads this
    {
      && (forall i :: 0 <= i < |incoming| ==> incoming[i] != [])
      && total == received + Concat(incoming)
    }

    constructor (incoming: seq<seq<byte>>)
      requires forall i :: 0 <= i < |incoming| ==> incoming[i] != []
      ensures Valid() && this.incoming == incoming && written == [] && received == []
    {
      this.incoming := incoming;
      written := [];
      received := [];
      total := Concat(incoming);
    }

    method Read() returns (chunk: seq<byte>)
      requires Valid()
      modifies this`incoming, this`received
      ensures Valid()
      ensures chunk == if old(incoming) == [] then [] else old(incoming)[0]
      ensures incoming == if old(incoming) == [] then [] else old(incoming)[1..]
      ensures received == old(received) + chunk
      ensures chunk == [] <==> old(incoming) == []
    {
      if incoming == [] {
        chunk := [];
      } else {
        ConcatHead(received, incoming);
        chunk := incoming[0];
        incoming := incoming[1..];
      }
      received := received + chunk;
    }

    /** Reads into a buffer with room for max bytes; what does not fit stays for the next
        read. */
    method ReadUpTo(max: nat) returns (chunk: seq<byte>)
      requires Valid() && max > 0
      modifies this`incoming, this`received
      ensures Valid() && |chunk| <= max
      ensures received == old(received) + chunk
      ensures chunk == [] <==> old(incoming) == []
      ensures old(Concat(incoming)) == chunk + Concat(incoming)
      ensures chunk == [] ==> incoming == []
      ensures old(incoming) != [] ==> chunk == UpTo(old(incoming)[0], max)
      ensures old(incoming) != [] && |old(incoming)[0]| <= max ==> incoming == old(incoming)[1..]
    {
      ghost var before := received;
      if incoming == [] || |incoming[0]| <= max {
        chunk := Read();
        assert Concat(old(incoming)) == chunk + Concat(incoming);
      } else {
        chunk := incoming[0][..max];
        var left := incoming[0][max..];
        assert incoming[0] == chunk + left;
        Assoc(chunk, left, Concat(incoming[1..]));
        Assoc(before, chunk, left + Concat(incoming[1..]));
        incoming := [left] + incoming[1..];
        received := received + chunk;
      }
    }

    method Write(data: seq<byte>)
      modifies this`written
      ensures written == old(written) + data
      ensures old(Valid()) ==> Valid()
    {
      written := written + data;
    }
  }
}
