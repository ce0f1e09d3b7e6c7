/** A growable buffer with a read cursor. */
module UdpRelayBuffers {
  import opened Bytes

  const UDP_BUFFER_SIZE := 8192

  class UdpRelayBuffer {
    var cursor: nat
    var inner: seq<byte>
    var capacity: nat

    predicate Valid()
      reads this
    {
      cursor <= |inner| <= capacity
    }

    /** The bytes not yet consumed. */
    function Chunk(): seq<byte>
      reads this
      requires Valid()
    {
      inner[cursor..]
    }

    constructor ()
      ensures Valid() && inner == [] && cursor == 0 && capacity == UDP_BUFFER_SIZE
    {
      cursor, inner, capacity := 0, [], UDP_BUFFER_SIZE;
    }

    predicate HasRemaining()
      reads this
    {
      cursor < |inner|
    }

    lemma RemainsIff()
      requires Valid()
      ensures HasRemaining() <==> Chunk() != []
    {
    }

    /** Empty means that nothing was filled in since the last reset; consumed bytes count. */
    predicate IsEmpty()
      reads this
    {
      inner == []
    }

    /** Room for one read, growing a full buffer; there is always some. */
    method AsReadBuf() returns (room: nat)
      requires Valid()
      modifies this`capacity
      ensures Valid() && room == capacity - |inner| && room > 0 && Chunk() == old(Chunk())
    {
      if |inner| == capacity {
        capacity := if 2 * capacity > |inner| + 64 then 2 * capacity else |inner| + 64;
      }
      room := capacity - |inner|;
    }

    method Fill(bytes: seq<byte>)
      requires Valid() && |bytes| <= capacity - |inner|
      modifies this`inner
      ensures Valid() && Chunk() == old(Chunk()) + bytes && inner == old(inner) + bytes
    {
      inner := inner + bytes;
    }

    method Reset()
      modifies this`inner, this`cursor
      ensures Valid() && inner == [] && cursor == 0
    {
      inner, cursor := [], 0;
    }

    /** Shifts the unconsumed bytes to the front, one by one. */
    method Compact()
      requires Valid()
      modifies this`inner, this`cursor
      ensures Valid() && Chunk() == old(Chunk()) && cursor == 0
    {
      if cursor == 0 {
        return;
      }
      var dataLen := |inner| - cursor;
      for i := 0 to dataLen
        invariant cursor == old(cursor) && |inner| == old(|inner|)
        invariant forall k :: 0 <= k < i ==> inner[k] == old(inner)[cursor + k]
        invariant forall k :: i <= k < |inner| ==> inner[k] == old(inner)[k]
      {
        inner := inner[i := inner[i + cursor]];
      }
      inner := inner[..dataLen];
      cursor := 0;
    }

    /** Keeps the unconsumed bytes and makes room for len bytes counted from the cursor. */
    method ReserveByCursor(len: nat)
      requires Valid()
      modifies this
      ensures Valid() && Chunk() == old(Chunk()) && capacity >= cursor + len
      ensures old(cursor == |inner| ==> inner == []) ==> (cursor == |inner| ==> inner == [])
    {
      if len + cursor <= capacity {
        return;
      }
      var newInner := inner[cursor..];
      capacity := len;
      inner := newInner;
      cursor := 0;
    }

    /** The check in advance; when it fails the program panics. */
    method Advance(len: nat) returns (ok: bool)
      requires Valid()
      modifies this`cursor
      ensures Valid()
      ensures ok <==> len <= old(|Chunk()|)
      ensures Chunk() == if ok then old(Chunk())[len..] else old(Chunk())
    {
      if |inner| < cursor + len {
        return false;
      }
      cursor := cursor + len;
      return true;
    }

    method ExtendFromSlice(src: seq<byte>)
      requires Valid()
      modifies this`inner, this`capacity
      ensures Valid() && inner == old(inner) + src && Chunk() == old(Chunk()) + src
    {
      var need := |inner| + |src|;
      if need > capacity {
        capacity := if 2 * capacity > need then 2 * capacity else need;
      }
      inner := inner + src;
    }
  }
}
