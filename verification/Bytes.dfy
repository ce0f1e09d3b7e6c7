/** Bytes, big-endian 16-bit numbers and the flattening of a list of chunks. */
module Bytes {
  type byte = x: int | 0 <= x < 256
  type u16 = x: int | 0 <= x < 65536

  datatype Option<+T> = None | Some(value: T)

  function FromBE(hi: byte, lo: byte): u16 {
    hi * 256 + lo
  }

  /** Network byte order: the first byte is the more significant one. */
  lemma BigEndian(hi: byte, lo: byte)
    ensures FromBE(hi, lo) / 256 == hi && FromBE(hi, lo) % 256 == lo && ToBE(FromBE(hi, lo)) == [hi, lo]
  {
  }

  function ToBE(x: u16): (s: seq<byte>)
    ensures |s| == 2 && FromBE(s[0], s[1]) == x
  {
    [x / 256, x % 256]
  }

  function Min(a: nat, b: nat): nat {
    if a < b then a else b
  }

  /** The first n elements, or all of them. */
  function UpTo<T>(s: seq<T>, n: nat): seq<T> {
    s[..Min(|s|, n)]
  }

  /** The bytes of a list of chunks, in order. */
  function Concat<T>(chunks: seq<seq<T>>): seq<T> {
    if chunks == [] then [] else chunks[0] + Concat(chunks[1..])
  }

  lemma {:induction false} ConcatAppend<T>(a: seq<seq<T>>, b: seq<seq<T>>)
    ensures Concat(a + b) == Concat(a) + Concat(b)
  {
    if a == [] {
      assert a + b == b;
    } else {
      ConcatAppend(a[1..], b);
      assert (a + b)[0] == a[0] && (a + b)[1..] == a[1..] + b;
      Assoc(a[0], Concat(a[1..]), Concat(b));
    }
  }

  lemma ConcatSnoc<T>(a: seq<seq<T>>, c: seq<T>)
    ensures Concat(a + [c]) == Concat(a) + c
  {
    ConcatAppend(a, [c]);
    assert Concat([c]) == c;
  }

  lemma Assoc<T>(a: seq<T>, b: seq<T>, c: seq<T>)
    ensures a + (b + c) == (a + b) + c
  {
  }

  lemma ConcatHead<T>(s: seq<T>, chunks: seq<seq<T>>)
    requires chunks != []
    ensures s + Concat(chunks) == (s + chunks[0]) + Concat(chunks[1..])
    ensures s + chunks[0] <= s + Concat(chunks)
  {
    Assoc(s, chunks[0], Concat(chunks[1..]));
  }
}
