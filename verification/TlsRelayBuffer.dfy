/** The relay buffer of one direction: bytes received and not yet passed on, and a cursor up to
    which they have been checked.  The cursor may lie beyond the end of the buffer, when the
    record it belongs to has not been received completely. */
module TlsRelayBuffers {
  import opened Bytes
  import opened TlsRecords
  import opened Streams

  // ---- the buffer as a value -------------------------------------------------------------

  datatype Buf = Buf(inner: seq<byte>, cursor: nat)

  function Append(b: Buf, chunk: seq<byte>): Buf {
    Buf(b.inner + chunk, b.cursor)
  }

  function CheckedLen(b: Buf): nat {
    Min(b.cursor, |b.inner|)
  }

  function Checked(b: Buf): seq<byte> {
    b.inner[..CheckedLen(b)]
  }

  function Pop(b: Buf): Buf {
    Buf(b.inner[CheckedLen(b)..], b.cursor - CheckedLen(b))
  }

  function ScanBuf(b: Buf, seen: Seen0x17, dir: Direction): Scan
    requires !seen.BothDirections?
  {
    ScanFrom(b.inner, b.cursor, seen, dir)
  }

  /** Relaying when the writer takes only n of the offered bytes: the buffer is popped all the
      same. */
  function ShortRelay(b: Buf, n: nat): (seq<byte>, Buf)
    requires n <= CheckedLen(b)
  {
    (b.inner[..n], Pop(b))
  }

  /** One relay step loses nothing if and only if the writer took everything it was offered:
      the reason why writes are assumed to be full. */
  lemma RelayIsLosslessIffWriteIsFull(b: Buf, n: nat)
    requires n <= CheckedLen(b)
    ensures var (out, b') := ShortRelay(b, n);
            out + b'.inner == b.inner <==> n == |Checked(b)|
  {
    var (out, b') := ShortRelay(b, n);
    if n < |Checked(b)| {
      assert |out + b'.inner| < |b.inner|;
    }
  }

  /** The state of one direction after relaying: emitted bytes followed by buffered bytes are
      the bytes received, and the cursor marks a record boundary of the whole stream. */
  ghost predicate Aligned(received: seq<byte>, emitted: seq<byte>, b: Buf) {
    && received == emitted + b.inner
    && Boundary(received, 0, |emitted| + b.cursor)
  }

  lemma AlignedAppend(received: seq<byte>, emitted: seq<byte>, b: Buf, chunk: seq<byte>)
    requires Aligned(received, emitted, b)
    ensures Aligned(received + chunk, emitted, Append(b, chunk))
  {
    BoundaryExtend(received, received + chunk, 0, |emitted| + b.cursor);
    assert received + chunk == emitted + (b.inner + chunk);
  }

  lemma AlignedPop(received: seq<byte>, emitted: seq<byte>, b: Buf)
    requires Aligned(received, emitted, b)
    ensures Aligned(received, emitted + Checked(b), Pop(b))
  {
    assert b.inner == Checked(b) + Pop(b).inner;
    assert emitted + (Checked(b) + Pop(b).inner) == (emitted + Checked(b)) + Pop(b).inner;
  }

  lemma AlignedScan(received: seq<byte>, emitted: seq<byte>, b: Buf, seen: Seen0x17, dir: Direction)
    requires Aligned(received, emitted, b) && !seen.BothDirections?
    ensures var r := ScanBuf(b, seen, dir);
            && Aligned(received, emitted, Buf(b.inner, r.cursor))
            && ScanFrom(received, |emitted| + b.cursor, seen, dir)
               == Scan(|emitted| + r.cursor, r.seen, r.verdict)
  {
    var r := ScanBuf(b, seen, dir);
    ScanMeaning(b.inner, b.cursor, seen, dir);
    BoundaryShift(emitted, b.inner, b.cursor, r.cursor);
    BoundaryTrans(received, 0, |emitted| + b.cursor, |emitted| + r.cursor);
    ScanShift(emitted, b.inner, b.cursor, seen, dir);
  }

  // ---- any mix of operations on one direction ---------------------------------------------

  datatype BufOp =
    | Receive(chunk: seq<byte>)
    | Search(seen: Seen0x17, dir: Direction)
    | Emit

  /** One direction's buffer with everything received and everything emitted. */
  datatype Flow = Flow(received: seq<byte>, emitted: seq<byte>, buf: Buf)

  function Apply(f: Flow, op: BufOp): Flow {
    match op
    case Receive(chunk) => f.(received := f.received + chunk, buf := Append(f.buf, chunk))
    case Search(seen, dir) =>
      if seen.BothDirections? then f
      else f.(buf := Buf(f.buf.inner, ScanBuf(f.buf, seen, dir).cursor))
    case Emit => f.(emitted := f.emitted + Checked(f.buf), buf := Pop(f.buf))
  }

  function ApplyAll(f: Flow, ops: seq<BufOp>): Flow
    decreases |ops|
  {
    if ops == [] then f else ApplyAll(Apply(f, ops[0]), ops[1..])
  }

  /** Whatever the fragmentation and the mix of operations, popped bytes plus the cursor is a
      record boundary of the total stream and no byte is lost, repeated or reordered. */
  lemma {:induction false} AnyMixKeepsBoundaries(f: Flow, ops: seq<BufOp>)
    requires Aligned(f.received, f.emitted, f.buf)
    ensures var f' := ApplyAll(f, ops);
            Aligned(f'.received, f'.emitted, f'.buf)
    decreases |ops|
  {
    if ops != [] {
      match ops[0] {
        case Receive(chunk) => AlignedAppend(f.received, f.emitted, f.buf, chunk);
        case Search(seen, dir) =>
          if !seen.BothDirections? {
            AlignedScan(f.received, f.emitted, f.buf, seen, dir);
          }
        case Emit => AlignedPop(f.received, f.emitted, f.buf);
      }
      AnyMixKeepsBoundaries(Apply(f, ops[0]), ops[1..]);
    }
  }

  /** In the scan loop an Incomplete scan is followed by a relay, which leaves at most four
      bytes behind: the beginning of a record header. */
  lemma HeldBackAfterRelay(b: Buf, seen: Seen0x17, dir: Direction)
    requires !seen.BothDirections?
    requires ScanBuf(b, seen, dir).verdict.Incomplete?
    ensures var b' := Pop(Buf(b.inner, ScanBuf(b, seen, dir).cursor));
            && |b'.inner| <= 4
            && (b'.inner != [] ==> b'.cursor == 0 && RelayedType(b'.inner[0]))
  {
    ScanMeaning(b.inner, b.cursor, seen, dir);
  }

  // ---- fragmentation independence of the scan ---------------------------------------------

  /** Feed the chunks one by one, relaying after every Incomplete.  The cursor of the result is
      absolute: it counts from the beginning of the stream. */
  function Feed(b: Buf, popped: nat, chunks: seq<seq<byte>>, seen: Seen0x17, dir: Direction): (r: Scan)
    requires !seen.BothDirections?
    decreases |chunks|
  {
    if chunks == [] then Scan(popped + b.cursor, seen, Incomplete)
    else
      var b1 := Append(b, chunks[0]);
      var r := ScanBuf(b1, seen, dir);
      if !r.verdict.Incomplete?
      then Scan(popped + r.cursor, r.seen, r.verdict)
      else
        var b2 := Buf(b1.inner, r.cursor);
        Feed(Pop(b2), popped + CheckedLen(b2), chunks[1..], r.seen, dir)
  }

  /** Scanning again without new bytes changes nothing. */
  predicate Settled(b: Buf, seen: Seen0x17, dir: Direction) {
    !seen.BothDirections? && ScanBuf(b, seen, dir) == Scan(b.cursor, seen, Incomplete)
  }

  lemma SettledAfterRelay(b: Buf, seen: Seen0x17, dir: Direction)
    requires !seen.BothDirections?
    requires ScanBuf(b, seen, dir).verdict.Incomplete?
    ensures var r := ScanBuf(b, seen, dir); Settled(Pop(Buf(b.inner, r.cursor)), r.seen, dir)
  {
    var r := ScanBuf(b, seen, dir);
    var b2 := Buf(b.inner, r.cursor);
    ScanMeaning(b.inner, b.cursor, seen, dir);
    SettledScan(b.inner, b.cursor, seen, dir);
    ScanShift(Checked(b2), Pop(b2).inner, Pop(b2).cursor, r.seen, dir);
    assert Checked(b2) + Pop(b2).inner == b.inner;
  }

  lemma {:induction false} SettledScan(s: seq<byte>, p: nat, seen: Seen0x17, dir: Direction)
    requires !seen.BothDirections?
    requires ScanFrom(s, p, seen, dir).verdict.Incomplete?
    ensures var r := ScanFrom(s, p, seen, dir);
            ScanFrom(s, r.cursor, r.seen, dir) == r
  {
    ScanResume(s, s, p, seen, dir);
  }

  /** One fed chunk, seen from the total stream; b1 is the buffer with the chunk appended. */
  lemma FeedStep(received: seq<byte>, emitted: seq<byte>, b1: Buf, total: seq<byte>,
                 seen: Seen0x17, dir: Direction)
    requires Aligned(received, emitted, b1) && !seen.BothDirections?
    requires received <= total
    ensures var r := ScanBuf(b1, seen, dir);
            ScanFrom(total, |emitted| + b1.cursor, seen, dir) ==
            if r.verdict.Incomplete? then ScanFrom(total, |emitted| + r.cursor, r.seen, dir)
            else Scan(|emitted| + r.cursor, r.seen, r.verdict)
  {
    AlignedScan(received, emitted, b1, seen, dir);
    ScanResume(received, total, |emitted| + b1.cursor, seen, dir);
  }

  lemma FeedRelay(received: seq<byte>, emitted: seq<byte>, b1: Buf, seen: Seen0x17, dir: Direction)
    requires Aligned(received, emitted, b1) && !seen.BothDirections?
    requires ScanBuf(b1, seen, dir).verdict.Incomplete?
    ensures var r := ScanBuf(b1, seen, dir);
            var b2 := Buf(b1.inner, r.cursor);
            Aligned(received, emitted + Checked(b2), Pop(b2)) && Settled(Pop(b2), r.seen, dir)
  {
    var r := ScanBuf(b1, seen, dir);
    AlignedScan(received, emitted, b1, seen, dir);
    AlignedPop(received, emitted, Buf(b1.inner, r.cursor));
    SettledAfterRelay(b1, seen, dir);
  }

  lemma SettledIsUndecided(received: seq<byte>, emitted: seq<byte>, b: Buf, seen: Seen0x17, dir: Direction)
    requires Aligned(received, emitted, b) && Settled(b, seen, dir)
    ensures !seen.BothDirections?
    ensures ScanFrom(received, |emitted| + b.cursor, seen, dir) == Scan(|emitted| + b.cursor, seen, Incomplete)
  {
    AlignedScan(received, emitted, b, seen, dir);
  }

  lemma FeedUnfold(b: Buf, popped: nat, chunks: seq<seq<byte>>, seen: Seen0x17, dir: Direction)
    requires chunks != [] && !seen.BothDirections?
    ensures var r := ScanBuf(Append(b, chunks[0]), seen, dir);
            var b2 := Buf(b.inner + chunks[0], r.cursor);
            Feed(b, popped, chunks, seen, dir) ==
            if r.verdict.Incomplete? then Feed(Pop(b2), popped + CheckedLen(b2), chunks[1..], r.seen, dir)
            else Scan(popped + r.cursor, r.seen, r.verdict)
  {
  }

  lemma {:induction false} FeedIsOneScan(received: seq<byte>, emitted: seq<byte>, b: Buf,
                                         chunks: seq<seq<byte>>, total: seq<byte>, popped: nat,
                                         seen: Seen0x17, dir: Direction, whole: Scan)
    requires Aligned(received, emitted, b) && Settled(b, seen, dir)
    requires total == received + Concat(chunks) && popped == |emitted|
    requires whole == ScanFrom(total, popped + b.cursor, seen, dir)
    ensures Feed(b, popped, chunks, seen, dir) == whole
    decreases |chunks|
  {
    hide ScanFrom, Aligned, Settled;
    SettledIsUndecided(received, emitted, b, seen, dir);
    if chunks == [] {
      assert total == received;
    } else {
      var received1, b1 := received + chunks[0], Append(b, chunks[0]);
      var r := ScanBuf(b1, seen, dir);
      var b2 := Buf(b1.inner, r.cursor);
      FeedUnfold(b, popped, chunks, seen, dir);
      ConcatHead(received, chunks);
      AlignedAppend(received, emitted, b, chunks[0]);
      FeedStep(received1, emitted, b1, total, seen, dir);
      if r.verdict.Incomplete? {
        FeedRelay(received1, emitted, b1, seen, dir);
        FeedIsOneScan(received1, emitted + Checked(b2), Pop(b2), chunks[1..], total,
                      popped + CheckedLen(b2), r.seen, dir, whole);
      }
    }
  }

  /** Fed in any chunks, a stream yields the same first decisive verdict, the same absolute
      offset and the same Seen0x17 as one scan of the whole stream. */
  lemma ScanIsFragmentationIndependent(chunks: seq<seq<byte>>, seen: Seen0x17, dir: Direction)
    requires !seen.BothDirections?
    ensures Feed(Buf([], 0), 0, chunks, seen, dir) == ScanFrom(Concat(chunks), 0, seen, dir)
  {
    FeedIsOneScan([], [], Buf([], 0), chunks, Concat(chunks), 0, seen, dir, ScanFrom(Concat(chunks), 0, seen, dir));
  }

  // ---- draining up to the leave command ---------------------------------------------------

  datatype Drain = Drain(buf: Buf, emitted: seq<byte>, complete: bool)

  /** Relay what can be relayed without reading; complete when a whole leave command has been
      found, in which case everything from it on is discarded. */
  function DrainEval(b: Buf): Drain {
    var b1 := Buf(b.inner, SkipRecords(b.inner, b.cursor));
    var b2 := Pop(b1);
    if b2.cursor == 0 && |b2.inner| >= 5 && |b2.inner| >= RecordEnd(b2.inner, 0)
    then Drain(Buf([], 0), Checked(b1), true)
    else Drain(b2, Checked(b1), false)
  }

  datatype DrainRun = DrainRun(buf: Buf, emitted: seq<byte>, rest: seq<seq<byte>>, ok: bool)

  /** Draining a buffer and then the chunks of a reader; not ok when the reader ends first. */
  function DrainAll(b: Buf, incoming: seq<seq<byte>>): DrainRun
    decreases |incoming|
  {
    var d := DrainEval(b);
    if d.complete then DrainRun(d.buf, d.emitted, incoming, true)
    else if incoming == [] then DrainRun(d.buf, d.emitted, [], false)
    else
      var r := DrainAll(Append(d.buf, incoming[0]), incoming[1..]);
      r.(emitted := d.emitted + r.emitted)
  }

  /** The total stream z has its first leave command, completely, at e. */
  ghost predicate LeaveAt(z: seq<byte>, p: nat, e: nat) {
    && NoLeaveBefore(z, p, e)
    && e + 5 <= |z| && z[e] == 0xff
    && RecordEnd(z, e) <= |z|
  }

  lemma {:induction false} NoLeaveSkip(s: seq<byte>, z: seq<byte>, p: nat, e: nat)
    requires s <= z && NoLeaveBefore(z, p, e) && e < |z| && z[e] == 0xff
    ensures SkipRecords(s, p) <= e
    ensures NoLeaveBefore(z, SkipRecords(s, p), e)
    decreases e - p
  {
    if p != e && p + 5 <= |s| {
      NoLeaveSkip(s, z, RecordEnd(z, p), e);
    }
  }

  /** Where the scan stops inside a buffer that holds z[k..k + |s|]. */
  lemma SkipInside(z: seq<byte>, k: nat, s: seq<byte>, p: nat, e: nat)
    requires k + |s| <= |z| && s == z[k..k + |s|]
    requires NoLeaveBefore(z, k + p, e) && e < |z| && z[e] == 0xff
    ensures var q := k + SkipRecords(s, p);
            q <= e && NoLeaveBefore(z, q, e) && (q + 5 <= k + |s| ==> q == e)
  {
    hide SkipRecords, NoLeaveBefore;
    var x, y := z[..k], z[..k + |s|];
    assert y == x + s;
    SkipShift(x, s, p);
    NoLeaveSkip(y, z, k + p, e);
    SkipMeaning(y, k + p);
    var q := k + SkipRecords(s, p);
    if q + 5 <= k + |s| {
      assert z[q] == y[q] == 0xff;
    }
  }

  /** One evaluation of a buffer that holds z[k..n], where z is the total stream: either the
      leave command is all there, or what was emitted precedes it and it is still ahead. */
  lemma DrainStep(z: seq<byte>, k: nat, n: nat, b: Buf, e: nat)
    requires k <= n <= |z| && b.inner == z[k..n]
    requires LeaveAt(z, k + b.cursor, e)
    ensures k <= e && e + 5 <= |z|
    ensures RecordEnd(z, e) <= |z|
    ensures var d := DrainEval(b);
            var k' := k + |d.emitted|;
            if RecordEnd(z, e) <= n
            then d == Drain(Buf([], 0), z[k..e], true)
            else
              && !d.complete
              && k' <= e && k' <= n && d.emitted == z[k..k'] && d.buf.inner == z[k'..n]
              && LeaveAt(z, k' + d.buf.cursor, e)
  {
    hide NoLeaveBefore, SkipRecords, Checked, Pop, RecordEnd;
    SkipInside(z, k, b.inner, b.cursor, e);
    var b1 := Buf(b.inner, SkipRecords(b.inner, b.cursor));
    var b2 := PopSlices(z, k, n, b1);
    HeaderBeforeEnd(z, e);
    if b2.cursor == 0 && |b2.inner| >= 5 {
      RecordEndOfSlice(z, e, n);
    }
  }

  lemma HeaderBeforeEnd(z: seq<byte>, e: nat)
    requires e + 5 <= |z|
    ensures e + 5 <= RecordEnd(z, e)
  {
  }

  lemma PopSlices(z: seq<byte>, k: nat, n: nat, b: Buf) returns (b': Buf)
    requires k <= n <= |z| && b.inner == z[k..n]
    ensures b' == Pop(b)
    ensures var c := CheckedLen(b);
            Checked(b) == z[k..k + c] && b'.inner == z[k + c..n] && b'.cursor == b.cursor - c
  {
    b' := Pop(b);
  }

  lemma RecordEndOfSlice(z: seq<byte>, e: nat, n: nat)
    requires e + 5 <= n <= |z|
    ensures RecordEnd(z[e..n], 0) + e == RecordEnd(z, e)
  {
  }

  lemma {:induction false} DrainIsExact(z: seq<byte>, k: nat, n: nat, b: Buf, incoming: seq<seq<byte>>, e: nat)
    requires k <= n <= |z| && b.inner == z[k..n] && Concat(incoming) == z[n..]
    requires LeaveAt(z, k + b.cursor, e)
    ensures k <= e
    ensures var r := DrainAll(b, incoming);
            && r.ok && r.buf == Buf([], 0) && r.emitted == z[k..e]
            && RecordEnd(z, e) <= |z| - |Concat(r.rest)|
            && Concat(r.rest) == z[|z| - |Concat(r.rest)|..]
    decreases |incoming|
  {
    hide LeaveAt, DrainEval, RecordEnd;
    DrainStep(z, k, n, b, e);
    if RecordEnd(z, e) > n {
      var d := DrainEval(b);
      var k', n' := k + |d.emitted|, n + |incoming[0]|;
      ChunkOf(z, n, incoming);
      assert z[k'..n] + z[n..n'] == z[k'..n'];
      DrainIsExact(z, k', n', Append(d.buf, incoming[0]), incoming[1..], e);
      assert z[k..k'] + z[k'..e] == z[k..e];
    }
  }

  lemma ChunkOf(z: seq<byte>, n: nat, incoming: seq<seq<byte>>)
    requires n <= |z| && Concat(incoming) == z[n..] && incoming != []
    ensures n + |incoming[0]| <= |z| && incoming[0] == z[n..n + |incoming[0]|]
    ensures Concat(incoming[1..]) == z[n + |incoming[0]|..]
  {
  }

  /** From any buffer state and under any fragmentation, draining a stream that consists of
      whole non-0xff records followed by a leave command writes exactly the part of those
      records that was still to be written, nothing of the command, and leaves buffer and
      cursor empty. */
  lemma DrainWritesExactlyTheRecords(b: Buf, incoming: seq<seq<byte>>, e: nat)
    requires LeaveAt(b.inner + Concat(incoming), b.cursor, e)
    ensures var r := DrainAll(b, incoming);
            var z := b.inner + Concat(incoming);
            && r.ok && r.buf == Buf([], 0) && r.emitted == z[..e]
            && RecordEnd(z, e) <= |z| - |Concat(r.rest)|
            && Concat(r.rest) == z[|z| - |Concat(r.rest)|..]
  {
    hide LeaveAt, RecordEnd, DrainAll, Concat;
    var z := b.inner + Concat(incoming);
    DrainIsExact(z, 0, |b.inner|, b, incoming, e);
  }

  /** One evaluation without knowing whether a leave command will come. */
  lemma DrainProgress(z: seq<byte>, k: nat, n: nat, b: Buf, p: nat) returns (p': nat)
    requires k <= n <= |z| && b.inner == z[k..n] && p == k + b.cursor
    ensures var d := DrainEval(b);
            var k' := k + |d.emitted|;
            if d.complete then exists e: nat :: LeaveAt(z, p, e)
            else
              && k' <= n && d.emitted == z[k..k'] && d.buf.inner == z[k'..n]
              && p' == k' + d.buf.cursor
              && forall e: nat :: LeaveAt(z, p', e) ==> LeaveAt(z, p, e)
  {
    hide NoLeaveBefore, SkipRecords, Checked, Pop, RecordEnd;
    p' := k + SkipRecords(b.inner, b.cursor);
    var b1 := Buf(b.inner, SkipRecords(b.inner, b.cursor));
    var b2 := PopSlices(z, k, n, b1);
    SkipReaches(z, k, b.inner, b.cursor);
    if b2.cursor == 0 && |b2.inner| >= 5 {
      RecordEndOfSlice(z, p', n);
    }
    assert DrainEval(b).complete ==> LeaveAt(z, p, p');
    forall e: nat | LeaveAt(z, p', e) ensures LeaveAt(z, p, e) {
      NoLeaveTrans(z, p, p', e);
    }
  }

  /** Conversely, draining succeeds only if the stream has such a leave command, and when it
      fails nothing is lost. */
  lemma {:induction false} DrainFindsALeave(z: seq<byte>, k: nat, n: nat, b: Buf, p: nat,
                                            incoming: seq<seq<byte>>)
    requires k <= n <= |z| && b.inner == z[k..n] && p == k + b.cursor && Concat(incoming) == z[n..]
    ensures var r := DrainAll(b, incoming);
            && (r.ok ==> exists e: nat :: LeaveAt(z, p, e))
            && (!r.ok ==> r.emitted + r.buf.inner == z[k..] && r.rest == [])
    decreases |incoming|
  {
    hide LeaveAt, DrainEval;
    var p' := DrainProgress(z, k, n, b, p);
    var d := DrainEval(b);
    var k' := k + |d.emitted|;
    if !d.complete {
      if incoming == [] {
        assert z[k..k'] + z[k'..n] == z[k..];
      } else {
        var n' := n + |incoming[0]|;
        ChunkOf(z, n, incoming);
        assert z[k'..n] + z[n..n'] == z[k'..n'];
        var b' := Append(d.buf, incoming[0]);
        DrainFindsALeave(z, k', n', b', p', incoming[1..]);
        var r := DrainAll(b', incoming[1..]);
        Assoc(d.emitted, r.emitted, r.buf.inner);
        assert z[k..k'] + z[k'..] == z[k..];
      }
    }
  }

  lemma SkipReaches(z: seq<byte>, k: nat, s: seq<byte>, p: nat)
    requires k + |s| <= |z| && s == z[k..k + |s|]
    ensures var q := SkipRecords(s, p);
            && p <= q && NoLeaveBefore(z, k + p, k + q)
            && (q + 5 <= |s| ==> z[k + q] == 0xff && RecordEnd(z, k + q) == k + RecordEnd(s, q))
  {
    hide SkipRecords, NoLeaveBefore;
    var x, y := z[..k], z[..k + |s|];
    assert y == x + s;
    SkipShift(x, s, p);
    SkipIsNoLeave(y, z, k + p);
    SkipMeaning(s, p);
  }

  lemma {:induction false} SkipIsNoLeave(s: seq<byte>, z: seq<byte>, p: nat)
    requires s <= z
    ensures NoLeaveBefore(z, p, SkipRecords(s, p))
    decreases |s| - p
  {
    if p + 5 <= |s| && s[p] != 0xff {
      SkipIsNoLeave(s, z, RecordEnd(s, p));
      SkipMeaning(s, RecordEnd(s, p));
    }
  }

  lemma {:induction false} NoLeaveTrans(z: seq<byte>, p: nat, q: nat, e: nat)
    requires NoLeaveBefore(z, p, q) && NoLeaveBefore(z, q, e)
    ensures NoLeaveBefore(z, p, e)
    decreases q - p
  {
    if p != q {
      NoLeaveTrans(z, RecordEnd(z, p), q, e);
    }
  }

  /** Draining can be interrupted after an evaluation and continued from what it left. */
  lemma DrainAllResume(b: Buf, incoming: seq<seq<byte>>)
    ensures var d := DrainEval(b);
            DrainAll(b, incoming) ==
            if d.complete then DrainRun(d.buf, d.emitted, incoming, true)
            else var r := DrainAll(d.buf, incoming); r.(emitted := d.emitted + r.emitted)
  {
    var d := DrainEval(b);
    if !d.complete {
      DrainEvalTwice(b);
      if incoming == [] {
        assert d.emitted + [] == d.emitted;
      } else {
        var r := DrainAll(Append(d.buf, incoming[0]), incoming[1..]);
        assert [] + r.emitted == r.emitted;
      }
    }
  }

  lemma DrainEvalTwice(b: Buf)
    requires !DrainEval(b).complete
    ensures var d := DrainEval(b); DrainEval(d.buf) == Drain(d.buf, [], false)
  {
    hide RecordEnd, SkipRecords, Pop, Checked;
    var b1 := Buf(b.inner, SkipRecords(b.inner, b.cursor));
    SkipMeaning(b.inner, b.cursor);
    SkipStops(b1.inner, b1.cursor);
    assert DrainEval(b1) == DrainEval(b);
    DrainEvalAtStop(b1);
  }

  lemma SkipStops(s: seq<byte>, p: nat)
    requires |s| < p + 5 || s[p] == 0xff
    ensures SkipRecords(s, p) == p
  {
  }

  // ---- the client hello --------------------------------------------------------------------

  datatype HelloCheck = HelloOk | HelloIncomplete | HelloInvalid

  /** A buffer is accepted as a client hello when it is exactly one complete handshake record
      of version 3.1. */
  function CheckHello(s: seq<byte>): HelloCheck {
    if |s| < 5 then HelloIncomplete
    else if s[..3] == [0x16, 0x03, 0x01] && RecordEnd(s, 0) == |s| then HelloOk
    else HelloInvalid
  }

  /** s is a handshake record of version 3.1. */
  ghost predicate IsHello(s: seq<byte>, body: seq<byte>) {
    |body| < 65536 && s == Record(0x16, 0x0301, body)
  }

  /** What is accepted as a hello is one whole record, and the verdict waits for five bytes. */
  lemma HelloOkIff(s: seq<byte>)
    ensures CheckHello(s) == HelloOk <==> exists body :: IsHello(s, body)
    ensures CheckHello(s) == HelloIncomplete <==> |s| < 5
  {
    if CheckHello(s) == HelloOk {
      BigEndian(s[3], s[4]);
      assert IsHello(s, s[5..]);
    }
    if body :| IsHello(s, body) {
      assert s[..3] == [0x16, 0x03, 0x01];
      assert s[3] == ToBE(|body|)[0] && s[4] == ToBE(|body|)[1];
    }
  }

  function HelloCursor(b: Buf): nat {
    if |b.inner| >= 5 && b.inner[..3] == [0x16, 0x03, 0x01] then RecordEnd(b.inner, 0) else b.cursor
  }

  /** What reading a client hello comes to: the check, the bytes read, the chunks left over. */
  datatype HelloRun = HelloRun(check: HelloCheck, inner: seq<byte>, rest: seq<seq<byte>>)

  function ReadHello(inner: seq<byte>, incoming: seq<seq<byte>>): HelloRun
    decreases |incoming|
  {
    if incoming == [] then HelloRun(HelloIncomplete, inner, [])
    else
      var b := inner + incoming[0];
      if CheckHello(b).HelloIncomplete? then ReadHello(b, incoming[1..])
      else HelloRun(CheckHello(b), b, incoming[1..])
  }

  /** The bytes after k further chunks. */
  function After(inner: seq<byte>, incoming: seq<seq<byte>>, k: nat): seq<byte>
    requires k <= |incoming|
  {
    inner + Concat(incoming[..k])
  }

  lemma AfterNext(inner: seq<byte>, incoming: seq<seq<byte>>, k: nat)
    requires k < |incoming|
    ensures After(inner + incoming[0], incoming[1..], k) == After(inner, incoming, k + 1)
  {
    assert incoming[..k + 1] == [incoming[0]] + incoming[1..][..k];
    assert Concat(incoming[..k + 1]) == incoming[0] + Concat(incoming[1..][..k]);
    Assoc(inner, incoming[0], Concat(incoming[1..][..k]));
  }

  /** The hello is decided by the bytes at the first chunk boundary k with five bytes or more. */
  lemma {:induction false} HelloIsDecidedAtFive(inner: seq<byte>, incoming: seq<seq<byte>>) returns (k: nat)
    requires |inner| < 5
    ensures k <= |incoming| && (k < |incoming| ==> |After(inner, incoming, k)| >= 5)
    ensures forall j: nat :: j < k ==> |After(inner, incoming, j)| < 5
    ensures var b := After(inner, incoming, k);
            ReadHello(inner, incoming) == HelloRun(CheckHello(b), b, incoming[k..])
    decreases |incoming|
  {
    hide CheckHello, Concat, After;
    AfterNothing(inner, incoming);
    HelloOkIff(inner);
    if incoming == [] {
      return 0;
    }
    var b := inner + incoming[0];
    AfterNothing(b, incoming[1..]);
    AfterNext(inner, incoming, 0);
    HelloOkIff(b);
    if |b| >= 5 {
      return 1;
    }
    var m := HelloIsDecidedAtFive(b, incoming[1..]);
    k := m + 1;
    AfterNext(inner, incoming, m);
    forall j: nat | j < k ensures |After(inner, incoming, j)| < 5 {
      if j > 0 {
        AfterNext(inner, incoming, j - 1);
      }
    }
  }

  lemma AfterNothing(inner: seq<byte>, incoming: seq<seq<byte>>)
    ensures After(inner, incoming, 0) == inner
  {
    assert incoming[..0] == [];
  }

  /** A stream that begins with a well-formed client hello is accepted if and only if the first
      chunk boundary k with five bytes or more is the end of the hello. */
  lemma HelloIsAcceptedIff(hello: seq<byte>, more: seq<byte>, incoming: seq<seq<byte>>) returns (k: nat)
    requires CheckHello(hello) == HelloOk && Concat(incoming) == hello + more
    ensures k <= |incoming| && |After([], incoming, k)| >= 5
    ensures forall j: nat :: j < k ==> |After([], incoming, j)| < 5
    ensures ReadHello([], incoming).check == HelloOk <==> |After([], incoming, k)| == |hello|
    ensures ReadHello([], incoming).check != HelloIncomplete
  {
    hide ReadHello;
    k := HelloIsDecidedAtFive([], incoming);
    var b := After([], incoming, k);
    assert incoming == incoming[..k] + incoming[k..];
    ConcatAppend(incoming[..k], incoming[k..]);
    assert b + Concat(incoming[k..]) == hello + more;
    if k == |incoming| {
      assert Concat(incoming[k..]) == [];
    }
    SameHeader(hello, more, b, Concat(incoming[k..]));
  }

  lemma SameHeader(hello: seq<byte>, more: seq<byte>, b: seq<byte>, rest: seq<byte>)
    requires CheckHello(hello) == HelloOk && b + rest == hello + more && |b| >= 5
    ensures CheckHello(b) == HelloOk <==> |b| == |hello|
  {
    var t := hello + more;
    assert b[..3] == t[..3] == hello[..3];
    assert b[3] == t[3] == hello[3] && b[4] == t[4] == hello[4];
  }

  /** What remains to be done of a draining run whose outcome is goal. */
  ghost predicate Ahead(goal: DrainRun, out: seq<byte>, b: Buf, incoming: seq<seq<byte>>) {
    var r := DrainAll(b, incoming);
    goal == r.(emitted := out + r.emitted)
  }

  /** The buffer is stuck until more bytes arrive: at an incomplete header, or at an incomplete
      leave command with nothing before it. */
  predicate Waiting(b: Buf) {
    || |b.inner| < b.cursor + 5
    || (b.cursor == 0 && b.inner[0] == 0xff && |b.inner| < RecordEnd(b.inner, 0))
  }

  lemma AheadStart(b: Buf, incoming: seq<seq<byte>>)
    ensures Ahead(DrainAll(b, incoming), [], b, incoming)
  {
    var r := DrainAll(b, incoming);
    assert [] + r.emitted == r.emitted;
  }

  lemma DrainEvalAtStop(b: Buf)
    requires |b.inner| < b.cursor + 5 || b.inner[b.cursor] == 0xff
    ensures DrainEval(b).emitted == Checked(b)
    ensures DrainEval(Pop(b)) == DrainEval(b).(emitted := [])
    ensures Checked(Pop(b)) == []
  {
    hide RecordEnd;
    assert b == Buf(b.inner, SkipRecords(b.inner, b.cursor));
    var b' := Pop(b);
    assert b'.inner == [] || b'.cursor == 0;
    assert Checked(b') == [] && Pop(b') == b';
    assert SkipRecords(b'.inner, b'.cursor) == b'.cursor;
    assert b' == Buf(b'.inner, SkipRecords(b'.inner, b'.cursor));
  }

  lemma AheadFlush(goal: DrainRun, out: seq<byte>, b: Buf, incoming: seq<seq<byte>>)
    requires Ahead(goal, out, b, incoming)
    requires |b.inner| < b.cursor + 5 || b.inner[b.cursor] == 0xff
    ensures Ahead(goal, out + Checked(b), Pop(b), incoming)
    ensures Checked(Pop(b)) == []
    ensures |b.inner| < b.cursor + 5 ==> |Pop(b).inner| < Pop(b).cursor + 5
    ensures |b.inner| >= b.cursor + 5 ==> Pop(b) == Buf(b.inner[b.cursor..], 0)
  {
    hide DrainEval, DrainAll;
    DrainEvalAtStop(b);
    AheadCut(goal, out, b, Checked(b), Pop(b), incoming);
  }

  lemma AheadCut(goal: DrainRun, out: seq<byte>, b: Buf, sent: seq<byte>, b': Buf, incoming: seq<seq<byte>>)
    requires Ahead(goal, out, b, incoming)
    requires DrainEval(b).emitted == sent && DrainEval(b') == DrainEval(b).(emitted := [])
    ensures Ahead(goal, out + sent, b', incoming)
  {
    hide DrainEval;
    var r, r' := DrainAll(b, incoming), DrainAll(b', incoming);
    assert r == r'.(emitted := sent + r'.emitted);
    Assoc(out, sent, r'.emitted);
  }

  lemma NothingChecked(b: Buf)
    ensures Checked(b) == [] && b.inner != [] ==> b.cursor == 0
  {
  }

  lemma AheadRead(goal: DrainRun, out: seq<byte>, b: Buf, incoming: seq<seq<byte>>)
    requires Ahead(goal, out, b, incoming) && Waiting(b) && (Checked(b) == [] || b.cursor == 0)
    ensures incoming == [] ==> goal == DrainRun(b, out, [], false)
    ensures incoming != [] ==> Ahead(goal, out, Append(b, incoming[0]), incoming[1..])
  {
    assert b == Buf(b.inner, SkipRecords(b.inner, b.cursor));
    assert Pop(b) == b;
    assert DrainEval(b) == Drain(b, [], false);
    if incoming != [] {
      var r := DrainAll(Append(b, incoming[0]), incoming[1..]);
      assert [] + r.emitted == r.emitted;
    } else {
      assert out + [] == out;
    }
  }

  lemma AheadAdvance(goal: DrainRun, out: seq<byte>, b: Buf, incoming: seq<seq<byte>>)
    requires Ahead(goal, out, b, incoming) && b.cursor + 5 <= |b.inner| && b.inner[b.cursor] != 0xff
    ensures Ahead(goal, out, Buf(b.inner, RecordEnd(b.inner, b.cursor)), incoming)
  {
    var b' := Buf(b.inner, RecordEnd(b.inner, b.cursor));
    assert DrainEval(b) == DrainEval(b');
  }

  lemma AheadDone(goal: DrainRun, out: seq<byte>, b: Buf, incoming: seq<seq<byte>>)
    requires Ahead(goal, out, b, incoming) && b.cursor == 0 && |b.inner| >= 5 && b.inner[0] == 0xff
    requires |b.inner| >= RecordEnd(b.inner, 0)
    ensures goal == DrainRun(Buf([], 0), out, incoming, true)
  {
    assert SkipRecords(b.inner, 0) == 0;
    assert DrainEval(b) == Drain(Buf([], 0), [], true);
    assert out + [] == out;
  }

  // ---- the buffer as an object --------------------------------------------------------------

  class TlsRelayBuffer {
    var inner: seq<byte>
    var cursor: nat

    function View(): Buf
      reads this
    {
      Buf(inner, cursor)
    }

    constructor ()
      ensures View() == Buf([], 0)
    {
      inner, cursor := [], 0;
    }

    method Reset()
      modifies this
      ensures View() == Buf([], 0)
    {
      inner, cursor := [], 0;
    }

    method Extend(chunk: seq<byte>)
      modifies this
      ensures View() == Append(old(View()), chunk)
    {
      inner := inner + chunk;
    }

    method CheckedPackets() returns (packets: seq<byte>)
      ensures packets == Checked(View())
    {
      packets := if cursor < |inner| then inner[..cursor] else inner;
    }

    /** Shifts the unchecked bytes to the front, one by one. */
    method PopCheckedPackets()
      modifies this
      ensures View() == Pop(old(View()))
    {
      var newLen := |inner| - Min(cursor, |inner|);
      for i := 0 to newLen
        invariant cursor == old(cursor) && |inner| == old(|inner|)
        invariant forall k :: 0 <= k < i ==> inner[k] == old(inner)[cursor + k]
        invariant forall k :: i <= k < |inner| ==> inner[k] == old(inner)[k]
      {
        inner := inner[i := inner[cursor + i]];
      }
      cursor := cursor - (|inner| - newLen);
      inner := inner[..newLen];
    }

    method CheckClientHello() returns (r: HelloCheck)
      modifies this`cursor
      ensures r == CheckHello(inner)
      ensures cursor == HelloCursor(old(View()))
    {
      if |inner| < 5 {
        return HelloIncomplete;
      }
      if inner[..3] != [0x16, 0x03, 0x01] {
        return HelloInvalid;
      }
      cursor := 5 + FromBE(inner[3], inner[4]);
      if cursor != |inner| {
        return HelloInvalid;
      }
      return HelloOk;
    }

    /** None when the record is incomplete; the cursor passes over a record as soon as its
        header is complete. */
    method CheckTlsPacket() returns (packetType: Option<byte>)
      modifies this`cursor
      ensures |inner| < old(cursor) + 5 ==> packetType == None && cursor == old(cursor)
      ensures |inner| >= old(cursor) + 5 ==>
                && cursor == RecordEnd(inner, old(cursor))
                && packetType == if cursor <= |inner| then Some(inner[old(cursor)]) else None
    {
      if |inner| < cursor + 5 {
        return None;
      }
      var t := inner[cursor];
      cursor := cursor + 5 + FromBE(inner[cursor + 3], inner[cursor + 4]);
      if |inner| < cursor {
        return None;
      }
      return Some(t);
    }

    /** Succeeds exactly when six bytes follow the cursor, and then drops them. */
    method Drop0xff() returns (ok: bool)
      modifies this`inner
      ensures ok <==> old(cursor + 6 == |inner|)
      ensures inner == if ok then old(inner)[..cursor] else old(inner)
    {
      if cursor >= |inner| {
        return false;
      } else if cursor + 6 < |inner| {
        return false;
      } else if cursor + 6 > |inner| {
        return false;
      }
      inner := inner[..cursor];
      return true;
    }

    method FindKeyPackets(seen: Seen0x17, dir: Direction) returns (seen': Seen0x17, verdict: Verdict)
      requires !seen.BothDirections?
      modifies this`cursor
      ensures Scan(cursor, seen', verdict) == ScanBuf(old(View()), seen, dir)
    {
      seen' := seen;
      while true
        invariant !seen'.BothDirections?
        invariant ScanFrom(inner, cursor, seen', dir) == old(ScanFrom(inner, cursor, seen, dir))
        decreases |inner| - cursor
      {
        if |inner| < cursor + 1 {
          return seen', Incomplete;
        }
        var t := inner[cursor];
        if t == 0x17 {
          seen' := Witness(seen', dir);
          if seen'.BothDirections? {
            return seen', Leave(Active);
          }
          var p := CheckTlsPacket();
          if p == None {
            return seen', Incomplete;
          }
        } else if t == 0xff {
          return seen', Leave(Passive);
        } else if t == 0x15 || t == 0x16 || t == 0x14 {
          var p := CheckTlsPacket();
          if p == None {
            return seen', Incomplete;
          }
        } else {
          return seen', Invalid;
        }
      }
    }

    method FlushChecked(writer: Stream)
      modifies this, writer`written
      ensures View() == Pop(old(View()))
      ensures writer.written == old(writer.written) + Checked(old(View()))
    {
      var packets := CheckedPackets();
      if |packets| > 0 {
        writer.Write(packets);
        PopCheckedPackets();
      }
    }

    /** Reads until the whole leave command is in the buffer. */
    method AwaitLeave(reader: Stream, ghost goal: DrainRun, ghost out: seq<byte>) returns (ok: bool)
      requires reader.Valid() && Ahead(goal, out, View(), reader.incoming)
      requires cursor == 0 && |inner| >= 5 && inner[0] == 0xff
      modifies this, reader`incoming, reader`received
      ensures reader.Valid()
      ensures goal == if ok then DrainRun(Buf([], 0), out, reader.incoming, true)
                      else DrainRun(View(), out, reader.incoming, false)
    {
      hide DrainAll, DrainEval, Ahead, SkipRecords, Concat, Pop, Checked, CheckedLen;
      var next := cursor + 5 + FromBE(inner[cursor + 3], inner[cursor + 4]);
      while |inner| < next
        invariant reader.Valid() && Ahead(goal, out, View(), reader.incoming)
        invariant cursor == 0 && |inner| >= 5 && inner[0] == 0xff && next == RecordEnd(inner, 0)
        decreases |reader.incoming|
      {
        AheadRead(goal, out, View(), reader.incoming);
        var chunk := reader.Read();
        if chunk == [] {
          return false;
        }
        Extend(chunk);
      }
      AheadDone(goal, out, View(), reader.incoming);
      return true;
    }

    /** Relays what is checked and reads, until a whole record header follows the cursor. */
    method AwaitHeader(reader: Stream, writer: Stream, ghost goal: DrainRun, ghost out: seq<byte>)
      returns (ok: bool, ghost sent: seq<byte>)
      requires reader.Valid() && reader != writer && Ahead(goal, out, View(), reader.incoming)
      modifies this, reader`incoming, reader`received, writer`written
      ensures reader.Valid() && writer.written == old(writer.written) + sent
      ensures if ok then Ahead(goal, out + sent, View(), reader.incoming) && |inner| >= cursor + 5
              else goal == DrainRun(View(), out + sent, reader.incoming, false)
      ensures ok ==> |reader.incoming| < old(|reader.incoming|)
                     || (reader.incoming == old(reader.incoming) && View() == old(View()))
    {
      hide DrainAll, DrainEval, Ahead, SkipRecords, Concat, Pop, Checked, CheckedLen;
      sent := [];
      assert out + sent == out;
      while |inner| < cursor + 5
        invariant reader.Valid() && writer.written == old(writer.written) + sent
        invariant Ahead(goal, out + sent, View(), reader.incoming)
        invariant |reader.incoming| < old(|reader.incoming|)
                  || (reader.incoming == old(reader.incoming) && View() == old(View()))
        decreases |reader.incoming|
      {
        var packets := CheckedPackets();
        if |packets| > 0 {
          AheadFlush(goal, out + sent, View(), reader.incoming);
          Assoc(out, sent, packets);
          sent := sent + packets;
          FlushChecked(writer);
        }
        AheadRead(goal, out + sent, View(), reader.incoming);
        var chunk := reader.Read();
        if chunk == [] {
          return false, sent;
        }
        Extend(chunk);
      }
      return true, sent;
    }

    method Tls12RelayUntil0xff(reader: Stream, writer: Stream) returns (ok: bool)
      requires reader.Valid() && reader != writer
      modifies this, reader`incoming, reader`received, writer`written
      ensures reader.Valid()
      ensures var r := DrainAll(old(View()), old(reader.incoming));
              && ok == r.ok && View() == r.buf && reader.incoming == r.rest
              && writer.written == old(writer.written) + r.emitted
    {
      hide DrainAll, DrainEval, Ahead, SkipRecords, Concat, Pop, Checked, CheckedLen;
      ghost var goal := DrainAll(View(), reader.incoming);
      ghost var out, sent: seq<byte> := [], [];
      AheadStart(View(), reader.incoming);
      while true
        invariant reader.Valid() && writer.written == old(writer.written) + out
        invariant Ahead(goal, out, View(), reader.incoming)
        decreases |reader.incoming|, if cursor < |inner| then |inner| - cursor else 0
      {
        ok, sent := AwaitHeader(reader, writer, goal, out);
        Assoc(old(writer.written), out, sent);
        out := out + sent;
        if !ok {
          return;
        }
        if inner[cursor] == 0xff {
          var packets := CheckedPackets();
          if |packets| > 0 {
            AheadFlush(goal, out, View(), reader.incoming);
            Assoc(old(writer.written), out, packets);
            out := out + packets;
            FlushChecked(writer);
          } else {
            NothingChecked(View());
          }
          ok := AwaitLeave(reader, goal, out);
          if ok {
            Reset();
          }
          return;
        }
        AheadAdvance(goal, out, View(), reader.incoming);
        cursor := cursor + 5 + FromBE(inner[cursor + 3], inner[cursor + 4]);
      }
    }
  }
}
