/** What a Lite-TLS handshake comes to, stated from the bytes that its two streams deliver and not
    from the scan: when it goes active, when it answers a command, when it falls back. */
module LiteTlsOutcomes {
  import opened Bytes
  import opened TlsRecords
  import opened TlsRelayBuffers
  import opened LiteTlsStreams

  // ---- one direction ---------------------------------------------------------------------------

  /** The stream contains the beginning of an application-data record. */
  ghost predicate Data(g: seq<byte>) {
    exists q: nat :: q < |g| && Boundary(g, 0, q) && g[q] == 0x17
  }

  function From(dir: Direction): Seen0x17 {
    if dir.Inbound? then FromInbound else FromOutbound
  }

  /** What was scanned before decides nothing. */
  lemma PassedBefore(g: seq<byte>, s: seq<byte>, p: nat, other: bool, r: nat)
    requires g <= s && Boundary(g, 0, p) && RelayedTypes(g) && (other ==> !Data(g))
    requires r < p && Boundary(s, 0, r)
    ensures r < |g| && Boundary(g, 0, r) && PassedOver(s[r], other)
  {
    hide Boundary;
    if r >= |g| {
      BoundaryNoJump(g, s, 0, p, r);
    }
    BoundaryRestrict(g, s, 0, r);
    assert s[r] == g[r];
  }

  lemma DecidesFrom(s: seq<byte>, p: nat, q: nat, other: bool)
    requires Boundary(s, 0, p)
    requires forall r: nat :: r < p && Boundary(s, 0, r) ==> r < |s| && PassedOver(s[r], other)
    ensures DecidesAt(s, 0, q, other) <==> DecidesAt(s, p, q, other)
  {
    hide Boundary;
    forall r: nat ensures Boundary(s, p, r) ==> Boundary(s, 0, r) && p <= r {
      if Boundary(s, p, r) {
        BoundaryTrans(s, 0, p, r);
        Onward(s, p);
      }
    }
    forall r: nat | p <= r && Boundary(s, 0, r) ensures Boundary(s, p, r) {
      BoundarySplit(s, 0, p, r);
    }
  }

  lemma {:induction false} AllPassed(s: seq<byte>, other: bool, r: nat)
    requires forall q: nat :: !DecidesAt(s, 0, q, other)
    requires r < |s| && Boundary(s, 0, r)
    ensures PassedOver(s[r], other)
    decreases r
  {
    hide Boundary;
    forall q: nat | q < r && Boundary(s, 0, q) ensures PassedOver(s[q], other) {
      AllPassed(s, other, q);
    }
    assert DecidesAt(s, 0, r, other) <==> !PassedOver(s[r], other);
  }

  lemma TypesAllPassed(s: seq<byte>, other: bool)
    requires forall q: nat :: !DecidesAt(s, 0, q, other)
    ensures RelayedTypes(s) && (other ==> !Data(s))
  {
    hide Boundary;
    forall r: nat | r < |s| && Boundary(s, 0, r) ensures PassedOver(s[r], other) {
      AllPassed(s, other, r);
    }
  }

  /** Application data in s is in what was there before, or found by the scan that ended at c. */
  lemma DataFrom(g: seq<byte>, s: seq<byte>, p: nat, c: nat)
    requires g <= s && Boundary(g, 0, p) && Boundary(s, 0, p) && Boundary(s, p, c) && |s| < c + 5
    ensures Data(s) <==> Data(g) || DataBy(s, p, c)
  {
    hide Boundary;
    if Data(g) {
      var q: nat :| q < |g| && Boundary(g, 0, q) && g[q] == 0x17;
      BoundaryExtend(g, s, 0, q);
      assert s[q] == 0x17;
    }
    if DataBy(s, p, c) {
      var q: nat :| q <= c && q < |s| && Boundary(s, p, q) && s[q] == 0x17;
      BoundaryTrans(s, 0, p, q);
    }
    if Data(s) {
      var q: nat :| q < |s| && Boundary(s, 0, q) && s[q] == 0x17;
      if q < p {
        if q >= |g| {
          BoundaryNoJump(g, s, 0, p, q);
        }
        BoundaryRestrict(g, s, 0, q);
        assert g[q] == 0x17;
      } else {
        BoundarySplit(s, 0, p, q);
        if c < q {
          BoundarySplit(s, p, c, q);
          Onward(s, c);
        }
      }
    }
  }

  /** One direction between two reads: everything received has been scanned. */
  ghost predicate Scanned1(g: seq<byte>, m: seq<byte>, b: Buf) {
    Aligned(g, m, b) && |b.inner| < b.cursor + 5 && RelayedTypes(g)
  }

  /** The next scan of a direction, from its bytes and from whether the other one has shown
      application data. */
  lemma NextScan(g: seq<byte>, m: seq<byte>, b: Buf, chunk: seq<byte>, other: bool, seen: Seen0x17, dir: Direction)
    requires Scanned1(g, m, b) && (other ==> !Data(g))
    requires !seen.BothDirections? && OtherSeen(seen, dir) == other
    requires !other ==> seen == if Data(g) then From(dir) else Nothing
    ensures var s, r := g + chunk, ScanBuf(Append(b, chunk), seen, dir);
            && Aligned(s, m, Buf(b.inner + chunk, r.cursor))
            && (r.verdict.Incomplete? <==> forall q: nat :: !DecidesAt(s, 0, q, other))
            && (forall q: nat :: DecidesAt(s, 0, q, other) ==> |m| + r.cursor == q && r.verdict == VerdictOn(s[q]))
            && (r.verdict.Incomplete? ==>
                  && RelayedTypes(s) && (other ==> !Data(s)) && |b.inner + chunk| < r.cursor + 5
                  && r.seen == if other then seen else if Data(s) then From(dir) else Nothing)
  {
    hide Boundary, ScanFrom, RelayedTypes, Data, DataBy, DecidesAt;
    var s, b1, p := g + chunk, Append(b, chunk), |m| + b.cursor;
    var r := ScanBuf(b1, seen, dir);
    AlignedAppend(g, m, b, chunk);
    AlignedScan(s, m, b1, seen, dir);
    ScanIff(s, p, seen, dir);
    ScanMeaning(b1.inner, b1.cursor, seen, dir);
    ScanMeaning(s, p, seen, dir);
    forall q: nat | q < p && Boundary(s, 0, q) ensures q < |s| && PassedOver(s[q], other) {
      PassedBefore(g, s, p, other, q);
    }
    forall q: nat ensures DecidesAt(s, 0, q, other) <==> DecidesAt(s, p, q, other) {
      DecidesFrom(s, p, q, other);
    }
    if r.verdict.Incomplete? {
      TypesAllPassed(s, other);
      DataFrom(g, s, p, |m| + r.cursor);
    }
  }

  // ---- whether a leave command comes -----------------------------------------------------------

  lemma {:induction false} NoLeaveAlong(g: seq<byte>, z: seq<byte>, o: nat, p: nat)
    requires g <= z && Boundary(g, o, p)
    requires forall r: nat :: r < p && Boundary(g, o, r) ==> r < |g| && g[r] != 0xff
    ensures NoLeaveBefore(z, o, p)
    decreases p - o
  {
    if o != p {
      Onward(g, o);
      NoLeaveAlong(g, z, RecordEnd(g, o), p);
    }
  }

  lemma {:induction false} NoLeaveSplit(z: seq<byte>, o: nat, p: nat, e: nat)
    requires NoLeaveBefore(z, o, p) && NoLeaveBefore(z, o, e) && e < |z| && z[e] == 0xff
    ensures NoLeaveBefore(z, p, e)
    decreases p - o
  {
    if o != p {
      NoLeaveSplit(z, RecordEnd(z, o), p, e);
    }
  }

  /** The stream z contains a complete leave command after whole records. */
  ghost predicate HasLeave(z: seq<byte>) {
    exists e: nat :: LeaveAt(z, 0, e)
  }

  /** Draining finds the command of the other endpoint if and only if one comes, completely, after
      whole records. */
  lemma DrainSucceedsIff(g: seq<byte>, m: seq<byte>, b: Buf, incoming: seq<seq<byte>>)
    requires Aligned(g, m, b)
    requires forall r: nat :: r < |m| + b.cursor && Boundary(g, 0, r) ==> r < |g| && g[r] != 0xff
    ensures DrainAll(b, incoming).ok <==> HasLeave(g + Concat(incoming))
  {
    hide Boundary, NoLeaveBefore, DrainAll, Concat;
    var z, k, n, p := g + Concat(incoming), |m|, |g|, |m| + b.cursor;
    assert b.inner == z[k..n] && Concat(incoming) == z[n..];
    NoLeaveAlong(g, z, 0, p);
    if e: nat :| LeaveAt(z, 0, e) {
      NoLeaveSplit(z, 0, p, e);
      DrainIsExact(z, k, n, b, incoming, e);
    }
    DrainFindsALeave(z, k, n, b, p, incoming);
    if e: nat :| LeaveAt(z, p, e) {
      NoLeaveTrans(z, 0, p, e);
      assert LeaveAt(z, 0, e);
    }
  }

  // ---- reading in some order -------------------------------------------------------------------

  /** What has been read from either hand, and the chunks still to come. */
  datatype Reads = Reads(first: seq<byte>, second: seq<byte>, firstIn: seq<seq<byte>>, secondIn: seq<seq<byte>>)

  function Got(r: Reads, hand: Hand): seq<byte> {
    if hand.First? then r.first else r.second
  }

  function Script(r: Reads, hand: Hand): seq<seq<byte>> {
    if hand.First? then r.firstIn else r.secondIn
  }

  function Opposite(hand: Hand): Hand {
    if hand.First? then Second else First
  }

  function ReadOn(r: Reads, hand: Hand): Reads
    requires Script(r, hand) != []
  {
    if hand.First? then r.(first := r.first + r.firstIn[0], firstIn := r.firstIn[1..])
    else r.(second := r.second + r.secondIn[0], secondIn := r.secondIn[1..])
  }

  function ReadMany(side: LiteTlsEndpointSide, r: Reads, order: seq<Direction>): Reads
    decreases |order|
  {
    if order == [] || Script(r, HandOf(side, order[0])) == [] then r
    else ReadMany(side, ReadOn(r, HandOf(side, order[0])), order[1..])
  }

  /** After the next read from the hand, the record at q decides. */
  ghost predicate DecidesNow(r: Reads, hand: Hand, q: nat)
    requires Script(r, hand) != []
  {
    DecidesAt(Got(ReadOn(r, hand), hand), 0, q, Data(Got(r, Opposite(hand))))
  }

  ghost predicate GoesOn(r: Reads, hand: Hand) {
    Script(r, hand) != [] && forall q: nat :: !DecidesNow(r, hand, q)
  }

  /** What the deciding record at q makes of the handshake: application data in the second
      direction to show some makes the endpoint active; a leave command from the other endpoint
      that is complete and the last thing read is answered; everything else is no TLS. */
  ghost predicate OutcomeAt(r: Reads, hand: Hand, q: nat, result: HandshakeResult, leftover: seq<byte>)
    requires Script(r, hand) != [] && DecidesNow(r, hand, q)
  {
    var r' := ReadOn(r, hand);
    var s := Got(r', hand);
    if s[q] == 0x17 then result == if HasLeave(r'.second + Concat(r'.secondIn)) then Left(Active) else BrokenPipe
    else if s[q] == 0xff && hand.Second? && q + 6 == |s| then
      result == Left(Passive) && (leftover == [] <==> q == |r.second|)
    else result == NotTlsStream
  }

  ghost predicate Decided(r: Reads, hand: Hand, result: HandshakeResult, leftover: seq<byte>) {
    Script(r, hand) != [] && exists q: nat :: DecidesNow(r, hand, q) && OutcomeAt(r, hand, q, result, leftover)
  }

  // ---- the endpoint while it scans ------------------------------------------------------------------

  ghost predicate Tracked(e: Endpoint, r: Reads, m1: seq<byte>, m2: seq<byte>) {
    && Scanned1(r.first, m1, e.first) && Scanned1(r.second, m2, e.second)
    && (e.second.inner == [] || e.second.cursor == 0)
    && !(Data(r.first) && Data(r.second))
    && e.seen == (if Data(r.first) then From(DirectionOf(e.side, First))
                  else if Data(r.second) then From(DirectionOf(e.side, Second))
                  else Nothing)
  }

  lemma NextOfHand(e: Endpoint, r: Reads, m1: seq<byte>, m2: seq<byte>, hand: Hand)
    requires Tracked(e, r, m1, m2) && Script(r, hand) != []
    ensures !e.seen.BothDirections?
    ensures var chunk, other, m := Script(r, hand)[0], Data(Got(r, Opposite(hand))), if hand.First? then m1 else m2;
            var b, dir, s := BufOf(e, hand), DirectionOf(e.side, hand), Got(ReadOn(r, hand), hand);
            var scan := ScanBuf(Append(b, chunk), e.seen, dir);
            && Aligned(s, m, Buf(b.inner + chunk, scan.cursor))
            && (scan.verdict.Incomplete? <==> GoesOn(r, hand))
            && (forall q: nat :: DecidesNow(r, hand, q) ==>
                  |m| + scan.cursor == q && scan.verdict == VerdictOn(s[q]))
            && (scan.verdict.Incomplete? ==>
                  && RelayedTypes(s) && (other ==> !Data(s)) && |b.inner + chunk| < scan.cursor + 5
                  && scan.seen == if other then e.seen else if Data(s) then From(dir) else Nothing)
  {
    hide Boundary, ScanFrom, RelayedTypes, Data, DecidesAt, Aligned;
    var chunk, other, m := Script(r, hand)[0], Data(Got(r, Opposite(hand))), if hand.First? then m1 else m2;
    NextScan(Got(r, hand), m, BufOf(e, hand), chunk, other, e.seen, DirectionOf(e.side, hand));
    var s := Got(ReadOn(r, hand), hand);
    assert s == Got(r, hand) + chunk;
    forall q: nat ensures DecidesNow(r, hand, q) <==> DecidesAt(s, 0, q, other) {
    }
  }

  lemma PopSettles(g: seq<byte>, m: seq<byte>, b: Buf)
    requires Scanned1(g, m, b)
    ensures Scanned1(g, m + Checked(b), Pop(b)) && (Pop(b).inner == [] || Pop(b).cursor == 0)
  {
    hide Boundary, RelayedTypes;
    AlignedPop(g, m, b);
  }

  lemma StepGoesOn(e: Endpoint, r: Reads, m1: seq<byte>, m2: seq<byte>, hand: Hand)
    returns (m1': seq<byte>, m2': seq<byte>)
    requires Tracked(e, r, m1, m2) && GoesOn(r, hand)
    ensures !e.seen.BothDirections?
    ensures var e1 := SetBuf(e, hand, Append(BufOf(e, hand), Script(r, hand)[0]));
            Tracked(Relay(Scanned(e1, hand), hand).ep, ReadOn(r, hand), m1', m2')
  {
    hide Boundary, ScanFrom, RelayedTypes, Data, DecidesAt, Aligned, Checked, Pop;
    NextOfHand(e, r, m1, m2, hand);
    var e1 := SetBuf(e, hand, Append(BufOf(e, hand), Script(r, hand)[0]));
    var b := BufOf(Scanned(e1, hand), hand);
    var m := if hand.First? then m1 else m2;
    PopSettles(Got(ReadOn(r, hand), hand), m, b);
    m1', m2' := if hand.First? then m1 + Checked(b) else m1, if hand.First? then m2 else m2 + Checked(b);
  }

  /** The part of the second-hand bytes that a passive endpoint still holds. */
  lemma LeftoverIff(g: seq<byte>, m: seq<byte>, b: Buf, s: seq<byte>, q: nat, chunk: seq<byte>)
    requires Scanned1(g, m, b) && (b.inner == [] || b.cursor == 0) && s == g + chunk
    requires Boundary(s, 0, q) && q < |s| && s[q] == 0xff && |m| <= q
    ensures q == |m| <==> q == |g|
  {
    hide RelayedTypes, Boundary;
    var p := |m| + b.cursor;
    assert forall i :: 0 <= i < |g| ==> s[i] == g[i];
    if b.inner != [] {
      BoundaryExtend(g, s, 0, p);
      if q == |m| {
        BoundaryRestrict(g, s, 0, q);
        TypeAtStart(g, q);
      } else {
        BoundarySplit(s, 0, p, q);
        Onward(s, p);
        StepsFive(s, p, q);
      }
    }
  }

  lemma TypeAtStart(g: seq<byte>, q: nat)
    requires RelayedTypes(g) && q < |g| && Boundary(g, 0, q)
    ensures RelayedType(g[q])
  {
  }

  lemma StepsFive(s: seq<byte>, p: nat, q: nat)
    requires Boundary(s, p, q) && p != q
    ensures q >= p + 5
  {
  }

  lemma NoCommandScanned(g: seq<byte>, m: seq<byte>, b: Buf, r: nat)
    requires Scanned1(g, m, b) && r < |m| + b.cursor && Boundary(g, 0, r)
    ensures r < |g| && g[r] != 0xff
  {
    hide Boundary, RelayedTypes;
    PassedBefore(g, g, |m| + b.cursor, false, r);
  }

  /** The iteration that ends the scan. */
  lemma StepDecides(e: Endpoint, r: Reads, m1: seq<byte>, m2: seq<byte>, hand: Hand)
    requires Tracked(e, r, m1, m2) && Script(r, hand) != [] && !GoesOn(r, hand)
    ensures !e.seen.BothDirections?
    ensures var e1 := SetBuf(e, hand, Append(BufOf(e, hand), Script(r, hand)[0]));
            var x := Iterate(Scanned(e1, hand), hand, ScanHand(e1, hand).verdict, Rest(hand, Second, r.secondIn));
            x.result.Some? && Decided(r, hand, x.result.value, x.ep.second.inner)
  {
    hide Boundary, ScanFrom, RelayedTypes, Data, Aligned, DrainAll, Checked, Pop, HasLeave;
    NextOfHand(e, r, m1, m2, hand);
    var chunk := Script(r, hand)[0];
    var e1 := SetBuf(e, hand, Append(BufOf(e, hand), chunk));
    var e2, r' := Scanned(e1, hand), ReadOn(r, hand);
    var x := Iterate(e2, hand, ScanHand(e1, hand).verdict, Rest(hand, Second, r.secondIn));
    var q: nat :| DecidesNow(r, hand, q);
    var s := Got(r', hand);
    if s[q] == 0x17 {
      WhichCommand(e2, r, m2, hand, q);
    } else if s[q] == 0xff {
      if hand.Second? {
        HeldLengths(s, m2, e2.second);
        LeftoverIff(r.second, m2, e.second, s, q, chunk);
      }
    }
    assert OutcomeAt(r, hand, q, x.result.value, x.ep.second.inner);
  }

  lemma HeldLengths(g: seq<byte>, m: seq<byte>, b: Buf)
    requires Aligned(g, m, b)
    ensures |m| + |b.inner| == |g|
  {
    hide Boundary;
  }

  lemma WhichCommand(e2: Endpoint, r: Reads, m2: seq<byte>, hand: Hand, q: nat)
    requires Script(r, hand) != [] && DecidesNow(r, hand, q)
    requires Aligned(ReadOn(r, hand).second, m2, e2.second)
    requires if hand.First? then Scanned1(r.second, m2, e2.second) else |m2| + e2.second.cursor == q
    ensures var r' := ReadOn(r, hand);
            DrainAll(e2.second, Rest(hand, Second, r.secondIn)).ok <==> HasLeave(r'.second + Concat(r'.secondIn))
  {
    hide Boundary, Aligned, DrainAll, RelayedTypes, HasLeave, Concat;
    var g := ReadOn(r, hand).second;
    assert ReadOn(r, hand).secondIn == Rest(hand, Second, r.secondIn);
    forall o: nat | o < |m2| + e2.second.cursor && Boundary(g, 0, o) ensures o < |g| && g[o] != 0xff {
      if hand.First? {
        NoCommandScanned(g, m2, e2.second, o);
      }
    }
    DrainSucceedsIff(g, m2, e2.second, Rest(hand, Second, r.secondIn));
  }

  // ---- the whole handshake ---------------------------------------------------------------------------

  /** The scan loop, from the bytes alone: it goes on for the first k reads and then ends, at the
      end of a stream, or with the outcome of the record that decides, or, when no further read
      comes, by its timeout. */
  ghost predicate Unfolds(side: LiteTlsEndpointSide, r: Reads, order: seq<Direction>, k: nat, n: HandshakeRun)
    requires k <= |order|
  {
    && (forall j: nat :: j < k ==> GoesOn(ReadMany(side, r, order[..j]), HandOf(side, order[j])))
    && var rk := ReadMany(side, r, order[..k]);
       if k == |order| then n.result == TimedOut
       else if Script(rk, HandOf(side, order[k])) == [] then n.result == EndOfStream
       else Decided(rk, HandOf(side, order[k]), n.result, n.ep.second.inner)
  }

  lemma UnfoldsNext(side: LiteTlsEndpointSide, r: Reads, order: seq<Direction>, k: nat,
                    n: HandshakeRun, n': HandshakeRun)
    requires order != [] && k < |order| && GoesOn(r, HandOf(side, order[0]))
    requires Unfolds(side, ReadOn(r, HandOf(side, order[0])), order[1..], k, n)
    requires n'.result == n.result && n'.ep == n.ep
    ensures Unfolds(side, r, order, k + 1, n')
  {
    hide GoesOn, Decided;
    var hand := HandOf(side, order[0]);
    GoesOnReads(r, hand);
    forall j: nat | j <= k
      ensures ReadMany(side, r, order[..j + 1]) == ReadMany(side, ReadOn(r, hand), order[1..][..j])
    {
      assert order[..j + 1][1..] == order[1..][..j];
    }
    forall j: nat | j < k + 1 ensures GoesOn(ReadMany(side, r, order[..j]), HandOf(side, order[j])) {
      if j == 0 {
        assert order[..0] == [];
      } else {
        assert order[j] == order[1..][j - 1];
        assert ReadMany(side, r, order[..(j - 1) + 1]) == ReadMany(side, ReadOn(r, hand), order[1..][..j - 1]);
      }
    }
  }

  lemma GoesOnReads(r: Reads, hand: Hand)
    requires GoesOn(r, hand)
    ensures Script(r, hand) != []
  {
  }

  lemma {:induction false} HandshakeUnfolds(e: Endpoint, r: Reads, m1: seq<byte>, m2: seq<byte>, order: seq<Direction>)
    returns (k: nat)
    requires Tracked(e, r, m1, m2)
    ensures !e.seen.BothDirections?
    ensures k <= |order| && Unfolds(e.side, r, order, k, Handshake(e, order, r.firstIn, r.secondIn))
    decreases |order|
  {
    hide Handshake, Tracked, GoesOn, Decided, Iterate, Scanned, ScanHand, SetBuf, Append;
    TrackedSeen(e, r, m1, m2);
    k := 0;
    assert order[..0] == [];
    if order == [] {
      NothingToRead(e, order, r.firstIn, r.secondIn);
    } else {
      var hand := HandOf(e.side, order[0]);
      if Script(r, hand) == [] {
        NothingToRead(e, order, r.firstIn, r.secondIn);
      } else {
        HandshakeUnfold(e, order, r.firstIn, r.secondIn);
        if GoesOn(r, hand) {
          var m1', m2' := StepGoesOn(e, r, m1, m2, hand);
          var e' := Continues(e, r, m1, m2, hand);
          var k' := HandshakeUnfolds(e', ReadOn(r, hand), m1', m2', order[1..]);
          UnfoldsNext(e.side, r, order, k',
                      Handshake(e', order[1..], ReadOn(r, hand).firstIn, ReadOn(r, hand).secondIn),
                      Handshake(e, order, r.firstIn, r.secondIn));
          k := k' + 1;
        } else {
          StepDecides(e, r, m1, m2, hand);
        }
      }
    }
  }

  lemma TrackedSeen(e: Endpoint, r: Reads, m1: seq<byte>, m2: seq<byte>)
    requires Tracked(e, r, m1, m2)
    ensures !e.seen.BothDirections?
  {
  }

  lemma NothingToRead(e: Endpoint, order: seq<Direction>, firstIn: seq<seq<byte>>, secondIn: seq<seq<byte>>)
    requires !e.seen.BothDirections?
    requires order == [] || (if HandOf(e.side, order[0]).First? then firstIn else secondIn) == []
    ensures Handshake(e, order, firstIn, secondIn).result == if order == [] then TimedOut else EndOfStream
  {
  }

  lemma Continues(e: Endpoint, r: Reads, m1: seq<byte>, m2: seq<byte>, hand: Hand) returns (e': Endpoint)
    requires Tracked(e, r, m1, m2) && GoesOn(r, hand)
    ensures !e.seen.BothDirections? && Script(r, hand) != []
    ensures var e1 := SetBuf(e, hand, Append(BufOf(e, hand), Script(r, hand)[0]));
            var x := Iterate(Scanned(e1, hand), hand, ScanHand(e1, hand).verdict, Rest(hand, Second, r.secondIn));
            && x.result == None && x.ep == e' == Relay(Scanned(e1, hand), hand).ep && e'.side == e.side
            && x.secondRest == ReadOn(r, hand).secondIn && Rest(hand, First, r.firstIn) == ReadOn(r, hand).firstIn
  {
    hide ScanFrom, Aligned, RelayedTypes, Data, DecidesAt;
    NextOfHand(e, r, m1, m2, hand);
    var e1 := SetBuf(e, hand, Append(BufOf(e, hand), Script(r, hand)[0]));
    e' := Relay(Scanned(e1, hand), hand).ep;
  }

  /** The first k reads decide nothing, and the next one, if there is one, does or fails. */
  ghost predicate StopsAt(side: LiteTlsEndpointSide, r: Reads, order: seq<Direction>, k: nat) {
    && k <= |order| && (forall j: nat :: j < k ==> GoesOn(ReadMany(side, r, order[..j]), HandOf(side, order[j])))
    && (k < |order| ==> !GoesOn(ReadMany(side, r, order[..k]), HandOf(side, order[k])))
  }

  lemma UnfoldsStops(side: LiteTlsEndpointSide, r: Reads, order: seq<Direction>, k: nat, n: HandshakeRun)
    requires k <= |order| && Unfolds(side, r, order, k, n)
    ensures StopsAt(side, r, order, k)
  {
    hide DecidesNow, OutcomeAt;
  }

  lemma StopsOnce(side: LiteTlsEndpointSide, r: Reads, order: seq<Direction>, k: nat, k': nat)
    requires StopsAt(side, r, order, k) && StopsAt(side, r, order, k')
    ensures k == k'
  {
    hide GoesOn, ReadMany;
  }

  /** The scripts of both hands after the client hello. */
  function AfterHello(side: LiteTlsEndpointSide, outboundIn: seq<seq<byte>>, rest: seq<seq<byte>>): Reads {
    if side.ClientSide? then Reads([], [], rest, outboundIn) else Reads([], [], outboundIn, rest)
  }

  /** The outcome of every handshake, from what its streams deliver and the order in which they
      do: a client hello that is cut off or invalid ends it; after a valid one it ends where the
      bytes say, and k is the only number of reads that goes before. */
  lemma HandshakeFromBytes(side: LiteTlsEndpointSide, order: seq<Direction>, outboundIn: seq<seq<byte>>,
                           inboundIn: seq<seq<byte>>) returns (k: nat)
    ensures k <= |order|
    ensures var h, n := ReadHello([], inboundIn), WholeHandshake(side, order, outboundIn, inboundIn);
            var r := AfterHello(side, outboundIn, h.rest);
            && r.first == r.second == []
            && Script(r, HandOf(side, Inbound)) == h.rest && Script(r, HandOf(side, Outbound)) == outboundIn
            && DirectionOf(side, HandOf(side, Inbound)) == Inbound
            && DirectionOf(side, HandOf(side, Outbound)) == Outbound
            && match h.check
               case HelloIncomplete => n.result == BrokenPipe
               case HelloInvalid => n.result == NotTlsStream
               case HelloOk =>
                 Unfolds(side, r, order, k, n) && forall k': nat :: StopsAt(side, r, order, k') <==> k' == k
  {
    hide ReadHello, Handshake, Unfolds, StopsAt, Tracked;
    var h, n := ReadHello([], inboundIn), WholeHandshake(side, order, outboundIn, inboundIn);
    var r := AfterHello(side, outboundIn, h.rest);
    k := 0;
    if h.check.HelloOk? {
      TrackedFresh(side, r.firstIn, r.secondIn);
      k := HandshakeUnfolds(FreshEndpoint(side), r, [], [], order);
      UnfoldsStops(side, r, order, k, n);
      forall k': nat | StopsAt(side, r, order, k') ensures k' == k {
        StopsOnce(side, r, order, k, k');
      }
    }
  }

  lemma TrackedFresh(side: LiteTlsEndpointSide, firstIn: seq<seq<byte>>, secondIn: seq<seq<byte>>)
    ensures Tracked(FreshEndpoint(side), Reads([], [], firstIn, secondIn), [], [])
  {
  }

  /** The record that decides is unique. */
  lemma DecidesOnce(r: Reads, hand: Hand, q: nat, q': nat)
    requires Script(r, hand) != [] && DecidesNow(r, hand, q) && DecidesNow(r, hand, q')
    ensures q == q'
  {
    hide Boundary, Data;
  }
}
