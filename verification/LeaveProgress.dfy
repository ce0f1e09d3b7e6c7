/** The protocol never gets stuck: from every state that satisfies its invariant there is a clean
    continuation after which everything that was sent has been delivered. */
module LeaveProgress {
  import opened Bytes
  import opened TlsRecords
  import opened TlsRelayBuffers
  import opened LiteTlsStreams
  import opened LeaveProtocol

  // ---- continuations -----------------------------------------------------------------------------

  ghost predicate Good(s: State) {
    Inv(s) && !s.client.closed && !s.server.closed
  }

  ghost predicate Reaches(s: State, run: Run, s': State) {
    CleanRun(s, run) && Final(s, run) == s'
  }

  lemma Stay(s: State)
    ensures Reaches(s, [], s)
  {
  }

  lemma Go(s: State, x: LiteTlsEndpointSide, a: Action) returns (run: Run, s': State)
    requires Good(s) && Enabled(s, x, a) && Clean(s, x, a) && !a.Close?
    ensures s' == Next(s, x, a) && Good(s') && Reaches(s, run, s')
  {
    hide Inv, Clean, OnRead, DrainEval;
    run, s' := [(x, a)], Next(s, x, a);
    StepKeepsInv(s, x, a);
    assert run[1..] == [];
    Stay(s');
  }

  lemma {:induction false} Then(s: State, r1: Run, s1: State, r2: Run, s2: State)
    requires Reaches(s, r1, s1) && Reaches(s1, r2, s2)
    ensures Reaches(s, r1 + r2, s2)
    decreases |r1|
  {
    hide Next, Enabled, Clean;
    if r1 == [] {
      assert r1 + r2 == r2;
    } else {
      assert (r1 + r2)[1..] == r1[1..] + r2;
      Then(Next(s, r1[0].0, r1[0].1), r1[1..], s1, r2, s2);
    }
  }

  // ---- completing the records of an origin -----------------------------------------------------------

  function Zeros(n: nat): (z: seq<byte>)
    ensures |z| == n
  {
    seq(n, _ => 0)
  }

  /** The last boundary that can be reached in s. */
  function LastBoundary(s: seq<byte>, p: nat): (q: nat)
    decreases |s| - p
  {
    if p + 5 <= |s| then LastBoundary(s, RecordEnd(s, p)) else p
  }

  lemma {:induction false} LastBoundaryMeaning(s: seq<byte>, p: nat)
    ensures Boundary(s, p, LastBoundary(s, p)) && |s| < LastBoundary(s, p) + 5
    decreases |s| - p
  {
    if p + 5 <= |s| {
      LastBoundaryMeaning(s, RecordEnd(s, p));
    }
  }

  lemma TypeHere(s: seq<byte>, q: nat)
    requires RelayedTypes(s) && q < |s| && Boundary(s, 0, q)
    ensures RelayedType(s[q])
  {
  }

  lemma TypesIntro(s: seq<byte>)
    requires forall q: nat :: q < |s| && Boundary(s, 0, q) ==> RelayedType(s[q])
    ensures RelayedTypes(s)
  {
  }

  /** More bytes of an open record. */
  lemma ExtendOpen(src: seq<byte>, c: seq<byte>, q: nat)
    requires RelayedTypes(src) && Boundary(src, 0, q) && |src + c| <= q
    ensures RelayedTypes(src + c) && Boundary(src + c, 0, q)
  {
    hide RelayedTypes, Boundary;
    var t := src + c;
    BoundaryExtend(src, t, 0, q);
    forall r: nat | r < |t| && Boundary(t, 0, r) ensures RelayedType(t[r]) {
      if r < |src| {
        BoundaryRestrict(src, t, 0, r);
        TypeHere(src, r);
      } else {
        BoundaryNoJump(src, t, 0, q, r);
        assert false;
      }
    }
    TypesIntro(t);
  }

  /** More bytes of a header that begins at q. */
  lemma ExtendHeader(src: seq<byte>, c: seq<byte>, q: nat)
    requires RelayedTypes(src) && Boundary(src, 0, q) && q <= |src| && |src + c| <= q + 5
    requires q == |src| ==> c != [] && RelayedType(c[0])
    ensures RelayedTypes(src + c) && Boundary(src + c, 0, q)
  {
    hide RelayedTypes;
    var t := src + c;
    BoundaryExtend(src, t, 0, q);
    forall r: nat | r < |t| && Boundary(t, 0, r) ensures RelayedType(t[r]) {
      if r < |src| {
        BoundaryRestrict(src, t, 0, r);
        TypeHere(src, r);
      } else if r != q {
        BoundarySplit(t, 0, q, r);
        assert false;
      }
    }
    TypesIntro(t);
  }

  /** Every well-typed stream can be continued to whole records, with a further one at the end. */
  lemma WholeContinuation(src: seq<byte>) returns (c: seq<byte>)
    requires RelayedTypes(src)
    ensures c != [] && RelayedTypes(src + c) && Boundary(src + c, 0, |src + c|)
  {
    hide RelayedTypes, Boundary;
    var record: seq<byte> := [0x14, 0, 0, 0, 0];
    var q, c1 := LastBoundary(src, 0), [];
    LastBoundaryMeaning(src, 0);
    if q >= |src| {
      c1 := Zeros(q - |src|);
      ExtendOpen(src, c1, q);
    } else {
      var header := Zeros(q + 5 - |src|);
      ExtendHeader(src, header, q);
      BoundaryNext(src + header, 0, q);
      var e := RecordEnd(src + header, q);
      var body := Zeros(e - |src + header|);
      ExtendOpen(src + header, body, e);
      Assoc(src, header, body);
      c1 := header + body;
    }
    var t := src + c1;
    ExtendHeader(t, record, |t|);
    BoundaryNext(t + record, 0, |t|);
    Assoc(src, c1, record);
    c := c1 + record;
  }

  // ---- every endpoint reads what its origin has sent ------------------------------------------------

  /** What the invariant says about the two directions, from the point of view of x. */
  lemma Sides(s: State, x: LiteTlsEndpointSide)
    requires Inv(s)
    ensures InvAt(x, NodeOf(s, x), NodeOf(s, Peer(x)), LaneFrom(s, x), LaneFrom(s, Peer(x)))
    ensures SenderInv(LaneFrom(s, x), NodeOf(s, x).ep.first, NodeOf(s, x).phase)
    ensures ReceiverInv(LaneFrom(s, x), NodeOf(s, Peer(x)).ep.second, NodeOf(s, Peer(x)).phase, NodeOf(s, x).phase)
    ensures NodeOf(s, x).phase.Scanning? ==> !NodeOf(s, x).ep.seen.BothDirections?
    ensures NodeOf(s, x).ep.side == x
    ensures RelayedTypes(LaneFrom(s, x).source) && LaneFrom(s, x).taken <= |LaneFrom(s, x).source|
  {
    hide ReceiverInv, Aligned, RelayedTypes, Boundary;
  }

  lemma SendMore(s: State, x: LiteTlsEndpointSide) returns (run: Run, s': State, c: seq<byte>)
    requires Good(s)
    ensures Reaches(s, run, s') && Good(s') && c != []
    ensures NodeOf(s', x) == NodeOf(s, x) && NodeOf(s', Peer(x)) == NodeOf(s, Peer(x))
    ensures LaneFrom(s', Peer(x)) == LaneFrom(s, Peer(x))
    ensures var f := LaneFrom(s, x);
            LaneFrom(s', x) == f.(source := f.source + c) && Boundary(f.source + c, 0, |f.source + c|)
  {
    hide Inv, Reaches, RelayedTypes, Boundary, OnRead, DrainEval;
    Sides(s, x);
    c := WholeContinuation(LaneFrom(s, x).source);
    run, s' := Go(s, x, Send(c));
  }

  /** A read of everything that the origin has sent, in whole records. */
  lemma ReadsAll(f: Lane, first: Buf, seen: Seen0x17, dir: Direction)
    requires SenderInv(f, first, Scanning) && !seen.BothDirections? && Boundary(f.source, 0, |f.source|)
    requires f.taken <= |f.source|
    ensures var b := Append(first, Take(f.source, f.taken, |f.source| - f.taken));
            var r := ScanBuf(b, seen, dir);
            var b' := Buf(b.inner, r.cursor);
            && r.verdict != Invalid && r.verdict != Leave(Passive)
            && (r.verdict.Incomplete? ==> Pop(b') == Buf([], 0) && f.tunnel + Checked(b') == f.source)
  {
    hide SenderInv, ScanFrom, Boundary, RelayedTypes;
    var b := Append(first, Take(f.source, f.taken, |f.source| - f.taken));
    var r := ScanBuf(b, seen, dir);
    SenderTakes(f, first, |f.source| - f.taken, seen, dir);
    assert f.source[..f.taken + (|f.source| - f.taken)] == f.source;
    ScanMeaning(b.inner, b.cursor, seen, dir);
    if r.verdict.Incomplete? {
      var p := |f.tunnel| + r.cursor;
      BoundaryNoJump(f.source, f.source, 0, p, |f.source|);
      BoundarySplit(f.source, 0, p, |f.source|);
      NoHeaderAt(f.source, p, |f.source|);
    }
  }

  lemma NoHeaderAt(s: seq<byte>, p: nat, q: nat)
    requires Boundary(s, p, q) && |s| < p + 5
    ensures p == q
  {
  }

  /** The endpoint has read and relayed all its origin has sent, in whole records, some of which
      are still in the tunnel. */
  ghost predicate Fed(s: State, x: LiteTlsEndpointSide) {
    var node, f := NodeOf(s, x), LaneFrom(s, x);
    && node.phase.Scanning? && node.ep.first == Buf([], 0)
    && f.taken == |f.source| && f.tunnel == f.source && Boundary(f.source, 0, |f.source|)
    && f.tunnelRead < |f.tunnel|
  }

  ghost predicate Prepared(s: State, x: LiteTlsEndpointSide) {
    Committed(NodeOf(s, x).phase) || Fed(s, x)
  }

  lemma TunnelPosition(f: Lane, second: Buf, phase: Phase, sender: Phase)
    requires ReceiverInv(f, second, phase, sender)
    ensures f.tunnelRead <= |f.tunnel|
  {
    hide Aligned;
  }

  lemma TunnelIsSource(f: Lane, first: Buf)
    requires SenderInv(f, first, Scanning)
    ensures |f.tunnel| + |first.inner| == f.taken
  {
    hide Boundary, RelayedTypes;
  }

  lemma Prepare(s: State, x: LiteTlsEndpointSide) returns (run: Run, s': State)
    requires Good(s)
    ensures Reaches(s, run, s') && Good(s') && Prepared(s', x)
    ensures Prepared(s, Peer(x)) ==> Prepared(s', Peer(x))
    ensures NodeOf(s', Peer(x)) == NodeOf(s, Peer(x))
  {
    hide Inv, Reaches, SenderInv, ReceiverInv, ScanFrom, DrainEval, Boundary, RelayedTypes, Checked, Pop;
    if Committed(NodeOf(s, x).phase) {
      Stay(s);
      return [], s;
    }
    var r1, s1, c := SendMore(s, x);
    Sides(s, x);
    Sides(s1, x);
    var node, f := NodeOf(s1, x), LaneFrom(s1, x);
    var n, dir := |f.source| - f.taken, DirectionOf(x, First);
    ReadsAll(f, node.ep.first, node.ep.seen, dir);
    TunnelIsSource(f, node.ep.first);
    TunnelPosition(f, NodeOf(s1, Peer(x)).ep.second, NodeOf(s1, Peer(x)).phase, Scanning);
    var r2: Run;
    r2, s' := Go(s1, x, ReadFirst(n));
    Then(s, r1, s1, r2, s');
    run := r1 + r2;
    Sides(s', x);
    TunnelPosition(LaneFrom(s', x), NodeOf(s', Peer(x)).ep.second, NodeOf(s', Peer(x)).phase, NodeOf(s', x).phase);
  }

  // ---- every endpoint reads what is in the tunnel -----------------------------------------------------

  lemma TunnelReadAll(f: Lane, second: Buf, sender: Phase, seen: Seen0x17, dir: Direction)
    requires OnWire(f, sender) && ReceiverInv(f, second, Scanning, sender) && !seen.BothDirections?
    requires f.tunnelRead <= |f.tunnel|
    ensures var b := Append(second, Take(f.tunnel, f.tunnelRead, |f.tunnel| - f.tunnelRead));
            var r := ScanBuf(b, seen, dir);
            && r.verdict != Invalid && (r.verdict == Leave(Passive) ==> r.cursor + 6 == |b.inner|)
            && (r.verdict.Incomplete? ==>
                  && !Committed(sender)
                  && (f.tunnel == f.source && Boundary(f.source, 0, |f.source|) ==>
                        f.delivered + Checked(Buf(b.inner, r.cursor)) == f.source))
  {
    hide ScanFrom, Boundary, RelayedTypes, ReceiverInv, OnWire, Aligned;
    var n := |f.tunnel| - f.tunnelRead;
    var b := Append(second, Take(f.tunnel, f.tunnelRead, n));
    var r := ScanBuf(b, seen, dir);
    ReceiverReads(f, second, Scanning, sender, n);
    assert f.tunnel[..f.tunnelRead + n] == f.tunnel;
    ScanOnWire(f, b, sender, |f.tunnel|, seen, dir);
    ScanMeaning(b.inner, b.cursor, seen, dir);
    WireCommand(f, sender);
    if r.verdict.Incomplete? && f.tunnel == f.source && Boundary(f.source, 0, |f.source|) {
      AlignedEnd(f.source, f.delivered, Buf(b.inner, r.cursor));
    }
  }

  lemma WireCommand(f: Lane, sender: Phase)
    requires OnWire(f, sender)
    ensures Committed(sender) ==> |f.tunnel| >= 6
  {
    hide Boundary, RelayedTypes;
  }

  /** In whole records a scan that runs out of bytes has checked all of them. */
  lemma AlignedEnd(got: seq<byte>, emitted: seq<byte>, b: Buf)
    requires Aligned(got, emitted, b) && Boundary(got, 0, |got|) && |b.inner| < b.cursor + 5
    ensures emitted + Checked(b) == got
  {
    hide Boundary;
    var p := |emitted| + b.cursor;
    BoundaryNoJump(got, got, 0, p, |got|);
    BoundarySplit(got, 0, p, |got|);
    NoHeaderAt(got, p, |got|);
    assert Checked(b) == b.inner;
  }

  lemma UnreadCommand(f: Lane, second: Buf, sender: Phase)
    requires ReceiverInv(f, second, Scanning, sender) && Committed(sender)
    ensures f.tunnelRead < |f.tunnel|
  {
    hide Aligned;
  }

  /** Everything that was sent in the direction that begins at x has been delivered. */
  ghost predicate Complete(s: State, x: LiteTlsEndpointSide) {
    LaneFrom(s, x).delivered == LaneFrom(s, x).source
  }

  lemma ReadTunnel(s: State, x: LiteTlsEndpointSide) returns (run: Run, s': State)
    requires Good(s) && NodeOf(s, x).phase.Scanning? && NodeOf(s, x).ep.first == Buf([], 0)
    requires Prepared(s, Peer(x))
    ensures Reaches(s, run, s') && Good(s')
    ensures NodeOf(s', Peer(x)) == NodeOf(s, Peer(x))
    ensures Committed(NodeOf(s', x).phase)
            || (!Committed(NodeOf(s, Peer(x)).phase) && Complete(s', Peer(x))
                && LaneFrom(s', x) == LaneFrom(s, x) && NodeOf(s', x).phase.Scanning?
                && NodeOf(s', x).ep.first == Buf([], 0))
  {
    hide Inv, Reaches, SenderInv, ReceiverInv, ScanFrom, DrainEval, Boundary, RelayedTypes, Checked, Pop, OnWire,
         Aligned;
    Sides(s, x);
    Sides(s, Peer(x));
    var node, peer, to := NodeOf(s, x), NodeOf(s, Peer(x)), LaneFrom(s, Peer(x));
    var dir := DirectionOf(x, Second);
    SenderOnWire(to, peer.ep.first, peer.phase);
    if Committed(peer.phase) {
      UnreadCommand(to, node.ep.second, peer.phase);
    }
    TunnelReadAll(to, node.ep.second, peer.phase, node.ep.seen, dir);
    run, s' := Go(s, x, ReadSecond(|to.tunnel| - to.tunnelRead));
  }

  /** Either both endpoints commit themselves to leaving, or everything goes through the tunnel. */
  lemma CommitBoth(s: State) returns (run: Run, s': State)
    requires Good(s)
    ensures Reaches(s, run, s') && Good(s')
    ensures (Committed(s'.client.phase) && Committed(s'.server.phase))
            || (!Committed(s'.client.phase) && !Committed(s'.server.phase)
                && Complete(s', ClientSide) && Complete(s', ServerSide))
  {
    hide Good, Reaches, Boundary;
    var r: Run;
    run, s' := Prepare(s, ClientSide);
    ghost var s1 := s';
    r, s' := Prepare(s1, ServerSide);
    Then(s, run, s1, r, s');
    run := run + r;
    if !Committed(s'.client.phase) {
      var s2 := s';
      r, s' := ReadTunnel(s2, ClientSide);
      Then(s, run, s2, r, s');
      run := run + r;
    }
    if !Committed(s'.server.phase) {
      var s3 := s';
      r, s' := ReadTunnel(s3, ServerSide);
      Then(s, run, s3, r, s');
      run := run + r;
    }
    if Committed(s'.server.phase) && !Committed(s'.client.phase) {
      var s4 := s';
      r, s' := ReadTunnel(s4, ClientSide);
      Then(s, run, s4, r, s');
      run := run + r;
    }
  }

  // ---- leaving the tunnel ------------------------------------------------------------------------------

  predicate OffTunnelNow(phase: Phase) {
    phase.Out? || phase.Copying?
  }

  lemma AwaitedBytes(f: Lane, second: Buf, sender: Phase)
    requires ReceiverInv(f, second, Awaiting, sender) && Committed(sender)
    ensures f.tunnelRead < |f.tunnel| && f.plainRead == 0 && |f.tunnel| >= 6
    ensures |f.delivered| + second.cursor <= |f.tunnel| - 6
  {
    hide Aligned;
  }

  lemma CommittedPhase(f: Lane, second: Buf, phase: Phase, sender: Phase)
    requires ReceiverInv(f, second, phase, sender) && Committed(phase)
    ensures phase.Awaiting? || OffTunnelNow(phase)
  {
    hide Aligned;
  }

  lemma LeaveTunnel(s: State, x: LiteTlsEndpointSide) returns (run: Run, s': State)
    requires Good(s) && Committed(NodeOf(s, x).phase) && Committed(NodeOf(s, Peer(x)).phase)
    ensures Reaches(s, run, s') && Good(s') && OffTunnelNow(NodeOf(s', x).phase)
    ensures NodeOf(s', Peer(x)) == NodeOf(s, Peer(x))
  {
    hide Inv, Reaches, SenderInv, ReceiverInv, DrainEval, Boundary, RelayedTypes, OnWire, Aligned, OnRead;
    Sides(s, x);
    Sides(s, Peer(x));
    var node, peer, to := NodeOf(s, x), NodeOf(s, Peer(x)), LaneFrom(s, Peer(x));
    CommittedPhase(to, node.ep.second, node.phase, peer.phase);
    if !node.phase.Awaiting? {
      Stay(s);
      return [], s;
    }
    AwaitedBytes(to, node.ep.second, peer.phase);
    var n := |to.tunnel| - to.tunnelRead;
    SenderOnWire(to, peer.ep.first, peer.phase);
    ReceiverReads(to, node.ep.second, Awaiting, peer.phase, n);
    ReceiverDrains(to, to.tunnelRead + n, Append(node.ep.second, Take(to.tunnel, to.tunnelRead, n)), peer.phase);
    run, s' := Go(s, x, ReadToLeave(n));
  }

  lemma OutPosition(f: Lane, second: Buf, mode: LeaveTlsMode, sender: Phase)
    requires ReceiverInv(f, second, Out(mode), sender)
    ensures f.plainRead == 0
  {
    hide Aligned;
  }

  /** A passive endpoint that holds second-hand bytes can flush them if and only if a plain chunk
      has arrived; every other endpoint off the tunnel can flush at once. */
  lemma FlushWaitsIff(s: State, x: LiteTlsEndpointSide)
    requires Good(s) && NodeOf(s, x).phase.Out?
    ensures var node, to := NodeOf(s, x), LaneFrom(s, Peer(x));
            (exists n: nat :: Enabled(s, x, Flush(n)))
            <==> (IsPassive(node.phase) && node.ep.second.inner != [] ==> to.plain != [])
  {
    hide Inv, SenderInv, ReceiverInv, OnRead;
    var node, to := NodeOf(s, x), LaneFrom(s, Peer(x));
    Sides(s, Peer(x));
    OutPosition(to, node.ep.second, node.phase.mode, NodeOf(s, Peer(x)).phase);
    if !IsPassive(node.phase) || node.ep.second.inner == [] {
      assert Enabled(s, x, Flush(0));
    } else if to.plain != [] {
      assert Enabled(s, x, Flush(1));
    }
  }

  /** Flushing needs a plain chunk if the endpoint is passive and holds second-hand bytes; the
      other endpoint, when it is copying, can always provide one. */
  lemma FlushOut(s: State, x: LiteTlsEndpointSide) returns (run: Run, s': State)
    requires Good(s) && OffTunnelNow(NodeOf(s, x).phase) && OffTunnelNow(NodeOf(s, Peer(x)).phase)
    requires IsPassive(NodeOf(s, x).phase) ==> NodeOf(s, Peer(x)).phase.Copying?
    ensures Reaches(s, run, s') && Good(s') && NodeOf(s', x).phase.Copying?
    ensures NodeOf(s', Peer(x)).phase == NodeOf(s, Peer(x)).phase
  {
    hide Inv, Reaches, SenderInv, ReceiverInv, DrainEval, Boundary, RelayedTypes, OnRead;
    var node := NodeOf(s, x);
    if node.phase.Copying? {
      Stay(s);
      return [], s;
    }
    Sides(s, Peer(x));
    OutPosition(LaneFrom(s, Peer(x)), node.ep.second, node.phase.mode, NodeOf(s, Peer(x)).phase);
    if node.phase.mode.Active? || node.ep.second.inner == [] {
      run, s' := Go(s, x, Flush(0));
    } else {
      var r1, s1, c := SendMore(s, Peer(x));
      var r2, s2 := Go(s1, Peer(x), CopyOut(1));
      Then(s, r1, s1, r2, s2);
      var r3: Run;
      r3, s' := Go(s2, x, Flush(1));
      Then(s, r1 + r2, s2, r3, s');
      run := (r1 + r2) + r3;
    }
  }

  lemma BothCopying(s: State) returns (run: Run, s': State)
    requires Good(s) && Committed(s.client.phase) && Committed(s.server.phase)
    ensures Reaches(s, run, s') && Good(s') && s'.client.phase.Copying? && s'.server.phase.Copying?
  {
    hide Reaches;
    var r1, s1 := LeaveTunnel(s, ClientSide);
    var r2, s2 := LeaveTunnel(s1, ServerSide);
    Then(s, r1, s1, r2, s2);
    NotBothPassive(s2);
    var x := if IsPassive(s2.client.phase) then ServerSide else ClientSide;
    var r3, s3 := FlushOut(s2, x);
    Then(s, r1 + r2, s2, r3, s3);
    var r4: Run;
    r4, s' := FlushOut(s3, Peer(x));
    Then(s, (r1 + r2) + r3, s3, r4, s');
    run := ((r1 + r2) + r3) + r4;
  }

  lemma NotBothPassive(s: State)
    requires Inv(s)
    ensures !(IsPassive(s.client.phase) && IsPassive(s.server.phase))
  {
    hide SenderInv, ReceiverInv;
  }

  // ---- plain relaying ------------------------------------------------------------------------------------

  lemma CopiedAll(f: Lane, first: Buf, second: Buf, sender: LeaveTlsMode, receiver: LeaveTlsMode)
    requires SenderInv(f, first, Copying(sender)) && ReceiverInv(f, second, Copying(receiver), Copying(sender))
    requires f.taken == |f.source| && f.plainRead == |f.plain|
    ensures f.delivered == f.source
  {
    hide RelayedTypes, Boundary;
    var body := SentBody(f.tunnel, true);
    assert f.source[..f.taken] == f.source && f.plain[..f.plainRead] == f.plain;
    assert (body + f.plain) + [] == body + f.plain;
  }

  lemma PlainPosition(f: Lane, second: Buf, phase: Phase, sender: Phase)
    requires ReceiverInv(f, second, phase, sender)
    ensures f.plainRead <= |f.plain|
  {
    hide Aligned;
  }

  lemma CopyLane(s: State, x: LiteTlsEndpointSide) returns (run: Run, s': State)
    requires Good(s) && s.client.phase.Copying? && s.server.phase.Copying?
    ensures Reaches(s, run, s') && Good(s') && s'.client.phase.Copying? && s'.server.phase.Copying?
    ensures Complete(s', x) && LaneFrom(s', Peer(x)) == LaneFrom(s, Peer(x))
  {
    hide Inv, Reaches, SenderInv, ReceiverInv, DrainEval, OnRead, RelayedTypes;
    var r: Run;
    run, s' := [], s;
    Stay(s);
    Sides(s, x);
    var n := |LaneFrom(s, x).source| - LaneFrom(s, x).taken;
    if n > 0 {
      r, s' := Go(s, x, CopyOut(n));
      Then(s, run, s, r, s');
      run := run + r;
    }
    var s1 := s';
    Sides(s1, x);
    PlainPosition(LaneFrom(s1, x), NodeOf(s1, Peer(x)).ep.second, NodeOf(s1, Peer(x)).phase, NodeOf(s1, x).phase);
    var m := |LaneFrom(s1, x).plain| - LaneFrom(s1, x).plainRead;
    if m > 0 {
      r, s' := Go(s1, Peer(x), CopyIn(m));
      Then(s, run, s1, r, s');
      run := run + r;
    }
    Sides(s', x);
    CopiedAll(LaneFrom(s', x), NodeOf(s', x).ep.first, NodeOf(s', Peer(x)).ep.second, NodeOf(s', x).phase.mode,
              NodeOf(s', Peer(x)).phase.mode);
  }

  /** From every state that satisfies the invariant and in which nothing is closed, some clean
      continuation delivers everything that was sent, in both directions; if an endpoint has
      written its leave command, both then relay over the plain connection. */
  lemma EverythingCanBeDelivered(s: State) returns (run: Run)
    requires Good(s)
    ensures var s' := Final(s, run);
            && CleanRun(s, run) && Good(s') && Complete(s', ClientSide) && Complete(s', ServerSide)
            && (Committed(s.client.phase) || Committed(s.server.phase) ==>
                  s'.client.phase.Copying? && s'.server.phase.Copying?)
  {
    hide Inv, CleanRun, Final;
    var s1: State;
    run, s1 := CommitBoth(s);
    StaysCommitted(s, run, ClientSide);
    StaysCommitted(s, run, ServerSide);
    if Committed(s1.client.phase) && Committed(s1.server.phase) {
      var r2, s2 := BothCopying(s1);
      Then(s, run, s1, r2, s2);
      var r3, s3 := CopyLane(s2, ClientSide);
      Then(s, run + r2, s2, r3, s3);
      var r4, s4 := CopyLane(s3, ServerSide);
      Then(s, (run + r2) + r3, s3, r4, s4);
      run := ((run + r2) + r3) + r4;
    }
  }

  lemma {:induction false} StaysCommitted(s: State, run: Run, x: LiteTlsEndpointSide)
    ensures Committed(NodeOf(s, x).phase) ==> Committed(NodeOf(Final(s, run), x).phase)
    decreases |run|
  {
    hide Next, Enabled;
    if Committed(NodeOf(s, x).phase) && run != [] && Enabled(s, run[0].0, run[0].1) {
      CommittedTunnelIsClosed(s, run[0].0, run[0].1, x);
      StaysCommitted(Next(s, run[0].0, run[0].1), run[1..], x);
    }
  }
}
