/** The guard on reads from the tunnel is exact: a read keeps the invariant of the protocol if and
    only if it meets the guard, and a read that does not meet it does harm. */
module LeaveExactness {
  import opened Bytes
  import opened TlsRecords
  import opened TlsRelayBuffers
  import opened LiteTlsStreams
  import opened LeaveProgress
  import opened LeaveProtocol

  // ---- an unclean read breaks the invariant ----------------------------------------------------

  /** A record of the origin is open: its header has been relayed, its end not. */
  lemma OpenRecord(f: Lane, first: Buf)
    requires f.taken <= |f.source| && Aligned(f.source[..f.taken], f.tunnel, first)
    requires first.cursor > |first.inner|
    ensures Checked(first) == first.inner && f.tunnel + Checked(first) == f.source[..f.taken]
    ensures Boundary(f.source[..f.taken], 0, |f.tunnel| + first.cursor)
    ensures !Boundary(f.source, 0, f.taken)
  {
    hide Boundary;
    CommandIsAtBoundaryIff(f, first);
  }

  lemma CommandNotAtBoundary(f: Lane, first: Buf, phase: Phase, body: seq<byte>)
    requires f.tunnel == body + LEAVE_TLS_COMMAND && Committed(phase) && !Boundary(f.source, 0, |body|)
    ensures !SenderInv(f, first, phase)
  {
    hide Boundary, RelayedTypes;
  }

  lemma PassiveHolds(f: Lane, first: Buf)
    requires first.inner != []
    ensures !SenderInv(f, first, Out(Passive))
  {
    hide Boundary, RelayedTypes;
  }

  lemma FallsBack(f: Lane, first: Buf, phase: Phase)
    requires phase == FellBack
    ensures !SenderInv(f, first, phase)
  {
    hide Boundary, RelayedTypes;
  }

  lemma UncleanReadBreaksInv(x: LiteTlsEndpointSide, node: Node, peer: Node, from: Lane, to: Lane, n: nat)
    requires InvAt(x, node, peer, from, to)
    requires node.phase.Scanning? && !node.ep.seen.BothDirections? && to.tunnelRead + n <= |to.tunnel|
    requires !CleanRead(node.ep, Take(to.tunnel, to.tunnelRead, n))
    ensures var r := OnRead(node.ep, Second, Take(to.tunnel, to.tunnelRead, n));
            !SenderInv(from.(tunnel := from.tunnel + r.toSecond), r.ep.first, PhaseAfter(r.outcome))
  {
    hide SenderInv, ReceiverInv, Aligned, ScanFrom, DrainEval, RelayedTypes, Boundary, Checked;
    var e, chunk := node.ep, Take(to.tunnel, to.tunnelRead, n);
    var r, b := OnRead(e, Second, chunk), Append(e.second, chunk);
    var scan := ScanBuf(b, e.seen, DirectionOf(e.side, Second));
    var e2 := e.(second := Buf(b.inner, scan.cursor), seen := scan.seen);
    var from' := from.(tunnel := from.tunnel + r.toSecond);
    SenderScanning(from, e.first);
    if scan.verdict == Leave(Active) {
      assert r == GoActive(e2);
      OpenRecord(from, e.first);
      Assoc(from.tunnel, Checked(e.first), LEAVE_TLS_COMMAND);
      CommandNotAtBoundary(from', r.ep.first, PhaseAfter(r.outcome), from.source[..from.taken]);
    } else {
      assert r == GoPassive(e2);
      if e2.second.cursor + 6 != |e2.second.inner| {
        FallsBack(from', r.ep.first, PhaseAfter(r.outcome));
      } else if e.first.inner != [] {
        PassiveHolds(from', r.ep.first);
      } else {
        OpenRecord(from, e.first);
        assert from.tunnel + Checked(e.first) == from.tunnel;
        CommandNotAtBoundary(from', r.ep.first, PhaseAfter(r.outcome), from.tunnel);
      }
    }
  }

  lemma SendBreaksInv(x: LiteTlsEndpointSide, node: Node, peer: Node, from: Lane, to: Lane)
    requires !RelayedTypes(from.source)
    ensures !InvAt(x, node, peer, from, to)
  {
    hide Boundary, RelayedTypes, ReceiverInv;
  }

  /** From a state that satisfies the invariant, an enabled step keeps it if and only if the step
      is clean. */
  lemma CleanIffInv(s: State, x: LiteTlsEndpointSide, a: Action)
    requires Inv(s) && Enabled(s, x, a)
    ensures Inv(Next(s, x, a)) <==> Clean(s, x, a)
  {
    hide InvAt, OnRead, CleanRead, RelayedTypes, DrainEval, SenderInv;
    var node, peer, from, to := NodeOf(s, x), NodeOf(s, Peer(x)), LaneFrom(s, x), LaneFrom(s, Peer(x));
    if Clean(s, x, a) {
      StepKeepsInv(s, x, a);
    } else {
      assert s == Update(x, node, peer, from, to);
      InvOf(x, node, peer, from, to);
      if a.Send? {
        SendBreaksInv(x, node, peer, from.(source := from.source + a.chunk), to);
        InvOf(x, node, peer, from.(source := from.source + a.chunk), to);
      } else {
        var r := OnRead(node.ep, Second, Take(to.tunnel, to.tunnelRead, a.n));
        UncleanReadBreaksInv(x, node, peer, from, to, a.n);
        NoSenderNoInv(x, node.(ep := r.ep, phase := PhaseAfter(r.outcome)), peer,
                      from.(tunnel := from.tunnel + r.toSecond),
                      to.(tunnelRead := to.tunnelRead + a.n, delivered := to.delivered + r.toFirst));
      }
    }
  }

  lemma NoSenderNoInv(x: LiteTlsEndpointSide, node: Node, peer: Node, from: Lane, to: Lane)
    requires !SenderInv(from, node.ep.first, node.phase)
    ensures !Inv(Update(x, node, peer, from, to))
  {
    hide SenderInv, ReceiverInv;
    InvOf(x, node, peer, from, to);
  }

  // ---- a command inside a record ---------------------------------------------------------------

  /** The tunnel of a direction ends with a command that lies inside a record: the last header
      that was relayed reaches to p, beyond the bytes that precede the command. */
  ghost predicate Interrupted(f: Lane, p: nat) {
    && f.taken <= |f.source| && RelayedTypes(f.source)
    && f.tunnel == f.source[..f.taken] + LEAVE_TLS_COMMAND
    && Boundary(f.source[..f.taken], 0, p) && p > f.taken
  }

  lemma {:induction false} RecordsAlong(src: seq<byte>, got: seq<byte>, t: seq<byte>, p: nat, q: nat)
    requires RelayedTypes(src) && got <= src && got <= t
    requires Boundary(got, 0, p) && Boundary(got, p, q)
    ensures WholeRecords(t, p, q)
    decreases q - p
  {
    if p != q {
      TypeAt(src, got, p);
      BoundaryNext(got, 0, p);
      RecordsAlong(src, got, t, RecordEnd(got, p), q);
    }
  }

  /** The receiver has at most the whole records up to the open one behind it. */
  lemma RecordsToOpen(f: Lane, p: nat, m: nat, p0: nat)
    requires Interrupted(f, p) && m <= f.taken && Boundary(f.tunnel[..m], 0, p0)
    ensures p0 <= p && WholeRecords(f.tunnel, p0, p)
  {
    hide RelayedTypes, Boundary, WholeRecords;
    var got := f.source[..f.taken];
    assert f.tunnel[..m] == got[..m];
    BoundaryNoJump(f.tunnel[..m], got, 0, p0, p);
    BoundaryExtend(f.tunnel[..m], got, 0, p0);
    BoundarySplit(got, 0, p0, p);
    RecordsAlong(f.source, got, f.tunnel, p0, p);
  }

  /** A scan gets past whole records, unless it goes active on one of them. */
  lemma {:induction false} ScanPast(s: seq<byte>, p: nat, b: nat, seen: Seen0x17, dir: Direction)
    requires !seen.BothDirections? && WholeRecords(s, p, b)
    ensures var r := ScanFrom(s, p, seen, dir);
            r.cursor >= b || (r.verdict == Leave(Active) && NoLeaveBefore(s, r.cursor, b))
    decreases b - p
  {
    if p == b {
      ScanMeaning(s, p, seen, dir);
    } else {
      var seen' := if s[p] == 0x17 then Witness(seen, dir) else seen;
      if seen'.BothDirections? {
        WholeNoLeave(s, p, b);
      } else {
        WholeWithin(s, RecordEnd(s, p), b);
        ScanPast(s, RecordEnd(s, p), b, seen', dir);
      }
    }
  }

  lemma {:induction false} SkipPast(s: seq<byte>, p: nat, b: nat)
    requires NoLeaveBefore(s, p, b)
    ensures SkipRecords(s, p) >= b
    decreases b - p
  {
    if p == b {
      SkipMeaning(s, p);
    } else {
      SkipPast(s, RecordEnd(s, p), b);
    }
  }

  /** Draining passes on everything up to the end of such records. */
  lemma DrainPast(t: seq<byte>, k: nat, b: Buf, p: nat)
    requires k <= |t| && b.inner == t[k..] && NoLeaveBefore(t, k + b.cursor, p)
    ensures k + |DrainEval(b).emitted| >= Min(p, |t|)
  {
    hide SkipRecords, NoLeaveBefore;
    assert t == t[..k] + t[k..];
    SkipShift(t[..k], t[k..], b.cursor);
    SkipPast(t, k + b.cursor, p);
  }

  /** Where a scan stops that has read to the end of such a tunnel. */
  lemma ScanOfRest(f: Lane, second: Buf, m: nat, p: nat, seen: Seen0x17, dir: Direction)
    requires Interrupted(f, p) && m <= f.taken && !seen.BothDirections?
    requires Aligned(f.tunnel[..m], f.delivered, second)
    ensures var t, k := f.tunnel, |f.delivered|;
            var b := Append(second, Take(t, m, |t| - m));
            var r := ScanBuf(b, seen, dir);
            && k + |b.inner| == |t| && b.inner == t[k..] && r.verdict != Leave(Passive)
            && (k + r.cursor >= p || (r.verdict == Leave(Active) && NoLeaveBefore(t, k + r.cursor, p)))
  {
    hide ScanFrom, Boundary, RelayedTypes, WholeRecords, NoLeaveBefore, Interrupted, Aligned;
    InterruptedTunnel(f, p);
    var t, k, rest := f.tunnel, |f.delivered|, Take(f.tunnel, m, |f.tunnel| - m);
    var b := Append(second, rest);
    AlignedAppend(t[..m], f.delivered, second, rest);
    assert t[..m] + rest == t;
    AlignedBytes(t, f.delivered, b);
    AlignedBoundary(t[..m], f.delivered, second);
    RecordsToOpen(f, p, m, k + second.cursor);
    AlignedScan(t, f.delivered, b, seen, dir);
    ScanPast(t, k + b.cursor, p, seen, dir);
    ScanMeaning(t, k + b.cursor, seen, dir);
  }

  lemma AlignedBytes(received: seq<byte>, emitted: seq<byte>, b: Buf)
    requires Aligned(received, emitted, b)
    ensures |emitted| + |b.inner| == |received| && b.inner == received[|emitted|..]
  {
    hide Boundary;
  }

  lemma AlignedBoundary(received: seq<byte>, emitted: seq<byte>, b: Buf)
    requires Aligned(received, emitted, b)
    ensures Boundary(received, 0, |emitted| + b.cursor)
  {
    hide Boundary;
  }

  /** A scanning endpoint that reads to the end of such a tunnel falls back or passes on bytes of
      the command. */
  lemma ReadingSwallows(f: Lane, e: Endpoint, m: nat, p: nat)
    requires Interrupted(f, p) && m <= f.taken && !e.seen.BothDirections?
    requires Aligned(f.tunnel[..m], f.delivered, e.second)
    ensures var r := OnRead(e, Second, Take(f.tunnel, m, |f.tunnel| - m));
            r.outcome == NotTls || |f.delivered + r.toFirst| > f.taken
  {
    hide ScanFrom, NoLeaveBefore, DrainEval, Aligned, Interrupted;
    InterruptedTunnel(f, p);
    var t, k, rest, dir := f.tunnel, |f.delivered|, Take(f.tunnel, m, |f.tunnel| - m), DirectionOf(e.side, Second);
    var b := Append(e.second, rest);
    ScanOfRest(f, e.second, m, p, e.seen, dir);
    var scan := ScanBuf(b, e.seen, dir);
    if scan.verdict == Leave(Active) {
      var b2, q := Buf(b.inner, scan.cursor), k + scan.cursor;
      assert OnRead(e, Second, rest) == GoActive(e.(second := b2, seen := scan.seen));
      if q >= p {
        NoLeaveNothing(t, q);
        DrainPast(t, k, b2, q);
      } else {
        DrainPast(t, k, b2, p);
      }
    }
  }

  lemma NoLeaveNothing(t: seq<byte>, q: nat)
    ensures NoLeaveBefore(t, q, q)
  {
  }

  lemma CommandHasOneStart(body: seq<byte>)
    ensures var t := body + LEAVE_TLS_COMMAND;
            forall j :: |body| < j < |t| ==> t[j] != 0xff
  {
    var t := body + LEAVE_TLS_COMMAND;
    forall j | |body| < j < |t| ensures t[j] != 0xff {
      assert t[j] == LEAVE_TLS_COMMAND[j - |body|];
    }
  }

  lemma DrainingSwallows(f: Lane, second: Buf, m: nat, p: nat)
    requires Interrupted(f, p) && m <= f.taken && Aligned(f.tunnel[..m], f.delivered, second)
    ensures m <= |f.tunnel|
    ensures var d := DrainEval(Append(second, Take(f.tunnel, m, |f.tunnel| - m)));
            |f.delivered + d.emitted| > f.taken
  {
    hide Boundary, RelayedTypes, WholeRecords, NoLeaveBefore, DrainEval, Interrupted, Aligned;
    InterruptedTunnel(f, p);
    var t, k, rest := f.tunnel, |f.delivered|, Take(f.tunnel, m, |f.tunnel| - m);
    AlignedAppend(t[..m], f.delivered, second, rest);
    assert t[..m] + rest == t;
    AlignedBytes(t, f.delivered, Append(second, rest));
    AlignedBoundary(t[..m], f.delivered, second);
    RecordsToOpen(f, p, m, k + second.cursor);
    WholeNoLeave(t, k + second.cursor, p);
    DrainPast(t, k, Append(second, rest), p);
  }

  /** Reading everything there is in the tunnel. */
  function CompleteRead(s: State, x: LiteTlsEndpointSide): Action
    requires LaneFrom(s, Peer(x)).tunnelRead <= |LaneFrom(s, Peer(x)).tunnel|
  {
    var rest := |LaneFrom(s, Peer(x)).tunnel| - LaneFrom(s, Peer(x)).tunnelRead;
    if NodeOf(s, x).phase.Awaiting? then ReadToLeave(rest) else ReadSecond(rest)
  }

  /** By reading what is in the tunnel the other endpoint falls back, or delivers more than was
      read from x's origin. */
  ghost predicate Swallows(s: State, x: LiteTlsEndpointSide) {
    && LaneFrom(s, x).tunnelRead <= |LaneFrom(s, x).tunnel|
    && Enabled(s, Peer(x), CompleteRead(s, Peer(x)))
    && var s' := Next(s, Peer(x), CompleteRead(s, Peer(x)));
       NodeOf(s', Peer(x)).phase.FellBack? || |LaneFrom(s', x).delivered| > LaneFrom(s', x).taken
  }

  /** Then the bytes delivered are no prefix of those sent, or the leave has failed. */
  lemma SwallowingIsUnsafe(s: State, x: LiteTlsEndpointSide)
    requires Swallows(s, x)
    ensures !Safe(Next(s, Peer(x), CompleteRead(s, Peer(x))))
  {
    hide Next, Enabled;
  }

  lemma InterruptionIsSwallowed(s: State, x: LiteTlsEndpointSide, p: nat)
    requires var f, peer := LaneFrom(s, x), NodeOf(s, Peer(x));
             && Interrupted(f, p) && f.tunnelRead <= f.taken && !peer.closed
             && (peer.phase.Awaiting? || (peer.phase.Scanning? && !peer.ep.seen.BothDirections?))
             && Aligned(f.tunnel[..f.tunnelRead], f.delivered, peer.ep.second)
    ensures Swallows(s, x)
  {
    hide OnRead, DrainEval, Aligned, Interrupted;
    var f, peer := LaneFrom(s, x), NodeOf(s, Peer(x));
    InterruptedTunnel(f, p);
    if peer.phase.Awaiting? {
      DrainingSwallows(f, peer.ep.second, f.tunnelRead, p);
    } else {
      ReadingSwallows(f, peer.ep, f.tunnelRead, p);
    }
  }

  lemma InterruptedTunnel(f: Lane, p: nat)
    requires Interrupted(f, p)
    ensures |f.tunnel| == f.taken + 6 && f.taken <= |f.source| && p > f.taken
    ensures forall j :: f.taken < j < |f.tunnel| ==> f.tunnel[j] != 0xff
  {
    hide Boundary, RelayedTypes;
    CommandHasOneStart(f.source[..f.taken]);
  }

  // ---- first-hand bytes that a passive endpoint holds ----------------------------------------

  /** x has left passively with the command behind body and holds the bytes lost. */
  ghost predicate Stranded(s: State, x: LiteTlsEndpointSide, body: seq<byte>, lost: seq<byte>) {
    var node, peer, f := NodeOf(s, x), NodeOf(s, Peer(x)), LaneFrom(s, x);
    && IsPassive(node.phase) && !peer.phase.Scanning?
    && StrandedLane(f, body, lost) && ReceiverInv(f, peer.ep.second, peer.phase, Out(Passive))
  }

  ghost predicate StrandedLane(f: Lane, body: seq<byte>, lost: seq<byte>) {
    && f.taken <= |f.source| && f.source[..f.taken] == (body + lost) + f.plain
    && f.tunnel == body + LEAVE_TLS_COMMAND && OnWire(f.(source := body), Out(Passive))
  }

  /** The held bytes are missing among the delivered ones. */
  lemma StrandedIsIncomplete(s: State, x: LiteTlsEndpointSide, body: seq<byte>, lost: seq<byte>)
    requires Stranded(s, x, body, lost)
    ensures |LaneFrom(s, x).delivered| + |lost| <= |LaneFrom(s, x).source|
  {
    hide OnWire, Aligned;
  }

  lemma StrandedReceiver(f: Lane, second: Buf, phase: Phase, body: seq<byte>, lost: seq<byte>, n: nat)
    requires StrandedLane(f, body, lost) && ReceiverInv(f, second, phase, Out(Passive))
    requires phase.Awaiting? && f.tunnelRead + n <= |f.tunnel|
    ensures var d := DrainEval(Append(second, Take(f.tunnel, f.tunnelRead, n)));
            var f' := f.(tunnelRead := f.tunnelRead + n, delivered := f.delivered + d.emitted);
            && StrandedLane(f', body, lost)
            && ReceiverInv(f', d.buf, if d.complete then Out(Active) else Awaiting, Out(Passive))
  {
    hide OnWire, Aligned, DrainEval, ReceiverInv;
    var g, d := f.(source := body), DrainEval(Append(second, Take(f.tunnel, f.tunnelRead, n)));
    ReceiverIgnoresSource(f, second, phase, Out(Passive), body, f.taken);
    ReceiverReads(g, second, phase, Out(Passive), n);
    ReceiverDrains(g, f.tunnelRead + n, Append(second, Take(f.tunnel, f.tunnelRead, n)), Out(Passive));
    ReceiverIgnoresSource(g.(tunnelRead := f.tunnelRead + n, delivered := f.delivered + d.emitted), d.buf,
                          if d.complete then Out(Active) else Awaiting, Out(Passive), f.source, f.taken);
    OnWireIgnoresReader(g, f.tunnelRead + n, f.plainRead, f.delivered + d.emitted);
  }

  lemma OnWireIgnoresReader(f: Lane, tunnelRead: nat, plainRead: nat, delivered: seq<byte>)
    requires OnWire(f, Out(Passive))
    ensures OnWire(f.(tunnelRead := tunnelRead, plainRead := plainRead, delivered := delivered), Out(Passive))
  {
    hide RelayedTypes, Boundary;
  }

  lemma OnWireIgnoresPlain(f: Lane, taken: nat, plain: seq<byte>)
    requires OnWire(f, Out(Passive))
    ensures OnWire(f.(taken := taken, plain := plain), Out(Passive))
  {
    hide RelayedTypes, Boundary;
  }

  /** What x itself still does. */
  lemma StrandedSenderStep(s: State, x: LiteTlsEndpointSide, a: Action, body: seq<byte>, lost: seq<byte>)
    requires Stranded(s, x, body, lost) && Enabled(s, x, a)
    ensures Stranded(Next(s, x, a), x, body, lost)
  {
    hide OnWire, Aligned, ReceiverInv, OnRead, DrainEval;
    var peer, f := NodeOf(s, Peer(x)), LaneFrom(s, x);
    match a {
      case Send(chunk) =>
        assert (f.source + chunk)[..f.taken] == f.source[..f.taken];
        ReceiverIgnoresSource(f, peer.ep.second, peer.phase, Out(Passive), f.source + chunk, f.taken);
      case CopyOut(n) =>
        var chunk := Take(f.source, f.taken, n);
        assert f.source[..f.taken + n] == f.source[..f.taken] + chunk;
        Assoc(body + lost, f.plain, chunk);
        OnWireIgnoresPlain(f.(source := body), f.taken + n, f.plain + chunk);
        ReceiverPlainGrows(f, peer.ep.second, peer.phase, Out(Passive), chunk, Out(Passive));
        ReceiverIgnoresSource(f.(plain := f.plain + chunk), peer.ep.second, peer.phase, Out(Passive),
                              f.source, f.taken + n);
      case _ =>
    }
  }

  lemma StrandedPeerStep(s: State, x: LiteTlsEndpointSide, a: Action, body: seq<byte>, lost: seq<byte>)
    requires Stranded(s, x, body, lost) && Enabled(s, Peer(x), a)
    ensures Stranded(Next(s, Peer(x), a), x, body, lost)
  {
    hide OnWire, Aligned, ReceiverInv, OnRead, DrainEval;
    var peer, f := NodeOf(s, Peer(x)), LaneFrom(s, x);
    match a {
      case ReadToLeave(n) =>
        StrandedReceiver(f, peer.ep.second, peer.phase, body, lost, n);
      case Flush(n) =>
        var mode := peer.phase.mode;
        ReceiverFlushes(f, peer.ep.second, mode, Out(Passive), 0);
        ReceiverFlushes(f, peer.ep.second, mode, Out(Passive), n);
        if mode.Passive? {
          OnWireIgnoresReader(f.(source := body), f.tunnelRead, n,
                              f.delivered + (peer.ep.second.inner + Take(f.plain, 0, n)));
        }
      case CopyIn(n) =>
        ReceiverCopies(f, peer.ep.second, peer.phase.mode, Out(Passive), n);
        OnWireIgnoresReader(f.(source := body), f.tunnelRead, f.plainRead + n,
                            f.delivered + Take(f.plain, f.plainRead, n));
      case _ =>
    }
  }

  lemma {:induction false} StrandedForGood(s: State, x: LiteTlsEndpointSide, body: seq<byte>, lost: seq<byte>, run: Run)
    requires Stranded(s, x, body, lost)
    ensures Stranded(Final(s, run), x, body, lost)
    decreases |run|
  {
    hide Stranded, Next, Enabled;
    if run != [] && Enabled(s, run[0].0, run[0].1) {
      if run[0].0 == x {
        StrandedSenderStep(s, x, run[0].1, body, lost);
      } else {
        StrandedPeerStep(s, x, run[0].1, body, lost);
      }
      StrandedForGood(Next(s, run[0].0, run[0].1), x, body, lost, run[1..]);
    }
  }

  /** First-hand bytes that a passive endpoint holds are never sent, whatever anybody does. */
  lemma {:induction false} PassiveLeftoverIsNeverSent(s: State, x: LiteTlsEndpointSide, run: Run)
    requires IsPassive(NodeOf(s, x).phase)
    ensures var s' := Final(s, run);
            IsPassive(NodeOf(s', x).phase) && NodeOf(s', x).ep.first == NodeOf(s, x).ep.first
    decreases |run|
  {
    hide OnRead, DrainEval, Take;
    if run != [] && Enabled(s, run[0].0, run[0].1) {
      PassiveLeftoverIsNeverSent(Next(s, run[0].0, run[0].1), x, run[1..]);
    }
  }

  // ---- an unclean read does harm, and only an unclean one ----------------------------------------

  /** x has fallen back after the other endpoint's command, or its own command is going to be
      taken for content of a record, or what its origin has sent can never be delivered. */
  ghost predicate Harm(s: State, x: LiteTlsEndpointSide) {
    || NodeOf(s, x).phase.FellBack?
    || Swallows(s, x)
    || forall run: Run :: !Complete(Final(s, run), x)
  }

  /** What x's origin has sent is in a scanning state with the other endpoint. */
  lemma PeerOfScanning(f: Lane, second: Buf, phase: Phase)
    requires ReceiverInv(f, second, phase, Scanning)
    ensures phase.Scanning? || phase.Awaiting?
    ensures f.tunnelRead <= |f.tunnel| && Aligned(f.tunnel[..f.tunnelRead], f.delivered, second)
  {
    hide Boundary;
  }

  lemma Interrupts(f: Lane, first: Buf, f': Lane)
    requires f.taken <= |f.source| && RelayedTypes(f.source)
    requires Aligned(f.source[..f.taken], f.tunnel, first) && first.cursor > |first.inner|
    requires f'.source == f.source && f'.taken == f.taken
    requires f'.tunnel == (f.tunnel + Checked(first)) + LEAVE_TLS_COMMAND
    ensures Interrupted(f', |f.tunnel| + first.cursor)
  {
    hide Boundary, RelayedTypes;
    OpenRecord(f, first);
    AlignedBytes(f.source[..f.taken], f.tunnel, first);
  }

  /** The command of x lies inside a record. */
  lemma OpenLeaveDoesHarm(s: State, x: LiteTlsEndpointSide, from: Lane, first: Buf, peer: Node)
    requires ReceiverInv(from, peer.ep.second, peer.phase, Scanning) && !peer.closed
    requires peer.phase.Scanning? ==> !peer.ep.seen.BothDirections?
    requires from.taken <= |from.source| && RelayedTypes(from.source)
    requires Aligned(from.source[..from.taken], from.tunnel, first) && first.cursor > |first.inner|
    requires NodeOf(s, Peer(x)) == peer
    requires LaneFrom(s, x) == from.(tunnel := (from.tunnel + Checked(first)) + LEAVE_TLS_COMMAND)
    ensures Swallows(s, x)
  {
    hide ReceiverInv, RelayedTypes, Aligned, Interrupted, Swallows, Checked;
    var f := LaneFrom(s, x);
    Interrupts(from, first, f);
    InterruptedTunnel(f, |from.tunnel| + first.cursor);
    PeerOfScanning(from, peer.ep.second, peer.phase);
    assert f.tunnel[..f.tunnelRead] == from.tunnel[..f.tunnelRead];
    AlignedBytes(from.source[..from.taken], from.tunnel, first);
    InterruptionIsSwallowed(s, x, |from.tunnel| + first.cursor);
  }

  lemma {:induction false} TypesOfPrefix(src: seq<byte>, t: seq<byte>)
    requires RelayedTypes(src) && t <= src
    ensures RelayedTypes(t)
  {
    hide Boundary;
    forall q: nat | q < |t| && Boundary(t, 0, q) ensures RelayedType(t[q]) {
      BoundaryExtend(t, src, 0, q);
    }
  }

  /** x leaves passively and holds first-hand bytes. */
  lemma Strands(from: Lane, first: Buf, second: Buf, phase: Phase)
    requires from.taken <= |from.source| && RelayedTypes(from.source) && from.plain == []
    requires Aligned(from.source[..from.taken], from.tunnel, first) && first.cursor == 0
    requires ReceiverInv(from, second, phase, Scanning)
    ensures var f := from.(tunnel := from.tunnel + LEAVE_TLS_COMMAND);
            StrandedLane(f, from.tunnel, first.inner) && ReceiverInv(f, second, phase, Out(Passive))
  {
    hide ReceiverInv, RelayedTypes, Boundary;
    var got, body, f := from.source[..from.taken], from.tunnel, from.(tunnel := from.tunnel + LEAVE_TLS_COMMAND);
    assert got == body + first.inner && body <= got;
    BoundaryRestrict(body, got, 0, |body|);
    BoundaryExtend(got, from.source, 0, |body|);
    TypesOfPrefix(from.source, body);
    CommandAfter(body);
    ReceiverBeforeCommand(from, second, phase, body, Out(Passive));
    assert (body + first.inner) + [] == body + first.inner;
  }

  lemma UncleanReadDoesHarm(s: State, x: LiteTlsEndpointSide, n: nat)
    requires Good(s) && Enabled(s, x, ReadSecond(n)) && !Clean(s, x, ReadSecond(n))
    ensures Harm(Next(s, x, ReadSecond(n)), x)
  {
    hide Inv, SenderInv, ReceiverInv, Aligned, ScanFrom, DrainEval, RelayedTypes, Boundary, Checked, OnWire, Swallows,
         Complete, Final;
    Sides(s, x);
    Sides(s, Peer(x));
    var node, peer, from, to := NodeOf(s, x), NodeOf(s, Peer(x)), LaneFrom(s, x), LaneFrom(s, Peer(x));
    var e, chunk := node.ep, Take(to.tunnel, to.tunnelRead, n);
    var r, b, s' := OnRead(e, Second, chunk), Append(e.second, chunk), Next(s, x, ReadSecond(n));
    var scan := ScanBuf(b, e.seen, DirectionOf(e.side, Second));
    var e2 := e.(second := Buf(b.inner, scan.cursor), seen := scan.seen);
    SenderScanning(from, e.first);
    if scan.verdict == Leave(Active) {
      assert r == GoActive(e2);
      Assoc(from.tunnel, Checked(e.first), LEAVE_TLS_COMMAND);
      OpenLeaveDoesHarm(s', x, from, e.first, peer);
    } else {
      assert r == GoPassive(e2);
      if e2.second.cursor + 6 == |e2.second.inner| {
        if e.first.inner == [] {
          EmptyIsUnchecked(e.first);
          assert from.tunnel + [] == from.tunnel;
          OpenLeaveDoesHarm(s', x, from, e.first, peer);
        } else {
          CommandSeen(s, x, n);
          Strands(from, e.first, peer.ep.second, peer.phase);
          LeftoverDoesHarm(s', x, from.tunnel, e.first.inner);
        }
      }
    }
  }

  lemma EmptyIsUnchecked(b: Buf)
    requires b.inner == []
    ensures Checked(b) == []
  {
  }

  /** A passive leave answers a command that has been written. */
  lemma CommandSeen(s: State, x: LiteTlsEndpointSide, n: nat)
    requires Good(s) && Enabled(s, x, ReadSecond(n))
    requires var e, to := NodeOf(s, x).ep, LaneFrom(s, Peer(x));
             ScanBuf(Append(e.second, Take(to.tunnel, to.tunnelRead, n)), e.seen, DirectionOf(e.side, Second)).verdict
             == Leave(Passive)
    ensures Committed(NodeOf(s, Peer(x)).phase)
  {
    hide Inv, SenderInv, ReceiverInv, Aligned, ScanFrom, OnWire, RelayedTypes, Boundary;
    Sides(s, Peer(x));
    var e, to, peer := NodeOf(s, x).ep, LaneFrom(s, Peer(x)), NodeOf(s, Peer(x));
    SenderOnWire(to, peer.ep.first, peer.phase);
    ReceiverReads(to, e.second, Scanning, peer.phase, n);
    ScanOnWire(to, Append(e.second, Take(to.tunnel, to.tunnelRead, n)), peer.phase, to.tunnelRead + n, e.seen,
               DirectionOf(e.side, Second));
  }

  lemma LeftoverDoesHarm(s: State, x: LiteTlsEndpointSide, body: seq<byte>, lost: seq<byte>)
    requires Stranded(s, x, body, lost) && lost != []
    ensures forall run: Run :: !Complete(Final(s, run), x)
  {
    hide Stranded;
    forall run: Run ensures !Complete(Final(s, run), x) {
      StrandedForGood(s, x, body, lost, run);
      StrandedIsIncomplete(Final(s, run), x, body, lost);
    }
  }

  lemma DeliveredIsTaken(s: State, x: LiteTlsEndpointSide)
    requires Inv(s)
    ensures |LaneFrom(s, x).delivered| <= LaneFrom(s, x).taken && NodeOf(s, Peer(x)).phase != FellBack
    ensures LaneFrom(s, x).tunnelRead <= |LaneFrom(s, x).tunnel|
  {
    hide SenderInv, ReceiverInv;
    InvIsSafe(s);
  }

  /** What a drain delivers has been taken from the origin. */
  lemma DrainedIsTaken(f: Lane, first: Buf, sender: Phase, b: Buf, m: nat)
    requires SenderInv(f, first, sender) && m <= |f.tunnel| && f.plainRead == 0
    requires Aligned(f.tunnel[..m], f.delivered, b)
    requires Committed(sender) ==> |f.tunnel| >= 6 && |f.delivered| + b.cursor <= |f.tunnel| - 6
    ensures |f.delivered + DrainEval(b).emitted| <= f.taken
  {
    hide SenderInv, ReceiverInv, Aligned, DrainEval, OnWire, LaneSafe;
    var d := DrainEval(b);
    var phase := if d.complete then Out(Active) else Awaiting;
    var f' := f.(tunnelRead := m, delivered := f.delivered + d.emitted);
    SenderOnWire(f, first, sender);
    ReceiverDrains(f, m, b, sender);
    SenderIgnoresReader(f, first, sender, m, f.plainRead, f.delivered + d.emitted);
    LaneInvSafe(f', first, d.buf, sender, phase);
    SafeIsTaken(f', sender, phase);
  }

  lemma SafeIsTaken(f: Lane, sender: Phase, receiver: Phase)
    requires LaneSafe(f, sender, receiver)
    ensures |f.delivered| <= f.taken
  {
  }

  /** In a state of the invariant a read to the end of the tunnel does not fall back and delivers
      no more than was taken from the origin, even if it is not clean. */
  lemma CompleteReadIsSound(s: State, x: LiteTlsEndpointSide)
    requires Good(s)
    ensures !Swallows(s, x)
  {
    hide Inv, OnRead, DrainEval, SenderInv, ReceiverInv, Aligned, ScanFrom;
    DeliveredIsTaken(s, x);
    var y, a := Peer(x), CompleteRead(s, Peer(x));
    if Enabled(s, y, a) {
      if Clean(s, y, a) {
        StepKeepsInv(s, y, a);
        DeliveredIsTaken(Next(s, y, a), x);
      } else {
        UncleanCompleteRead(s, x);
      }
    }
  }

  lemma UncleanCompleteRead(s: State, x: LiteTlsEndpointSide)
    requires Good(s) && LaneFrom(s, x).tunnelRead <= |LaneFrom(s, x).tunnel|
    requires Enabled(s, Peer(x), CompleteRead(s, Peer(x))) && !Clean(s, Peer(x), CompleteRead(s, Peer(x)))
    ensures !Swallows(s, x)
  {
    hide Inv, DrainEval, SenderInv, ReceiverInv, Aligned, ScanFrom, OnWire, Checked, CleanRead;
    Sides(s, x);
    Sides(s, Peer(x));
    DeliveredIsTaken(s, x);
    var node, peer, f := NodeOf(s, x), NodeOf(s, Peer(x)), LaneFrom(s, x);
    var n, e := |f.tunnel| - f.tunnelRead, peer.ep;
    var chunk := Take(f.tunnel, f.tunnelRead, n);
    var b := Append(e.second, chunk);
    var r, scan := OnRead(e, Second, chunk), ScanBuf(b, e.seen, DirectionOf(e.side, Second));
    SenderOnWire(f, node.ep.first, node.phase);
    TunnelReadAll(f, e.second, node.phase, e.seen, DirectionOf(e.side, Second));
    UncleanVerdict(e, chunk);
    ReceiverReads(f, e.second, Scanning, node.phase, n);
    ScanOnWire(f, b, node.phase, f.tunnelRead + n, e.seen, DirectionOf(e.side, Second));
    if scan.verdict == Leave(Active) {
      assert r == GoActive(e.(second := Buf(b.inner, scan.cursor), seen := scan.seen));
      DrainedIsTaken(f, node.ep.first, node.phase, Buf(b.inner, scan.cursor), f.tunnelRead + n);
    } else {
      assert r == GoPassive(e.(second := Buf(b.inner, scan.cursor), seen := scan.seen));
      assert f.delivered + [] == f.delivered;
    }
  }

  lemma UncleanVerdict(e: Endpoint, chunk: seq<byte>)
    requires !e.seen.BothDirections? && !CleanRead(e, chunk)
    ensures ScanBuf(Append(e.second, chunk), e.seen, DirectionOf(e.side, Second)).verdict.Leave?
  {
    hide ScanFrom;
  }

  /** The guard is exact: as long as nothing is closed, a read from the tunnel does harm if and
      only if it does not meet the guard. */
  lemma ReadDoesHarmIffUnclean(s: State, x: LiteTlsEndpointSide, n: nat)
    requires Good(s) && Enabled(s, x, ReadSecond(n))
    ensures Harm(Next(s, x, ReadSecond(n)), x) <==> !Clean(s, x, ReadSecond(n))
  {
    hide Inv, Clean, Next, Enabled, Swallows, Complete, Final, CleanRun;
    if Clean(s, x, ReadSecond(n)) {
      var run, s' := Go(s, x, ReadSecond(n));
      NoHarm(s', x);
    } else {
      UncleanReadDoesHarm(s, x, n);
    }
  }

  lemma NoHarm(s: State, x: LiteTlsEndpointSide)
    requires Good(s)
    ensures !Harm(s, x)
  {
    hide Inv, Next, Enabled, Swallows, Complete, Final, CleanRun;
    DeliveredIsTaken(s, Peer(x));
    CompleteReadIsSound(s, x);
    var run := EverythingCanBeDelivered(s);
    assert Complete(Final(s, run), x);
  }

  // ---- whole runs ------------------------------------------------------------------------------------

  /** Runs in which user and target send well-typed records and nothing is closed; the reads are
      arbitrary. */
  ghost predicate LegalRun(s: State, run: Run)
    decreases |run|
  {
    run == [] ||
    var (x, a) := run[0];
    && Enabled(s, x, a) && !a.Close? && (a.Send? ==> RelayedTypes(LaneFrom(s, x).source + a.chunk))
    && LegalRun(Next(s, x, a), run[1..])
  }

  /** No read from the tunnel does harm. */
  ghost predicate HarmlessRun(s: State, run: Run)
    requires LegalRun(s, run)
    decreases |run|
  {
    run == [] ||
    var (x, a) := run[0];
    (a.ReadSecond? ==> !Harm(Next(s, x, a), x)) && HarmlessRun(Next(s, x, a), run[1..])
  }

  lemma {:induction false} CleanIffHarmless(s: State, run: Run)
    requires Good(s) && LegalRun(s, run)
    ensures CleanRun(s, run) <==> HarmlessRun(s, run)
    decreases |run|
  {
    hide Inv, Next, Enabled, Harm, RelayedTypes, CleanRead;
    if run != [] {
      var (x, a) := run[0];
      if a.ReadSecond? {
        ReadDoesHarmIffUnclean(s, x, a.n);
      }
      if Clean(s, x, a) {
        var r, s' := Go(s, x, a);
        CleanIffHarmless(s', run[1..]);
      }
    }
  }

  /** Of the runs in which user and target send well-typed records and nothing is closed, exactly
      the clean ones do no harm; each of these is safe throughout and can be continued until
      everything has been delivered. */
  lemma LeaveIsSoundIffClean(run: Run)
    requires LegalRun(INITIAL, run)
    ensures CleanRun(INITIAL, run) <==> HarmlessRun(INITIAL, run)
    ensures HarmlessRun(INITIAL, run) ==>
              && Safe(Final(INITIAL, run))
              && exists more: Run :: CleanRun(Final(INITIAL, run), more)
                                     && Complete(Final(Final(INITIAL, run), more), ClientSide)
                                     && Complete(Final(Final(INITIAL, run), more), ServerSide)
  {
    hide Inv, Next, Enabled, Harm, HarmlessRun, Safe, Complete;
    InitialInv();
    CleanIffHarmless(INITIAL, run);
    if CleanRun(INITIAL, run) {
      EveryRunIsSafe(run);
      RunKeepsInv(INITIAL, run);
      StaysOpen(INITIAL, run);
      var more := EverythingCanBeDelivered(Final(INITIAL, run));
    }
  }

  lemma {:induction false} StaysOpen(s: State, run: Run)
    requires !s.client.closed && !s.server.closed && LegalRun(s, run)
    ensures !Final(s, run).client.closed && !Final(s, run).server.closed
    decreases |run|
  {
    hide OnRead, DrainEval, Take, RelayedTypes;
    if run != [] {
      StaysOpen(Next(s, run[0].0, run[0].1), run[1..]);
    }
  }
}
