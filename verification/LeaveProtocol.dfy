/** Two Lite-TLS endpoints between a user and a target.  Each endpoint relays what it reads from
    its own peer through the tunnel; both leave the tunnel in mid-stream and continue over the
    plain connection beneath it. */
module LeaveProtocol {
  import opened Bytes
  import opened TlsRecords
  import opened TlsRelayBuffers
  import opened LiteTlsStreams

  // ---- states ----------------------------------------------------------------------------------

  datatype Phase = Scanning | Awaiting | Out(mode: LeaveTlsMode) | Copying(mode: LeaveTlsMode) | FellBack

  datatype Node = Node(ep: Endpoint, phase: Phase, closed: bool)

  /** The bytes of one direction: what its origin has sent and how much of that the first
      endpoint has read; what went into the tunnel, then into the plain connection beneath it,
      and how much of both the second endpoint has read; what reached the destination. */
  datatype Lane = Lane(source: seq<byte>, taken: nat,
                       tunnel: seq<byte>, tunnelRead: nat,
                       plain: seq<byte>, plainRead: nat,
                       delivered: seq<byte>)

  datatype State = State(client: Node, server: Node, up: Lane, down: Lane)

  function Peer(x: LiteTlsEndpointSide): LiteTlsEndpointSide {
    if x.ClientSide? then ServerSide else ClientSide
  }

  function NodeOf(s: State, x: LiteTlsEndpointSide): Node {
    if x.ClientSide? then s.client else s.server
  }

  /** The direction in which x is the first endpoint. */
  function LaneFrom(s: State, x: LiteTlsEndpointSide): Lane {
    if x.ClientSide? then s.up else s.down
  }

  /** Replaces x's node, the direction it feeds and the direction it drains. */
  function Update(x: LiteTlsEndpointSide, node: Node, peer: Node, from: Lane, to: Lane): State {
    if x.ClientSide? then State(node, peer, from, to) else State(peer, node, to, from)
  }

  /** Both endpoints just past the client hello; the histories start there. */
  const INITIAL_LANE := Lane([], 0, [], 0, [], 0, [])

  function InitialNode(x: LiteTlsEndpointSide): Node {
    Node(Endpoint(x, Buf([], 0), Buf([], 0), Nothing), Scanning, false)
  }

  const INITIAL := State(InitialNode(ClientSide), InitialNode(ServerSide), INITIAL_LANE, INITIAL_LANE)

  // ---- steps -----------------------------------------------------------------------------------

  datatype Action =
    | Send(chunk: seq<byte>)        // the user (or target) sends
    | ReadFirst(n: nat)             // scan loop, from the user (or target)
    | ReadSecond(n: nat)            // scan loop, from the tunnel
    | ReadToLeave(n: nat)           // an active endpoint waiting for the command
    | Flush(n: nat)                 // after leaving the tunnel
    | CopyOut(n: nat)               // plain relaying of first-hand bytes
    | CopyIn(n: nat)                // plain relaying of second-hand bytes
    | Close                         // end of stream, I/O error or timeout

  function PhaseAfter(outcome: Outcome): Phase {
    match outcome
    case Continue => Scanning
    case NotTls => FellBack
    case Draining => Awaiting
    case LeftTls(mode) => Out(mode)
  }

  function Take(s: seq<byte>, from: nat, n: nat): seq<byte>
    requires from + n <= |s|
  {
    s[from..from + n]
  }

  /** What the code can do next at endpoint x. */
  predicate Enabled(s: State, x: LiteTlsEndpointSide, a: Action) {
    var node, from, to := NodeOf(s, x), LaneFrom(s, x), LaneFrom(s, Peer(x));
    match a
    case Send(_) => true
    case ReadFirst(n) =>
      !node.closed && node.phase.Scanning? && !node.ep.seen.BothDirections? && n > 0 && from.taken + n <= |from.source|
    case ReadSecond(n) =>
      !node.closed && node.phase.Scanning? && !node.ep.seen.BothDirections? && n > 0 && to.tunnelRead + n <= |to.tunnel|
    case ReadToLeave(n) =>
      !node.closed && node.phase.Awaiting? && n > 0 && to.tunnelRead + n <= |to.tunnel|
    case Flush(n) =>
      && !node.closed && node.phase.Out? && to.plainRead + n <= |to.plain|
      && (n > 0 <==> node.phase.mode.Passive? && node.ep.second.inner != [])
    case CopyOut(n) =>
      !node.closed && node.phase.Copying? && n > 0 && from.taken + n <= |from.source|
    case CopyIn(n) =>
      !node.closed && node.phase.Copying? && n > 0 && to.plainRead + n <= |to.plain|
    case Close => true
  }

  function React(x: LiteTlsEndpointSide, node: Node, peer: Node, from: Lane, to: Lane, r: Reaction): State {
    Update(x, node.(ep := r.ep, phase := PhaseAfter(r.outcome)), peer,
           from.(tunnel := from.tunnel + r.toSecond), to.(delivered := to.delivered + r.toFirst))
  }

  function Next(s: State, x: LiteTlsEndpointSide, a: Action): State
    requires Enabled(s, x, a)
  {
    var node, peer, from, to := NodeOf(s, x), NodeOf(s, Peer(x)), LaneFrom(s, x), LaneFrom(s, Peer(x));
    match a
    case Send(chunk) => Update(x, node, peer, from.(source := from.source + chunk), to)
    case ReadFirst(n) =>
      React(x, node, peer, from.(taken := from.taken + n), to,
            OnRead(node.ep, First, Take(from.source, from.taken, n)))
    case ReadSecond(n) =>
      React(x, node, peer, from, to.(tunnelRead := to.tunnelRead + n),
            OnRead(node.ep, Second, Take(to.tunnel, to.tunnelRead, n)))
    case ReadToLeave(n) =>
      var d := DrainEval(Append(node.ep.second, Take(to.tunnel, to.tunnelRead, n)));
      Update(x, node.(ep := node.ep.(second := d.buf), phase := if d.complete then Out(Active) else Awaiting), peer,
             from, to.(tunnelRead := to.tunnelRead + n, delivered := to.delivered + d.emitted))
    case Flush(n) =>
      if node.phase.mode.Active? then
        Update(x, node.(ep := node.ep.(first := Buf([], 0)), phase := Copying(Active)), peer,
               from.(plain := from.plain + node.ep.first.inner), to)
      else
        Update(x, node.(ep := node.ep.(second := Buf([], 0)), phase := Copying(Passive)), peer, from,
               to.(plainRead := to.plainRead + n,
                   delivered := to.delivered + (node.ep.second.inner + Take(to.plain, to.plainRead, n))))
    case CopyOut(n) =>
      Update(x, node, peer,
             from.(taken := from.taken + n, plain := from.plain + Take(from.source, from.taken, n)), to)
    case CopyIn(n) =>
      Update(x, node, peer, from,
             to.(plainRead := to.plainRead + n, delivered := to.delivered + Take(to.plain, to.plainRead, n)))
    case Close => Update(x, node.(closed := true), peer, from, to)
  }

  // ---- hypotheses ------------------------------------------------------------------------------

  predicate Committed(phase: Phase) {
    !phase.Scanning?
  }

  /** The length of the part of the tunnel bytes that precedes the leave command, if any. */
  function BodyLen(f: Lane, sender: Phase): nat {
    if Committed(sender) && |f.tunnel| >= 6 then |f.tunnel| - 6 else |f.tunnel|
  }

  /** The guard under which a read from the tunnel keeps the protocol sound.  An endpoint that
      goes active writes its command at a record boundary; one that goes passive holds no
      first-hand bytes, is at a record boundary, and has the whole command before it. */
  predicate CleanRead(e: Endpoint, chunk: seq<byte>)
    requires !e.seen.BothDirections?
  {
    var e1 := SetBuf(e, Second, Append(e.second, chunk));
    var e2 := Scanned(e1, Second);
    match ScanHand(e1, Second).verdict
    case Leave(Active) => e2.first.cursor <= |e2.first.inner|
    case Leave(Passive) => e2.first == Buf([], 0) && e2.second.cursor + 6 == |e2.second.inner|
    case _ => true
  }

  /** What the code relies on: user and target send records of the four TLS types, and the guard
      above. */
  ghost predicate Clean(s: State, x: LiteTlsEndpointSide, a: Action)
    requires Enabled(s, x, a)
  {
    var node, from, to := NodeOf(s, x), LaneFrom(s, x), LaneFrom(s, Peer(x));
    match a
    case Send(chunk) => RelayedTypes(from.source + chunk)
    case ReadSecond(n) => CleanRead(node.ep, Take(to.tunnel, to.tunnelRead, n))
    case _ => true
  }

  // ---- the invariant ---------------------------------------------------------------------------

  /** The sending half of a direction. */
  ghost predicate SenderInv(f: Lane, first: Buf, phase: Phase) {
    && f.taken <= |f.source| && RelayedTypes(f.source) && !phase.FellBack?
    && var got := f.source[..f.taken];
       if phase.Scanning? then
         f.plain == [] && Aligned(got, f.tunnel, first) && (first.inner == [] || first.cursor == 0)
       else
         && CommandIsLast(f.tunnel, true)
         && got == (SentBody(f.tunnel, true) + f.plain) + first.inner
         && Boundary(f.source, 0, |f.tunnel| - 6)
         && (phase.Copying? ==> first.inner == [])
         && (!phase.Copying? ==> f.plain == [])
         && ((phase.Out? || phase.Copying?) && phase.mode.Passive? ==> first.inner == [])
  }

  /** The receiving half of a direction; sender is the phase of the other endpoint. */
  ghost predicate ReceiverInv(f: Lane, second: Buf, phase: Phase, sender: Phase) {
    && f.tunnelRead <= |f.tunnel| && f.plainRead <= |f.plain| && !phase.FellBack?
    && (Committed(sender) ==> |f.tunnel| >= 6)
    && var got, body := f.tunnel[..f.tunnelRead], f.tunnel[..BodyLen(f, sender)];
       match phase
       case Scanning => f.plainRead == 0 && Receiving(f, second, sender) && f.tunnelRead <= |body|
       case Awaiting =>
         && f.plainRead == 0 && Receiving(f, second, sender)
         && (Committed(sender) ==> f.tunnelRead < |f.tunnel|)
       case Out(mode) =>
         && Committed(sender) && f.tunnelRead == |f.tunnel| && f.plainRead == 0
         && f.delivered + second.inner == body
         && (mode.Active? ==> second.inner == [])
       case Copying(_) =>
         && Committed(sender) && f.tunnelRead == |f.tunnel|
         && f.delivered == body + f.plain[..f.plainRead]
       case FellBack => false
  }

  ghost predicate Receiving(f: Lane, second: Buf, sender: Phase)
    requires f.tunnelRead <= |f.tunnel|
  {
    && Aligned(f.tunnel[..f.tunnelRead], f.delivered, second)
    && (Committed(sender) ==> |f.delivered| + second.cursor <= BodyLen(f, sender))
  }

  predicate IsPassive(phase: Phase) {
    (phase.Out? || phase.Copying?) && phase.mode.Passive?
  }

  ghost predicate NodeInv(node: Node, x: LiteTlsEndpointSide) {
    node.ep.side == x && (node.phase.Scanning? <==> !node.ep.seen.BothDirections? && !IsPassive(node.phase))
  }

  /** The invariant from the point of view of x: its node, its peer, the lane it feeds and the
      lane it drains. */
  ghost predicate InvAt(x: LiteTlsEndpointSide, node: Node, peer: Node, from: Lane, to: Lane) {
    && SenderInv(from, node.ep.first, node.phase) && ReceiverInv(from, peer.ep.second, peer.phase, node.phase)
    && SenderInv(to, peer.ep.first, peer.phase) && ReceiverInv(to, node.ep.second, node.phase, peer.phase)
    && NodeInv(node, x) && NodeInv(peer, Peer(x))
    && !(IsPassive(node.phase) && IsPassive(peer.phase))
  }

  ghost predicate Inv(s: State) {
    InvAt(ClientSide, s.client, s.server, s.up, s.down)
  }

  lemma InvOf(x: LiteTlsEndpointSide, node: Node, peer: Node, from: Lane, to: Lane)
    ensures Inv(Update(x, node, peer, from, to)) <==> InvAt(x, node, peer, from, to)
  {
    hide SenderInv, ReceiverInv;
  }

  lemma InitialInv()
    ensures Inv(INITIAL)
  {
  }

  // ---- records on the wire ---------------------------------------------------------------------

  /** Complete records of the four relayed types from p up to b. */
  ghost predicate WholeRecords(s: seq<byte>, p: nat, b: nat)
    decreases b - p
  {
    p == b || (p < b && p + 5 <= |s| && RelayedType(s[p]) && WholeRecords(s, RecordEnd(s, p), b))
  }

  lemma {:induction false} WholeFromTypes(src: seq<byte>, t: seq<byte>, p: nat, b: nat)
    requires RelayedTypes(src) && Boundary(src, 0, p) && Boundary(src, p, b)
    requires b <= |src| && b <= |t| && src[..b] == t[..b]
    ensures WholeRecords(t, p, b)
    decreases b - p
  {
    if p != b {
      assert forall i :: 0 <= i < b ==> src[i] == src[..b][i] && t[i] == t[..b][i];
      BoundaryNext(src, 0, p);
      WholeFromTypes(src, t, RecordEnd(src, p), b);
    }
  }

  lemma {:induction false} WholeNoLeave(s: seq<byte>, p: nat, b: nat)
    requires WholeRecords(s, p, b)
    ensures NoLeaveBefore(s, p, b)
    decreases b - p
  {
    if p != b {
      WholeNoLeave(s, RecordEnd(s, p), b);
    }
  }

  /** A scan never gets past a leave command that follows complete records. */
  lemma {:induction false} ScanWhole(s: seq<byte>, p: nat, b: nat, seen: Seen0x17, dir: Direction)
    requires !seen.BothDirections? && WholeRecords(s, p, b) && b < |s| && s[b] == 0xff
    ensures var r := ScanFrom(s, p, seen, dir);
            r.cursor <= b && (r.verdict == Leave(Active) || (r.verdict == Leave(Passive) && r.cursor == b))
    decreases b - p
  {
    if p != b {
      var seen' := if s[p] == 0x17 then Witness(seen, dir) else seen;
      WholeWithin(s, RecordEnd(s, p), b);
      if !seen'.BothDirections? {
        ScanWhole(s, RecordEnd(s, p), b, seen', dir);
      }
    }
  }

  lemma WholeWithin(s: seq<byte>, p: nat, b: nat)
    requires WholeRecords(s, p, b)
    ensures p <= b
  {
  }

  /** A boundary of a prefix of well-typed bytes does not carry the type 0xff. */
  lemma TypeAt(src: seq<byte>, t: seq<byte>, q: nat)
    requires RelayedTypes(src) && t <= src && Boundary(t, 0, q) && q < |t|
    ensures RelayedType(t[q])
  {
    BoundaryExtend(t, src, 0, q);
  }

  // ---- the sending half ------------------------------------------------------------------------

  lemma SenderTakes(f: Lane, first: Buf, n: nat, seen: Seen0x17, dir: Direction)
    requires SenderInv(f, first, Scanning) && f.taken + n <= |f.source| && !seen.BothDirections?
    ensures var chunk := Take(f.source, f.taken, n);
            var r := ScanBuf(Append(first, chunk), seen, dir);
            && Aligned(f.source[..f.taken + n], f.tunnel, Buf(first.inner + chunk, r.cursor))
            && r.verdict != Invalid && r.verdict != Leave(Passive)
            && (r.verdict == Leave(Active) ==> r.cursor < |first.inner + chunk|)
  {
    hide ScanFrom, Boundary, RelayedTypes, SenderInv, Aligned;
    SenderScanning(f, first);
    var chunk, got := Take(f.source, f.taken, n), f.source[..f.taken];
    var b1 := Append(first, chunk);
    AlignedAppend(got, f.tunnel, first, chunk);
    assert got + chunk == f.source[..f.taken + n];
    AlignedScan(got + chunk, f.tunnel, b1, seen, dir);
    ScanMeaning(b1.inner, b1.cursor, seen, dir);
    var r := ScanBuf(b1, seen, dir);
    if r.cursor < |b1.inner| {
      TypeInBuffer(f.source, got + chunk, f.tunnel, Buf(b1.inner, r.cursor));
    }
  }

  lemma TypeInBuffer(src: seq<byte>, got: seq<byte>, emitted: seq<byte>, b: Buf)
    requires RelayedTypes(src) && got <= src && Aligned(got, emitted, b) && b.cursor < |b.inner|
    ensures RelayedType(b.inner[b.cursor])
  {
    hide Boundary, RelayedTypes;
    TypeAt(src, got, |emitted| + b.cursor);
    assert got[|emitted| + b.cursor] == b.inner[b.cursor];
  }

  lemma CommandAfter(body: seq<byte>)
    ensures var t := body + LEAVE_TLS_COMMAND;
            && |t| == |body| + 6 && CommandIsLast(t, true) && SentBody(t, true) == body
            && t[..|t| - 6] == body
  {
  }

  lemma PrefixSlice(source: seq<byte>, n: nat, body: seq<byte>, rest: seq<byte>)
    requires n <= |source| && source[..n] == body + rest
    ensures |body| <= |source| && body == source[..|body|]
  {
    assert (body + rest)[..|body|] == body;
  }

  lemma AlignedCut(got: seq<byte>, emitted: seq<byte>, b: Buf)
    requires Aligned(got, emitted, b) && b.cursor <= |b.inner|
    ensures var body := emitted + Checked(b);
            got == body + Pop(b).inner && Boundary(got, 0, |body|)
  {
    AlignedPop(got, emitted, b);
  }

  /** Writing the leave command after the checked first-hand bytes. */
  lemma SenderCommits(f: Lane, first: Buf, phase: Phase)
    requires f.taken <= |f.source| && RelayedTypes(f.source) && f.plain == []
    requires Aligned(f.source[..f.taken], f.tunnel, first) && first.cursor <= |first.inner|
    requires phase == Awaiting || phase == Out(Active) || (phase == Out(Passive) && first == Buf([], 0))
    ensures SenderInv(f.(tunnel := f.tunnel + (Checked(first) + LEAVE_TLS_COMMAND)), Pop(first), phase)
    ensures f.tunnel + Checked(first) <= f.source && Boundary(f.source, 0, |f.tunnel + Checked(first)|)
    ensures f.tunnel + (Checked(first) + LEAVE_TLS_COMMAND) == (f.tunnel + Checked(first)) + LEAVE_TLS_COMMAND
  {
    hide RelayedTypes, Boundary, Aligned, Checked, Pop, SenderInv;
    var got, body, rest := f.source[..f.taken], f.tunnel + Checked(first), Pop(first).inner;
    AlignedCut(got, f.tunnel, first);
    PrefixSlice(f.source, f.taken, body, rest);
    BoundaryExtend(got, f.source, 0, |body|);
    Assoc(f.tunnel, Checked(first), LEAVE_TLS_COMMAND);
    if phase == Out(Passive) {
      NothingToPop(first);
    }
    SenderAfterCommand(f.(tunnel := body + LEAVE_TLS_COMMAND), body, Pop(first), phase);
  }

  lemma SenderAfterCommand(f: Lane, body: seq<byte>, first: Buf, phase: Phase)
    requires f.taken <= |f.source| && RelayedTypes(f.source) && f.plain == []
    requires f.source[..f.taken] == body + first.inner && Boundary(f.source, 0, |body|)
    requires f.tunnel == body + LEAVE_TLS_COMMAND
    requires phase == Awaiting || phase == Out(Active) || (phase == Out(Passive) && first.inner == [])
    ensures SenderInv(f, first, phase)
  {
    hide RelayedTypes, Boundary;
    CommandAfter(body);
    assert body + [] == body;
  }

  lemma NothingToPop(b: Buf)
    requires b == Buf([], 0)
    ensures Pop(b) == b && Checked(b) == []
  {
  }

  lemma SenderSends(f: Lane, first: Buf, phase: Phase, chunk: seq<byte>)
    requires SenderInv(f, first, phase) && RelayedTypes(f.source + chunk)
    ensures SenderInv(f.(source := f.source + chunk), first, phase)
  {
    hide RelayedTypes;
    assert (f.source + chunk)[..f.taken] == f.source[..f.taken];
    if Committed(phase) {
      BoundaryExtend(f.source, f.source + chunk, 0, |f.tunnel| - 6);
    }
  }

  // ---- the receiving half ----------------------------------------------------------------------

  /** More bytes in the tunnel do not disturb the receiver. */
  lemma ReceiverWaits(f: Lane, second: Buf, phase: Phase, more: seq<byte>)
    requires ReceiverInv(f, second, phase, Scanning)
    ensures ReceiverInv(f.(tunnel := f.tunnel + more), second, phase, Scanning)
  {
    hide Aligned;
    assert (f.tunnel + more)[..f.tunnelRead] == f.tunnel[..f.tunnelRead];
  }

  lemma ReceiverCursor(got: seq<byte>, delivered: seq<byte>, second: Buf, source: seq<byte>, body: nat)
    requires Aligned(got, delivered, second) && got <= source && |got| <= body
    requires Boundary(source, 0, body)
    ensures |delivered| + second.cursor <= body
  {
    BoundaryNoJump(got, source, 0, |delivered| + second.cursor, body);
  }

  /** The receiver's cursor never lies beyond the end of the records when the command is
      written. */
  lemma ReceiverBeforeCommand(f: Lane, second: Buf, phase: Phase, body: seq<byte>, sender: Phase)
    requires ReceiverInv(f, second, phase, Scanning) && Committed(sender)
    requires f.tunnel <= body <= f.source && Boundary(f.source, 0, |body|)
    ensures ReceiverInv(f.(tunnel := body + LEAVE_TLS_COMMAND), second, phase, sender)
  {
    hide Boundary, Aligned;
    var got, tunnel' := f.tunnel[..f.tunnelRead], body + LEAVE_TLS_COMMAND;
    assert tunnel'[..f.tunnelRead] == body[..f.tunnelRead] == got;
    ReceiverCursor(got, f.delivered, second, f.source, |body|);
  }

  /** What the sending half guarantees about the bytes in the tunnel: they are source bytes,
      followed, once the sender is committed, by the leave command at a record boundary. */
  ghost predicate OnWire(f: Lane, sender: Phase) {
    && RelayedTypes(f.source)
    && if Committed(sender) then
         && CommandIsLast(f.tunnel, true)
         && SentBody(f.tunnel, true) <= f.source && Boundary(f.source, 0, |f.tunnel| - 6)
       else f.tunnel <= f.source
  }

  lemma SenderOnWire(f: Lane, first: Buf, sender: Phase)
    requires SenderInv(f, first, sender)
    ensures OnWire(f, sender)
  {
    hide RelayedTypes, Boundary;
    if Committed(sender) {
      var body := SentBody(f.tunnel, true);
      Assoc(body, f.plain, first.inner);
      PrefixSlice(f.source, f.taken, body, f.plain + first.inner);
    } else {
      PrefixSlice(f.source, f.taken, f.tunnel, first.inner);
    }
  }

  /** Before the command: complete records from the receiver's cursor p on, then the command. */
  lemma RecordsAhead(f: Lane, sender: Phase, m: nat, p: nat)
    requires OnWire(f, sender) && Committed(sender) && m <= |f.tunnel|
    requires Boundary(f.tunnel[..m], 0, p) && p <= |f.tunnel| - 6
    ensures var b := |f.tunnel| - 6;
            WholeRecords(f.tunnel, p, b) && f.tunnel[b] == 0xff && RecordEnd(f.tunnel, b) == |f.tunnel|
  {
    hide RelayedTypes;
    var b := |f.tunnel| - 6;
    var body, got := f.tunnel[..b], f.tunnel[..m];
    if m <= b {
      assert got == body[..m];
      BoundaryExtend(got, body, 0, p);
    } else {
      assert body == got[..b];
      BoundaryRestrict(body, got, 0, p);
    }
    BoundaryExtend(body, f.source, 0, p);
    BoundarySplit(f.source, 0, p, b);
    assert f.source[..b] == body;
    WholeFromTypes(f.source, f.tunnel, p, b);
    CommandBytes(f.tunnel);
  }

  lemma CommandBytes(t: seq<byte>)
    requires CommandIsLast(t, true)
    ensures var b := |t| - 6;
            t[b] == 0xff && RecordEnd(t, b) == |t|
  {
    var c, b := t[|t| - 6..], |t| - 6;
    assert c[0] == t[b] && c[3] == t[b + 3] && c[4] == t[b + 4];
  }

  /** A scan of what has been read: it finds no foreign record, it does not run out of bytes
      inside the command, and it reports a passive leave only where the command begins. */
  lemma ScanOnWire(f: Lane, b: Buf, sender: Phase, m: nat, seen: Seen0x17, dir: Direction)
    requires OnWire(f, sender) && !seen.BothDirections? && m <= |f.tunnel|
    requires Aligned(f.tunnel[..m], f.delivered, b)
    requires Committed(sender) ==> |f.delivered| + b.cursor <= |f.tunnel| - 6
    ensures var r := ScanBuf(b, seen, dir);
            var p := |f.delivered| + r.cursor;
            && Aligned(f.tunnel[..m], f.delivered, Buf(b.inner, r.cursor))
            && (Committed(sender) ==> p <= |f.tunnel| - 6)
            && match r.verdict
               case Incomplete => Committed(sender) ==> m <= |f.tunnel| - 6
               case Invalid => false
               case Leave(Active) => true
               case Leave(Passive) =>
                 Committed(sender) && p == |f.tunnel| - 6 && r.cursor + (m - p) == |b.inner| && p < m
  {
    hide ScanFrom, Boundary, RelayedTypes, WholeRecords;
    var got, r, p0 := f.tunnel[..m], ScanBuf(b, seen, dir), |f.delivered| + b.cursor;
    var p := |f.delivered| + r.cursor;
    AlignedScan(got, f.delivered, b, seen, dir);
    ScanMeaning(got, p0, seen, dir);
    if Committed(sender) && m > |f.tunnel| - 6 {
      var e := |f.tunnel| - 6;
      RecordsAhead(f, sender, m, p0);
      WholeInPrefix(f.tunnel, got, p0, e);
      assert got[e] == f.tunnel[e];
      ScanWhole(got, p0, e, seen, dir);
    } else {
      TypesOnWire(f, sender, m, p);
    }
  }

  /** Without the command, boundaries of what has been read carry relayed types and stay
      before the command. */
  lemma TypesOnWire(f: Lane, sender: Phase, m: nat, p: nat)
    requires OnWire(f, sender) && m <= |f.tunnel| && Boundary(f.tunnel[..m], 0, p)
    requires Committed(sender) ==> m <= |f.tunnel| - 6
    ensures p < m ==> RelayedType(f.tunnel[..m][p])
    ensures Committed(sender) ==> p <= |f.tunnel| - 6
  {
    hide RelayedTypes;
    var got := f.tunnel[..m];
    assert got <= f.source;
    if p < m {
      TypeAt(f.source, got, p);
    }
    if Committed(sender) {
      BoundaryNoJump(got, f.source, 0, p, |f.tunnel| - 6);
    }
  }

  lemma AlignedDrain(received: seq<byte>, emitted: seq<byte>, b: Buf)
    requires Aligned(received, emitted, b) && !DrainEval(b).complete
    ensures var d := DrainEval(b);
            Aligned(received, emitted + d.emitted, d.buf)
            && |emitted + d.emitted| + d.buf.cursor == |emitted| + SkipRecords(b.inner, b.cursor)
  {
    var q := SkipRecords(b.inner, b.cursor);
    SkipMeaning(b.inner, b.cursor);
    BoundaryShift(emitted, b.inner, b.cursor, q);
    BoundaryTrans(received, 0, |emitted| + b.cursor, |emitted| + q);
    AlignedPop(received, emitted, Buf(b.inner, q));
  }

  lemma DrainUncommitted(f: Lane, b: Buf, sender: Phase, m: nat)
    requires OnWire(f, sender) && m <= |f.tunnel| && !Committed(sender)
    requires Aligned(f.tunnel[..m], f.delivered, b)
    ensures !DrainEval(b).complete
  {
    hide RelayedTypes, Boundary, RecordEnd;
    var got, q := f.tunnel[..m], SkipRecords(b.inner, b.cursor);
    SkipMeaning(b.inner, b.cursor);
    BoundaryShift(f.delivered, b.inner, b.cursor, q);
    BoundaryTrans(got, 0, |f.delivered| + b.cursor, |f.delivered| + q);
    TypesOnWire(f, sender, m, |f.delivered| + q);
    if q < |b.inner| {
      assert got[|f.delivered| + q] == b.inner[q];
    }
  }

  lemma DrainCommitted(f: Lane, b: Buf, sender: Phase, m: nat)
    requires OnWire(f, sender) && m <= |f.tunnel| && Committed(sender)
    requires Aligned(f.tunnel[..m], f.delivered, b)
    requires |f.delivered| + b.cursor <= |f.tunnel| - 6
    ensures var d := DrainEval(b);
            if m == |f.tunnel|
            then d.complete && d.buf == Buf([], 0) && f.delivered + d.emitted == f.tunnel[..|f.tunnel| - 6]
            else !d.complete && |f.delivered + d.emitted| + d.buf.cursor <= |f.tunnel| - 6
  {
    hide RelayedTypes, Boundary, WholeRecords, OnWire, DrainEval, RecordEnd;
    var z, k, e, p := f.tunnel, |f.delivered|, |f.tunnel| - 6, |f.delivered| + b.cursor;
    assert b.inner == z[k..m] && f.delivered == z[..k];
    RecordsAhead(f, sender, m, p);
    WholeNoLeave(z, p, e);
    DrainStep(z, k, m, b, e);
    assert z[..k] + z[k..e] == z[..e];
  }

  /** Draining what has been read: complete exactly when the whole command has been read, and
      then exactly the records before it have been delivered. */
  lemma DrainOnWire(f: Lane, b: Buf, sender: Phase, m: nat)
    requires OnWire(f, sender) && m <= |f.tunnel|
    requires Aligned(f.tunnel[..m], f.delivered, b)
    requires Committed(sender) ==> |f.delivered| + b.cursor <= |f.tunnel| - 6
    ensures var d := DrainEval(b);
            if Committed(sender) && m == |f.tunnel|
            then d.complete && d.buf == Buf([], 0) && f.delivered + d.emitted == f.tunnel[..|f.tunnel| - 6]
            else
              && !d.complete
              && Aligned(f.tunnel[..m], f.delivered + d.emitted, d.buf)
              && (Committed(sender) ==> |f.delivered + d.emitted| + d.buf.cursor <= |f.tunnel| - 6)
  {
    hide OnWire, DrainEval, Aligned, RecordEnd;
    if Committed(sender) {
      DrainCommitted(f, b, sender, m);
    } else {
      DrainUncommitted(f, b, sender, m);
    }
    if !DrainEval(b).complete {
      AlignedDrain(f.tunnel[..m], f.delivered, b);
    }
  }

  // ---- the effect of each kind of step on each half ----------------------------------------------

  /** The sending half does not look at what has been read from the lane. */
  lemma SenderIgnoresReader(f: Lane, first: Buf, phase: Phase, tunnelRead: nat, plainRead: nat, delivered: seq<byte>)
    requires SenderInv(f, first, phase)
    ensures SenderInv(f.(tunnelRead := tunnelRead, plainRead := plainRead, delivered := delivered), first, phase)
  {
    hide RelayedTypes, Boundary;
  }

  /** The receiving half does not look at the source. */
  lemma ReceiverIgnoresSource(f: Lane, second: Buf, phase: Phase, sender: Phase, source: seq<byte>, taken: nat)
    requires ReceiverInv(f, second, phase, sender)
    ensures ReceiverInv(f.(source := source, taken := taken), second, phase, sender)
  {
    hide Boundary, Aligned;
  }

  /** Plain bytes are only added, and only once the sender is committed. */
  lemma ReceiverPlainGrows(f: Lane, second: Buf, phase: Phase, sender: Phase, more: seq<byte>, sender': Phase)
    requires ReceiverInv(f, second, phase, sender) && Committed(sender) && Committed(sender')
    ensures ReceiverInv(f.(plain := f.plain + more), second, phase, sender')
  {
    hide Aligned;
    assert (f.plain + more)[..f.plainRead] == f.plain[..f.plainRead];
  }

  lemma SenderRelays(f: Lane, n: nat, first: Buf)
    requires f.taken + n <= |f.source| && RelayedTypes(f.source) && f.plain == []
    requires Aligned(f.source[..f.taken + n], f.tunnel, first)
    ensures SenderInv(f.(taken := f.taken + n, tunnel := f.tunnel + Checked(first)), Pop(first), Scanning)
  {
    hide RelayedTypes, Boundary;
    AlignedPop(f.source[..f.taken + n], f.tunnel, first);
  }

  /** Facts that a scanning sender offers. */
  lemma SenderScanning(f: Lane, first: Buf)
    requires SenderInv(f, first, Scanning)
    ensures f.taken <= |f.source| && RelayedTypes(f.source) && f.plain == []
    ensures Aligned(f.source[..f.taken], f.tunnel, first)
    ensures first.inner == [] || first.cursor == 0
  {
    hide RelayedTypes, Boundary;
  }

  lemma ReceiverReads(f: Lane, second: Buf, phase: Phase, sender: Phase, n: nat)
    requires ReceiverInv(f, second, phase, sender) && (phase == Scanning || phase == Awaiting)
    requires f.tunnelRead + n <= |f.tunnel|
    ensures f.plainRead == 0
    ensures Aligned(f.tunnel[..f.tunnelRead + n], f.delivered, Append(second, Take(f.tunnel, f.tunnelRead, n)))
    ensures Committed(sender) ==> |f.tunnel| >= 6 && |f.delivered| + second.cursor <= |f.tunnel| - 6
    ensures phase == Scanning && Committed(sender) ==> f.tunnelRead <= |f.tunnel| - 6
  {
    hide Boundary;
    var got, chunk := f.tunnel[..f.tunnelRead], Take(f.tunnel, f.tunnelRead, n);
    AlignedAppend(got, f.delivered, second, chunk);
    assert got + chunk == f.tunnel[..f.tunnelRead + n];
  }

  lemma ReceiverRelays(f: Lane, m: nat, second: Buf, sender: Phase)
    requires OnWire(f, sender) && m <= |f.tunnel| && f.plainRead == 0
    requires Aligned(f.tunnel[..m], f.delivered, second)
    requires Committed(sender) ==> |f.delivered| + second.cursor <= |f.tunnel| - 6 && m <= |f.tunnel| - 6
    ensures ReceiverInv(f.(tunnelRead := m, delivered := f.delivered + Checked(second)), Pop(second), Scanning, sender)
  {
    hide Boundary, RelayedTypes;
    AlignedPop(f.tunnel[..m], f.delivered, second);
  }

  /** The receiver after a drain evaluation: off the tunnel if and only if the command has been
      read completely. */
  lemma ReceiverDrains(f: Lane, m: nat, b: Buf, sender: Phase)
    requires OnWire(f, sender) && m <= |f.tunnel| && f.plainRead == 0
    requires Aligned(f.tunnel[..m], f.delivered, b)
    requires Committed(sender) ==> |f.tunnel| >= 6 && |f.delivered| + b.cursor <= |f.tunnel| - 6
    ensures var d := DrainEval(b);
            && (d.complete <==> Committed(sender) && m == |f.tunnel|)
            && ReceiverInv(f.(tunnelRead := m, delivered := f.delivered + d.emitted), d.buf,
                           if d.complete then Out(Active) else Awaiting, sender)
  {
    hide Boundary, OnWire, DrainEval, Aligned;
    DrainOnWire(f, b, sender, m);
    var d := DrainEval(b);
    if d.complete {
      assert (f.delivered + d.emitted) + [] == f.delivered + d.emitted;
    }
  }

  lemma ReceiverLeaves(f: Lane, m: nat, second: Buf, sender: Phase)
    requires Committed(sender) && |f.tunnel| >= 6 && m == |f.tunnel| && f.plainRead == 0
    requires Aligned(f.tunnel[..m], f.delivered, second)
    requires |f.delivered| + second.cursor == |f.tunnel| - 6 && second.cursor + 6 == |second.inner|
    ensures ReceiverInv(f.(tunnelRead := m), Buf(second.inner[..second.cursor], second.cursor), Out(Passive), sender)
  {
    hide Boundary;
    var t := f.tunnel;
    assert t[..m] == t == f.delivered + second.inner;
    assert t[..|t| - 6] == f.delivered + second.inner[..second.cursor];
  }

  // ---- every step keeps the invariant -------------------------------------------------------------

  /** Going active, with the scanned endpoint e: the command is written behind the checked
      first-hand bytes and the second-hand buffer is drained; m tunnel bytes have been read. */
  lemma ActiveKeeps(from: Lane, to: Lane, peer: Node, e: Endpoint, m: nat)
    requires from.taken <= |from.source| && RelayedTypes(from.source) && from.plain == []
    requires Aligned(from.source[..from.taken], from.tunnel, e.first) && e.first.cursor <= |e.first.inner|
    requires ReceiverInv(from, peer.ep.second, peer.phase, Scanning)
    requires OnWire(to, peer.phase) && m <= |to.tunnel| && to.plainRead == 0
    requires Aligned(to.tunnel[..m], to.delivered, e.second)
    requires Committed(peer.phase) ==> |to.tunnel| >= 6 && |to.delivered| + e.second.cursor <= |to.tunnel| - 6
    ensures var r := GoActive(e);
            var phase, from' := PhaseAfter(r.outcome), from.(tunnel := from.tunnel + r.toSecond);
            && (phase == Awaiting || phase == Out(Active))
            && SenderInv(from', r.ep.first, phase)
            && ReceiverInv(from', peer.ep.second, peer.phase, phase)
            && ReceiverInv(to.(tunnelRead := m, delivered := to.delivered + r.toFirst), r.ep.second, phase, peer.phase)
  {
    hide SenderInv, ReceiverInv, Aligned, OnWire, RelayedTypes, Boundary, DrainEval, Checked, Pop;
    var r := GoActive(e);
    var phase, body := PhaseAfter(r.outcome), from.tunnel + Checked(e.first);
    SenderCommits(from, e.first, phase);
    ReceiverBeforeCommand(from, peer.ep.second, peer.phase, body, phase);
    ReceiverDrains(to, m, e.second, peer.phase);
  }

  lemma ReadFirstKeeps(x: LiteTlsEndpointSide, node: Node, peer: Node, from: Lane, to: Lane, n: nat)
    requires InvAt(x, node, peer, from, to)
    requires node.phase.Scanning? && !node.ep.seen.BothDirections? && from.taken + n <= |from.source|
    ensures var r := OnRead(node.ep, First, Take(from.source, from.taken, n));
            InvAt(x, node.(ep := r.ep, phase := PhaseAfter(r.outcome)), peer,
                  from.(taken := from.taken + n, tunnel := from.tunnel + r.toSecond),
                  to.(delivered := to.delivered + r.toFirst))
  {
    hide SenderInv, ReceiverInv, Aligned, ScanFrom, DrainEval, OnWire, RelayedTypes, Boundary;
    var e, chunk := node.ep, Take(from.source, from.taken, n);
    var dir := DirectionOf(e.side, First);
    var r, scan := OnRead(e, First, chunk), ScanBuf(Append(e.first, chunk), e.seen, dir);
    var first := Buf(e.first.inner + chunk, scan.cursor);
    SenderScanning(from, e.first);
    SenderTakes(from, e.first, n, e.seen, dir);
    SenderOnWire(to, peer.ep.first, peer.phase);
    ReceiverIgnoresSource(from, peer.ep.second, peer.phase, Scanning, from.source, from.taken + n);
    var from1 := from.(taken := from.taken + n);
    SenderIgnoresReader(to, peer.ep.first, peer.phase, to.tunnelRead, to.plainRead, to.delivered + r.toFirst);
    if scan.verdict.Incomplete? {
      SenderRelays(from, n, first);
      ReceiverWaits(from1, peer.ep.second, peer.phase, r.toSecond);
      assert to.delivered + [] == to.delivered;
    } else {
      var e2 := e.(first := first, seen := scan.seen);
      assert r == GoActive(e2);
      ReceiverPositions(to, e.second, Scanning, peer.phase);
      ReceiverReads(to, e.second, Scanning, peer.phase, 0);
      AppendNothing(to, e.second);
      ActiveKeeps(from1, to, peer, e2, to.tunnelRead);
    }
  }

  lemma AppendNothing(f: Lane, second: Buf)
    requires f.tunnelRead <= |f.tunnel|
    ensures Append(second, Take(f.tunnel, f.tunnelRead, 0)) == second
    ensures f.tunnel[..f.tunnelRead + 0] == f.tunnel[..f.tunnelRead]
  {
  }

  lemma ReceiverPositions(f: Lane, second: Buf, phase: Phase, sender: Phase)
    requires ReceiverInv(f, second, phase, sender)
    ensures f.tunnelRead <= |f.tunnel| && f.plainRead <= |f.plain|
  {
  }

  /** A clean passive leave: the endpoint holds no first-hand bytes, the whole command is there. */
  lemma PassiveKeeps(from: Lane, to: Lane, peer: Node, e: Endpoint, m: nat)
    requires from.taken <= |from.source| && RelayedTypes(from.source) && from.plain == []
    requires Aligned(from.source[..from.taken], from.tunnel, e.first) && e.first == Buf([], 0)
    requires ReceiverInv(from, peer.ep.second, peer.phase, Scanning)
    requires Committed(peer.phase) && |to.tunnel| >= 6 && m == |to.tunnel| && to.plainRead == 0
    requires Aligned(to.tunnel[..m], to.delivered, e.second)
    requires |to.delivered| + e.second.cursor == |to.tunnel| - 6 && e.second.cursor + 6 == |e.second.inner|
    ensures var r := GoPassive(e);
            var from' := from.(tunnel := from.tunnel + r.toSecond);
            && r.outcome == LeftTls(Passive)
            && SenderInv(from', r.ep.first, Out(Passive))
            && ReceiverInv(from', peer.ep.second, peer.phase, Out(Passive))
            && ReceiverInv(to.(tunnelRead := m, delivered := to.delivered + r.toFirst), r.ep.second, Out(Passive),
                           peer.phase)
  {
    hide SenderInv, ReceiverInv, Aligned, RelayedTypes, Boundary;
    var r := GoPassive(e);
    SenderCommits(from, e.first, Out(Passive));
    assert Checked(e.first) == [] && Pop(e.first) == e.first;
    assert Checked(e.first) + LEAVE_TLS_COMMAND == LEAVE_TLS_COMMAND;
    ReceiverBeforeCommand(from, peer.ep.second, peer.phase, from.tunnel + Checked(e.first), Out(Passive));
    ReceiverLeaves(to, m, e.second, peer.phase);
    assert to.delivered + [] == to.delivered;
  }

  /** A scanning endpoint that is off the tunnel has a committed peer. */
  lemma OffTunnel(f: Lane, second: Buf, phase: Phase, sender: Phase)
    requires ReceiverInv(f, second, phase, sender) && (phase.Out? || phase.Copying?)
    ensures Committed(sender)
  {
  }

  lemma ReadSecondKeeps(x: LiteTlsEndpointSide, node: Node, peer: Node, from: Lane, to: Lane, n: nat)
    requires InvAt(x, node, peer, from, to)
    requires node.phase.Scanning? && !node.ep.seen.BothDirections? && to.tunnelRead + n <= |to.tunnel|
    requires CleanRead(node.ep, Take(to.tunnel, to.tunnelRead, n))
    ensures var r := OnRead(node.ep, Second, Take(to.tunnel, to.tunnelRead, n));
            InvAt(x, node.(ep := r.ep, phase := PhaseAfter(r.outcome)), peer,
                  from.(tunnel := from.tunnel + r.toSecond),
                  to.(tunnelRead := to.tunnelRead + n, delivered := to.delivered + r.toFirst))
  {
    hide SenderInv, ReceiverInv, Aligned, ScanFrom, DrainEval, OnWire, RelayedTypes, Boundary;
    var e, chunk, m := node.ep, Take(to.tunnel, to.tunnelRead, n), to.tunnelRead + n;
    var dir := DirectionOf(e.side, Second);
    var r, b := OnRead(e, Second, chunk), Append(e.second, chunk);
    var scan := ScanBuf(b, e.seen, dir);
    var e2 := e.(second := Buf(b.inner, scan.cursor), seen := scan.seen);
    SenderScanning(from, e.first);
    SenderOnWire(to, peer.ep.first, peer.phase);
    ReceiverReads(to, e.second, Scanning, peer.phase, n);
    ScanOnWire(to, b, peer.phase, m, e.seen, dir);
    SenderIgnoresReader(to, peer.ep.first, peer.phase, m, to.plainRead, to.delivered + r.toFirst);
    match scan.verdict {
      case Incomplete =>
        ReceiverRelays(to, m, e2.second, peer.phase);
        assert from.tunnel + [] == from.tunnel;
      case Leave(Active) =>
        assert r == GoActive(e2);
        ActiveKeeps(from, to, peer, e2, m);
      case Leave(Passive) =>
        assert r == GoPassive(e2);
        PassiveKeeps(from, to, peer, e2, m);
        if IsPassive(peer.phase) {
          OffTunnel(from, peer.ep.second, peer.phase, Scanning);
        }
    }
  }

  lemma ReadToLeaveKeeps(x: LiteTlsEndpointSide, node: Node, peer: Node, from: Lane, to: Lane, n: nat)
    requires InvAt(x, node, peer, from, to)
    requires node.phase.Awaiting? && to.tunnelRead + n <= |to.tunnel|
    ensures var d := DrainEval(Append(node.ep.second, Take(to.tunnel, to.tunnelRead, n)));
            InvAt(x, node.(ep := node.ep.(second := d.buf), phase := if d.complete then Out(Active) else Awaiting),
                  peer, from, to.(tunnelRead := to.tunnelRead + n, delivered := to.delivered + d.emitted))
  {
    hide ReceiverInv, Aligned, DrainEval, OnWire, RelayedTypes, Boundary, CommandIsLast, SentBody;
    var b := Append(node.ep.second, Take(to.tunnel, to.tunnelRead, n));
    var d := DrainEval(b);
    var phase := if d.complete then Out(Active) else Awaiting;
    SenderOnWire(to, peer.ep.first, peer.phase);
    ReceiverReads(to, node.ep.second, Awaiting, peer.phase, n);
    ReceiverDrains(to, to.tunnelRead + n, b, peer.phase);
    SenderMoves(from, peer.ep.second, peer.phase, node.phase, phase);
  }

  /** The receiving half only cares whether the sender is committed. */
  lemma SenderMoves(f: Lane, second: Buf, phase: Phase, sender: Phase, sender': Phase)
    requires ReceiverInv(f, second, phase, sender) && Committed(sender) == Committed(sender')
    ensures ReceiverInv(f, second, phase, sender')
  {
    hide Aligned;
  }

  lemma SenderFlushes(f: Lane, first: Buf, mode: LeaveTlsMode)
    requires SenderInv(f, first, Out(mode))
    ensures mode.Active? ==> SenderInv(f.(plain := f.plain + first.inner), Buf([], 0), Copying(mode))
    ensures mode.Passive? ==> SenderInv(f, first, Copying(mode))
  {
    hide RelayedTypes, Boundary;
    var body := SentBody(f.tunnel, true);
    assert body + [] == body && [] + first.inner == first.inner;
    assert (body + first.inner) + [] == body + first.inner;
  }

  lemma ReceiverFlushes(f: Lane, second: Buf, mode: LeaveTlsMode, sender: Phase, n: nat)
    requires ReceiverInv(f, second, Out(mode), sender) && n <= |f.plain|
    ensures f.plainRead == 0
    ensures mode.Active? ==> ReceiverInv(f, second, Copying(mode), sender)
    ensures mode.Passive? ==>
              ReceiverInv(f.(plainRead := n, delivered := f.delivered + (second.inner + Take(f.plain, 0, n))),
                          Buf([], 0), Copying(mode), sender)
  {
    var body := f.tunnel[..BodyLen(f, sender)];
    Assoc(f.delivered, second.inner, Take(f.plain, 0, n));
    assert body + f.plain[..0] == body;
    if mode.Active? {
      assert f.delivered + [] == f.delivered;
    }
  }

  lemma FlushKeeps(x: LiteTlsEndpointSide, node: Node, peer: Node, from: Lane, to: Lane, n: nat)
    requires InvAt(x, node, peer, from, to) && node.phase.Out? && to.plainRead + n <= |to.plain|
    ensures if node.phase.mode.Active? then
              InvAt(x, node.(ep := node.ep.(first := Buf([], 0)), phase := Copying(Active)), peer,
                    from.(plain := from.plain + node.ep.first.inner), to)
            else
              InvAt(x, node.(ep := node.ep.(second := Buf([], 0)), phase := Copying(Passive)), peer, from,
                    to.(plainRead := to.plainRead + n,
                        delivered := to.delivered + (node.ep.second.inner + Take(to.plain, to.plainRead, n))))
  {
    hide SenderInv, ReceiverInv;
    var mode := node.phase.mode;
    ReceiverFlushes(to, node.ep.second, mode, peer.phase, 0);
    ReceiverFlushes(to, node.ep.second, mode, peer.phase, n);
    SenderFlushes(from, node.ep.first, mode);
    if mode.Active? {
      ReceiverPlainGrows(from, peer.ep.second, peer.phase, node.phase, node.ep.first.inner, Copying(Active));
    } else {
      SenderMoves(from, peer.ep.second, peer.phase, node.phase, Copying(Passive));
      SenderIgnoresReader(to, peer.ep.first, peer.phase, to.tunnelRead, n,
                          to.delivered + (node.ep.second.inner + Take(to.plain, 0, n)));
    }
  }

  lemma CopyOutKeeps(x: LiteTlsEndpointSide, node: Node, peer: Node, from: Lane, to: Lane, n: nat)
    requires InvAt(x, node, peer, from, to) && node.phase.Copying? && from.taken + n <= |from.source|
    ensures InvAt(x, node, peer,
                  from.(taken := from.taken + n, plain := from.plain + Take(from.source, from.taken, n)), to)
  {
    hide ReceiverInv, RelayedTypes, Boundary;
    var chunk := Take(from.source, from.taken, n);
    var body := SentBody(from.tunnel, true);
    ReceiverPlainGrows(from, peer.ep.second, peer.phase, node.phase, chunk, node.phase);
    ReceiverIgnoresSource(from.(plain := from.plain + chunk), peer.ep.second, peer.phase, node.phase,
                          from.source, from.taken + n);
    assert from.source[..from.taken + n] == from.source[..from.taken] + chunk;
    assert (body + from.plain) + [] == body + from.plain;
    assert (body + (from.plain + chunk)) + [] == (body + from.plain) + chunk;
  }

  lemma ReceiverCopies(f: Lane, second: Buf, mode: LeaveTlsMode, sender: Phase, n: nat)
    requires ReceiverInv(f, second, Copying(mode), sender) && f.plainRead + n <= |f.plain|
    ensures ReceiverInv(f.(plainRead := f.plainRead + n, delivered := f.delivered + Take(f.plain, f.plainRead, n)),
                        second, Copying(mode), sender)
  {
    var chunk, body := Take(f.plain, f.plainRead, n), f.tunnel[..BodyLen(f, sender)];
    assert f.plain[..f.plainRead + n] == f.plain[..f.plainRead] + chunk;
    Assoc(body, f.plain[..f.plainRead], chunk);
  }

  lemma CopyInKeeps(x: LiteTlsEndpointSide, node: Node, peer: Node, from: Lane, to: Lane, n: nat)
    requires InvAt(x, node, peer, from, to) && node.phase.Copying? && to.plainRead + n <= |to.plain|
    ensures InvAt(x, node, peer, from,
                  to.(plainRead := to.plainRead + n, delivered := to.delivered + Take(to.plain, to.plainRead, n)))
  {
    hide SenderInv, ReceiverInv;
    ReceiverCopies(to, node.ep.second, node.phase.mode, peer.phase, n);
    SenderIgnoresReader(to, peer.ep.first, peer.phase, to.tunnelRead, to.plainRead + n,
                        to.delivered + Take(to.plain, to.plainRead, n));
  }

  lemma SendKeeps(x: LiteTlsEndpointSide, node: Node, peer: Node, from: Lane, to: Lane, chunk: seq<byte>)
    requires InvAt(x, node, peer, from, to) && RelayedTypes(from.source + chunk)
    ensures InvAt(x, node, peer, from.(source := from.source + chunk), to)
  {
    hide SenderInv, ReceiverInv, RelayedTypes;
    SenderSends(from, node.ep.first, node.phase, chunk);
    ReceiverIgnoresSource(from, peer.ep.second, peer.phase, node.phase, from.source + chunk, from.taken);
  }

  /** Every clean step keeps the invariant. */
  lemma StepKeepsInv(s: State, x: LiteTlsEndpointSide, a: Action)
    requires Inv(s) && Enabled(s, x, a) && Clean(s, x, a)
    ensures Inv(Next(s, x, a))
  {
    hide InvAt, OnRead, CleanRead, RelayedTypes, DrainEval, BodyLen;
    var node, peer, from, to := NodeOf(s, x), NodeOf(s, Peer(x)), LaneFrom(s, x), LaneFrom(s, Peer(x));
    assert s == Update(x, node, peer, from, to);
    InvOf(x, node, peer, from, to);
    match a {
      case Send(chunk) =>
        SendKeeps(x, node, peer, from, to, chunk);
        InvOf(x, node, peer, from.(source := from.source + chunk), to);
      case ReadFirst(n) =>
        ReadFirstKeeps(x, node, peer, from, to, n);
        var r := OnRead(node.ep, First, Take(from.source, from.taken, n));
        InvOf(x, node.(ep := r.ep, phase := PhaseAfter(r.outcome)), peer,
              from.(taken := from.taken + n, tunnel := from.tunnel + r.toSecond),
              to.(delivered := to.delivered + r.toFirst));
      case ReadSecond(n) =>
        ReadSecondKeeps(x, node, peer, from, to, n);
        var r := OnRead(node.ep, Second, Take(to.tunnel, to.tunnelRead, n));
        InvOf(x, node.(ep := r.ep, phase := PhaseAfter(r.outcome)), peer,
              from.(tunnel := from.tunnel + r.toSecond),
              to.(tunnelRead := to.tunnelRead + n, delivered := to.delivered + r.toFirst));
      case ReadToLeave(n) =>
        ReadToLeaveKeeps(x, node, peer, from, to, n);
        var d := DrainEval(Append(node.ep.second, Take(to.tunnel, to.tunnelRead, n)));
        InvOf(x, node.(ep := node.ep.(second := d.buf), phase := if d.complete then Out(Active) else Awaiting), peer,
              from, to.(tunnelRead := to.tunnelRead + n, delivered := to.delivered + d.emitted));
      case Flush(n) =>
        FlushKeeps(x, node, peer, from, to, n);
        if node.phase.mode.Active? {
          InvOf(x, node.(ep := node.ep.(first := Buf([], 0)), phase := Copying(Active)), peer,
                from.(plain := from.plain + node.ep.first.inner), to);
        } else {
          InvOf(x, node.(ep := node.ep.(second := Buf([], 0)), phase := Copying(Passive)), peer, from,
                to.(plainRead := to.plainRead + n,
                    delivered := to.delivered + (node.ep.second.inner + Take(to.plain, to.plainRead, n))));
        }
      case CopyOut(n) =>
        CopyOutKeeps(x, node, peer, from, to, n);
        InvOf(x, node, peer,
              from.(taken := from.taken + n, plain := from.plain + Take(from.source, from.taken, n)), to);
      case CopyIn(n) =>
        CopyInKeeps(x, node, peer, from, to, n);
        InvOf(x, node, peer, from,
              to.(plainRead := to.plainRead + n, delivered := to.delivered + Take(to.plain, to.plainRead, n)));
      case Close =>
        CloseKeeps(x, node, peer, from, to);
        InvOf(x, node.(closed := true), peer, from, to);
    }
  }

  lemma CloseKeeps(x: LiteTlsEndpointSide, node: Node, peer: Node, from: Lane, to: Lane)
    requires InvAt(x, node, peer, from, to)
    ensures InvAt(x, node.(closed := true), peer, from, to)
  {
    hide SenderInv, ReceiverInv;
  }

  // ---- whole runs ----------------------------------------------------------------------------------

  /** A finite run of the system: at each step one endpoint, or its user or target, acts. */
  type Run = seq<(LiteTlsEndpointSide, Action)>

  ghost predicate CleanRun(s: State, run: Run)
    decreases |run|
  {
    run == [] ||
    var (x, a) := run[0];
    Enabled(s, x, a) && Clean(s, x, a) && CleanRun(Next(s, x, a), run[1..])
  }

  /** The state that a run leads to; it ends at the first action that is not enabled. */
  function Final(s: State, run: Run): State
    decreases |run|
  {
    if run == [] || !Enabled(s, run[0].0, run[0].1) then s
    else Final(Next(s, run[0].0, run[0].1), run[1..])
  }

  lemma {:induction false} RunKeepsInv(s: State, run: Run)
    requires Inv(s) && CleanRun(s, run)
    ensures Inv(Final(s, run))
    decreases |run|
  {
    if run != [] {
      StepKeepsInv(s, run[0].0, run[0].1);
      RunKeepsInv(Next(s, run[0].0, run[0].1), run[1..]);
    }
  }

  /** One direction in a reachable state. */
  ghost predicate LaneSafe(f: Lane, sender: Phase, receiver: Phase) {
    && f.taken <= |f.source| && f.tunnelRead <= |f.tunnel| && f.plainRead <= |f.plain|
    // no byte is lost, repeated, reordered or injected on the way to the destination
    && f.delivered <= f.source[..f.taken]
    // the tunnel carries source bytes and, once the sender is committed, one command, at the end
    && (if Committed(sender) then CommandIsLast(f.tunnel, true) && SentBody(f.tunnel, true) <= f.source[..f.taken]
        else f.tunnel <= f.source[..f.taken])
    // plain bytes are written after both commands: the own one is written, the other one is read
    && (f.plain != [] ==> sender.Copying?)
    // the receiver reads plain bytes only after all tunnel bytes, and tunnel bytes only while there are any
    && (receiver.Out? || receiver.Copying? ==> Committed(sender) && f.tunnelRead == |f.tunnel|)
    && (receiver.Scanning? || receiver.Awaiting? ==> f.plainRead == 0 && (f.plain != [] ==> f.tunnelRead < |f.tunnel|))
  }

  ghost predicate Safe(s: State) {
    && LaneSafe(s.up, s.client.phase, s.server.phase)
    && LaneSafe(s.down, s.server.phase, s.client.phase)
    && s.client.phase != FellBack && s.server.phase != FellBack
    && !(IsPassive(s.client.phase) && IsPassive(s.server.phase))
    // the scan is never entered with both directions seen
    && (s.client.phase.Scanning? ==> !s.client.ep.seen.BothDirections?)
    && (s.server.phase.Scanning? ==> !s.server.ep.seen.BothDirections?)
  }

  lemma LaneInvSafe(f: Lane, first: Buf, second: Buf, sender: Phase, receiver: Phase)
    requires SenderInv(f, first, sender) && ReceiverInv(f, second, receiver, sender)
    requires !(sender.Copying? && receiver.Scanning?)
    ensures LaneSafe(f, sender, receiver)
  {
    hide RelayedTypes, Boundary;
    var got := f.source[..f.taken];
    if Committed(sender) {
      var body := SentBody(f.tunnel, true);
      Assoc(body, f.plain, first.inner);
      if receiver.Scanning? || receiver.Awaiting? {
        DeliveredInBody(f, second, body);
      }
    }
  }

  /** While the receiver is on the tunnel, what it has delivered precedes the command. */
  lemma DeliveredInBody(f: Lane, second: Buf, body: seq<byte>)
    requires |f.tunnel| >= 6 && body == f.tunnel[..|f.tunnel| - 6] && f.tunnelRead <= |f.tunnel|
    requires Aligned(f.tunnel[..f.tunnelRead], f.delivered, second)
    requires |f.delivered| + second.cursor <= |body|
    ensures f.delivered <= body
  {
    hide Boundary;
    var got := f.tunnel[..f.tunnelRead];
    assert f.delivered == got[..|f.delivered|] == f.tunnel[..|f.delivered|] == body[..|f.delivered|];
  }

  /** Safety of Lite-TLS: in every clean run, from the client hello on, through both leave
      handshakes (crossing ones included) and into plain relaying, either destination has
      received a prefix of what its origin sent, no leave command among it, each tunnel carries
      exactly one command as its last bytes once its writer has committed, and no endpoint
      confuses tunnel bytes with plain bytes. */
  lemma EveryRunIsSafe(run: Run)
    requires CleanRun(INITIAL, run)
    ensures Safe(Final(INITIAL, run))
  {
    hide SenderInv, ReceiverInv, LaneSafe;
    InitialInv();
    RunKeepsInv(INITIAL, run);
    InvIsSafe(Final(INITIAL, run));
  }

  lemma InvIsSafe(s: State)
    requires Inv(s)
    ensures Safe(s)
  {
    hide SenderInv, ReceiverInv, LaneSafe;
    CopyingNeedsPeer(s.up, s.down, s.client, s.server);
    CopyingNeedsPeer(s.down, s.up, s.server, s.client);
    LaneInvSafe(s.up, s.client.ep.first, s.server.ep.second, s.client.phase, s.server.phase);
    LaneInvSafe(s.down, s.server.ep.first, s.client.ep.second, s.server.phase, s.client.phase);
    NeverFallsBack(s.up, s.client.ep.first, s.client.phase);
    NeverFallsBack(s.down, s.server.ep.first, s.server.phase);
  }

  lemma NeverFallsBack(f: Lane, first: Buf, phase: Phase)
    requires SenderInv(f, first, phase)
    ensures phase != FellBack
  {
  }

  lemma CopyingNeedsPeer(from: Lane, to: Lane, node: Node, peer: Node)
    requires ReceiverInv(to, node.ep.second, node.phase, peer.phase)
    ensures node.phase.Copying? ==> !peer.phase.Scanning?
  {
  }

  /** When nothing is in flight, everything that was sent has been delivered. */
  lemma QuietMeansComplete(run: Run, x: LiteTlsEndpointSide)
    requires CleanRun(INITIAL, run)
    ensures var s := Final(INITIAL, run);
            var f := LaneFrom(s, x);
            f.taken == |f.source| && f.tunnelRead == |f.tunnel| && f.plainRead == |f.plain|
            && NodeOf(s, x).ep.first.inner == [] && NodeOf(s, Peer(x)).ep.second.inner == []
            ==> f.delivered == f.source
  {
    hide SenderInv, ReceiverInv;
    InitialInv();
    RunKeepsInv(INITIAL, run);
    var s := Final(INITIAL, run);
    LaneComplete(s.up, s.client.ep.first, s.server.ep.second, s.client.phase, s.server.phase);
    LaneComplete(s.down, s.server.ep.first, s.client.ep.second, s.server.phase, s.client.phase);
  }

  lemma LaneComplete(f: Lane, first: Buf, second: Buf, sender: Phase, receiver: Phase)
    requires SenderInv(f, first, sender) && ReceiverInv(f, second, receiver, sender)
    ensures f.taken == |f.source| && f.tunnelRead == |f.tunnel| && f.plainRead == |f.plain|
            && first.inner == [] && second.inner == []
            ==> f.delivered == f.source
  {
    hide RelayedTypes, Boundary;
    if f.taken == |f.source| && f.tunnelRead == |f.tunnel| && f.plainRead == |f.plain|
       && first.inner == [] && second.inner == []
    {
      assert f.source[..f.taken] == f.source && f.tunnel[..f.tunnelRead] == f.tunnel;
      assert f.plain[..f.plainRead] == f.plain;
      assert f.delivered + [] == f.delivered && f.tunnel + [] == f.tunnel;
      if Committed(sender) {
        var body := SentBody(f.tunnel, true);
        assert (body + f.plain) + [] == body + f.plain && body + [] == body;
      }
    }
  }

  /** The leave command is the last thing an endpoint writes to the tunnel, and it is written
      once: after it, the tunnel of that endpoint never changes, whatever anybody does. */
  lemma CommittedTunnelIsClosed(s: State, x: LiteTlsEndpointSide, a: Action, y: LiteTlsEndpointSide)
    requires Enabled(s, x, a) && Committed(NodeOf(s, y).phase)
    ensures LaneFrom(Next(s, x, a), y).tunnel == LaneFrom(s, y).tunnel
    ensures Committed(NodeOf(Next(s, x, a), y).phase)
  {
    hide OnRead, DrainEval;
  }

  // ---- record-aligned reads are clean ---------------------------------------------------------------

  /** The environment of the intended use: user and target send whole records of the four TLS
      types, first-hand reads take whole records, and an endpoint that finds the leave command
      has read all of it. */
  ghost predicate AlignedRead(s: State, x: LiteTlsEndpointSide, a: Action)
    requires Enabled(s, x, a)
  {
    var from, to := LaneFrom(s, x), LaneFrom(s, Peer(x));
    match a
    case Send(chunk) => RelayedTypes(from.source + chunk)
    case ReadFirst(n) => Boundary(Take(from.source, from.taken, n), 0, n)
    case ReadSecond(n) =>
      var e := NodeOf(s, x).ep;
      var b := Append(e.second, Take(to.tunnel, to.tunnelRead, n));
      var scan := ScanBuf(b, e.seen, DirectionOf(e.side, Second));
      scan.verdict == Leave(Passive) ==> scan.cursor + 6 == |b.inner|
    case _ => true
  }

  ghost predicate AlignedRun(s: State, run: Run)
    decreases |run|
  {
    run == [] ||
    var (x, a) := run[0];
    Enabled(s, x, a) && AlignedRead(s, x, a) && AlignedRun(Next(s, x, a), run[1..])
  }

  /** Under aligned reads a scanning endpoint holds no first-hand bytes between its steps. */
  predicate NothingHeld(s: State) {
    && (s.client.phase.Scanning? ==> s.client.ep.first == Buf([], 0))
    && (s.server.phase.Scanning? ==> s.server.ep.first == Buf([], 0))
  }

  lemma WholeChunk(chunk: seq<byte>, seen: Seen0x17, dir: Direction)
    requires Boundary(chunk, 0, |chunk|) && !seen.BothDirections?
    ensures var r := ScanFrom(chunk, 0, seen, dir);
            && (r.verdict.Incomplete? ==> r.cursor == |chunk|)
            && (r.verdict == Leave(Active) ==> r.cursor <= |chunk|)
  {
    var r := ScanFrom(chunk, 0, seen, dir);
    ScanMeaning(chunk, 0, seen, dir);
    BoundaryNoJump(chunk, chunk, 0, r.cursor, |chunk|);
    if r.cursor < |chunk| {
      BoundarySplit(chunk, 0, r.cursor, |chunk|);
    }
  }

  lemma AlignedStepIsClean(s: State, x: LiteTlsEndpointSide, a: Action)
    requires Inv(s) && NothingHeld(s) && Enabled(s, x, a) && AlignedRead(s, x, a)
    ensures Clean(s, x, a) && NothingHeld(Next(s, x, a))
  {
    hide InvAt, ScanFrom, DrainEval, RelayedTypes, Boundary, BodyLen;
    var node, from, to := NodeOf(s, x), LaneFrom(s, x), LaneFrom(s, Peer(x));
    match a {
      case ReadFirst(n) =>
        FirstReadIsClean(s, x, n);
      case ReadSecond(n) =>
      case _ =>
    }
  }

  lemma FirstReadIsClean(s: State, x: LiteTlsEndpointSide, n: nat)
    requires Inv(s) && NothingHeld(s) && Enabled(s, x, ReadFirst(n)) && AlignedRead(s, x, ReadFirst(n))
    ensures var r := OnRead(NodeOf(s, x).ep, First, Take(LaneFrom(s, x).source, LaneFrom(s, x).taken, n));
            r.outcome.Continue? ==> r.ep.first == Buf([], 0)
  {
    hide ScanFrom, DrainEval, RelayedTypes, Boundary, ReceiverInv, Aligned;
    var node, from := NodeOf(s, x), LaneFrom(s, x);
    var chunk, dir := Take(from.source, from.taken, n), DirectionOf(node.ep.side, First);
    assert [] + chunk == chunk;
    WholeChunk(chunk, node.ep.seen, dir);
    NoCommandFromOrigin(s, x, n);
  }

  lemma NoCommandFromOrigin(s: State, x: LiteTlsEndpointSide, n: nat)
    requires Inv(s) && Enabled(s, x, ReadFirst(n))
    ensures var node, from := NodeOf(s, x), LaneFrom(s, x);
            var chunk := Take(from.source, from.taken, n);
            var scan := ScanBuf(Append(node.ep.first, chunk), node.ep.seen, DirectionOf(node.ep.side, First));
            scan.verdict != Leave(Passive)
  {
    hide ReceiverInv, ScanFrom, Boundary, RelayedTypes;
    var node, from := NodeOf(s, x), LaneFrom(s, x);
    SenderTakes(from, node.ep.first, n, node.ep.seen, DirectionOf(node.ep.side, First));
  }

  lemma {:induction false} AlignedRunIsClean(s: State, run: Run)
    requires Inv(s) && NothingHeld(s) && AlignedRun(s, run)
    ensures CleanRun(s, run)
    decreases |run|
  {
    hide InvAt, Next, Enabled, Clean, AlignedRead, NothingHeld;
    if run != [] {
      AlignedStepIsClean(s, run[0].0, run[0].1);
      StepKeepsInv(s, run[0].0, run[0].1);
      AlignedRunIsClean(Next(s, run[0].0, run[0].1), run[1..]);
    }
  }

  /** The safety theorem for the intended use. */
  lemma EveryAlignedRunIsSafe(run: Run)
    requires AlignedRun(INITIAL, run)
    ensures CleanRun(INITIAL, run) && Safe(Final(INITIAL, run))
  {
    hide InvAt, Safe;
    InitialInv();
    AlignedRunIsClean(INITIAL, run);
    EveryRunIsSafe(run);
  }

  // ---- where the hypotheses are needed ----------------------------------------------------------------

  /** An endpoint that goes active writes its command at a record boundary of its origin's
      stream if and only if its first-hand cursor is within its buffer: relaying partial
      records must not have left a record open. */
  lemma CommandIsAtBoundaryIff(f: Lane, first: Buf)
    requires f.taken <= |f.source| && Aligned(f.source[..f.taken], f.tunnel, first)
    ensures Boundary(f.source, 0, |f.tunnel + Checked(first)|) <==> first.cursor <= |first.inner|
  {
    var got := f.source[..f.taken];
    var p, b := |f.tunnel| + first.cursor, |f.tunnel + Checked(first)|;
    if first.cursor <= |first.inner| {
      BoundaryExtend(got, f.source, 0, p);
    } else if Boundary(f.source, 0, b) {
      BoundaryNoJump(got, f.source, 0, p, b);
    }
  }

  /** A scanning endpoint whose read ends inside or after the leave command of its peer goes
      active on the records before it, or else leaves passively if and only if the read brings
      the whole command; otherwise it falls back to the tunnel. */
  lemma SplitCommandFallsBack(x: LiteTlsEndpointSide, node: Node, peer: Node, from: Lane, to: Lane, n: nat)
    requires InvAt(x, node, peer, from, to) && node.phase.Scanning? && !node.ep.seen.BothDirections?
    requires Committed(peer.phase) && |to.tunnel| - 6 < to.tunnelRead + n <= |to.tunnel|
    ensures var chunk := Take(to.tunnel, to.tunnelRead, n);
            var r, b := OnRead(node.ep, Second, chunk), Append(node.ep.second, chunk);
            var verdict := ScanBuf(b, node.ep.seen, DirectionOf(node.ep.side, Second)).verdict;
            && (verdict == Leave(Active) || verdict == Leave(Passive))
            && (verdict == Leave(Passive) ==>
                  if to.tunnelRead + n == |to.tunnel| then r.outcome == LeftTls(Passive) else r.outcome == NotTls)
  {
    hide SenderInv, ReceiverInv, Aligned, ScanFrom, DrainEval, OnWire, RelayedTypes, Boundary;
    var e, chunk, m := node.ep, Take(to.tunnel, to.tunnelRead, n), to.tunnelRead + n;
    var b, dir := Append(e.second, chunk), DirectionOf(e.side, Second);
    SenderOnWire(to, peer.ep.first, peer.phase);
    ReceiverReads(to, e.second, Scanning, peer.phase, n);
    ScanOnWire(to, b, peer.phase, m, e.seen, dir);
    var scan := ScanBuf(b, e.seen, dir);
    if scan.verdict == Leave(Passive) {
      assert OnRead(e, Second, chunk) == GoPassive(e.(second := Buf(b.inner, scan.cursor), seen := scan.seen));
    }
  }

  lemma {:induction false} WholeInPrefix(s: seq<byte>, t: seq<byte>, p: nat, b: nat)
    requires t <= s && WholeRecords(s, p, b) && b <= |t|
    ensures WholeRecords(t, p, b)
    decreases b - p
  {
    if p != b {
      WholeWithin(s, RecordEnd(s, p), b);
      WholeInPrefix(s, t, RecordEnd(s, p), b);
    }
  }

  // ---- progress --------------------------------------------------------------------------------------

  /** An active endpoint that waits for the command of its peer never waits in vain: either
      there are tunnel bytes for it to read, or the peer is still scanning and has the command
      of the waiting endpoint ahead, complete, in its tunnel. */
  lemma AwaitingIsNotStuck(s: State, x: LiteTlsEndpointSide)
    requires Inv(s) && NodeOf(s, x).phase.Awaiting? && !s.client.closed && !s.server.closed
    ensures var from, to := LaneFrom(s, x), LaneFrom(s, Peer(x));
            || (exists n: nat :: Enabled(s, x, ReadToLeave(n)))
            || (NodeOf(s, Peer(x)).phase.Scanning? && |from.tunnel| >= from.tunnelRead + 6
                && Enabled(s, Peer(x), ReadSecond(|from.tunnel| - from.tunnelRead)))
  {
    hide Aligned, RelayedTypes, Boundary;
    var from, to := LaneFrom(s, x), LaneFrom(s, Peer(x));
    if to.tunnelRead < |to.tunnel| {
      assert Enabled(s, x, ReadToLeave(1));
    }
  }
}
