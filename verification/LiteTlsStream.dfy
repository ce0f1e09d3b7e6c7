/** One endpoint of Lite-TLS: it relays both directions through the tunnel until both have shown
    application data, then negotiates leaving the tunnel. */
module LiteTlsStreams {
  import opened Bytes
  import opened TlsRecords
  import opened TlsRelayBuffers
  import opened Streams

  // ---- the endpoint as a value ---------------------------------------------------------------

  datatype LiteTlsEndpointSide = ClientSide | ServerSide

  /** First-hand bytes come from the user or the target, second-hand bytes from the other
      endpoint, through the tunnel. */
  datatype Hand = First | Second

  function DirectionOf(side: LiteTlsEndpointSide, hand: Hand): Direction {
    if side.ClientSide? == hand.First? then Inbound else Outbound
  }

  function HandOf(side: LiteTlsEndpointSide, dir: Direction): Hand {
    if side.ClientSide? == dir.Inbound? then First else Second
  }

  datatype Endpoint = Endpoint(side: LiteTlsEndpointSide, first: Buf, second: Buf, seen: Seen0x17)

  function BufOf(e: Endpoint, hand: Hand): Buf {
    if hand.First? then e.first else e.second
  }

  function SetBuf(e: Endpoint, hand: Hand, b: Buf): Endpoint {
    if hand.First? then e.(first := b) else e.(second := b)
  }

  datatype Outcome = Continue | LeftTls(mode: LeaveTlsMode) | Draining | NotTls

  /** What one event does: the new endpoint and the bytes written to either hand. */
  datatype Reaction = Reaction(ep: Endpoint, toFirst: seq<byte>, toSecond: seq<byte>, outcome: Outcome)

  function Relay(e: Endpoint, hand: Hand): Reaction {
    var b := BufOf(e, hand);
    var e' := SetBuf(e, hand, Pop(b));
    if hand.First? then Reaction(e', [], Checked(b), Continue) else Reaction(e', Checked(b), [], Continue)
  }

  function GoActive(e: Endpoint): Reaction {
    var d := DrainEval(e.second);
    Reaction(e.(first := Pop(e.first), second := d.buf), d.emitted, Checked(e.first) + LEAVE_TLS_COMMAND,
             if d.complete then LeftTls(Active) else Draining)
  }

  function GoPassive(e: Endpoint): Reaction {
    if e.second.cursor + 6 == |e.second.inner|
    then Reaction(e.(second := Buf(e.second.inner[..e.second.cursor], e.second.cursor)), [],
                  LEAVE_TLS_COMMAND, LeftTls(Passive))
    else Reaction(e, [], [], NotTls)
  }

  function AfterScan(e: Endpoint, hand: Hand, verdict: Verdict): Reaction {
    match verdict
    case Incomplete => Relay(e, hand)
    case Invalid => Reaction(e, [], [], NotTls)
    case Leave(Active) => GoActive(e)
    case Leave(Passive) => GoPassive(e)
  }

  function ScanHand(e: Endpoint, hand: Hand): Scan
    requires !e.seen.BothDirections?
  {
    ScanBuf(BufOf(e, hand), e.seen, DirectionOf(e.side, hand))
  }

  function Scanned(e: Endpoint, hand: Hand): Endpoint
    requires !e.seen.BothDirections?
  {
    var r := ScanHand(e, hand);
    SetBuf(e, hand, Buf(BufOf(e, hand).inner, r.cursor)).(seen := r.seen)
  }

  /** One iteration of the scan loop: a chunk arrives at one hand. */
  function OnRead(e: Endpoint, hand: Hand, chunk: seq<byte>): (r: Reaction)
    requires !e.seen.BothDirections?
    ensures r.ep.side == e.side
    ensures r.ep.seen.BothDirections? <==> r.outcome == LeftTls(Active) || r.outcome == Draining
  {
    var e1 := SetBuf(e, hand, Append(BufOf(e, hand), chunk));
    AfterScan(Scanned(e1, hand), hand, ScanHand(e1, hand).verdict)
  }

  // ---- a whole handshake after the client hello ---------------------------------------------

  datatype HandshakeResult = Left(mode: LeaveTlsMode) | EndOfStream | NotTlsStream | BrokenPipe | TimedOut

  datatype HandshakeRun = HandshakeRun(
    ep: Endpoint,
    toFirst: seq<byte>, toSecond: seq<byte>,
    firstRest: seq<seq<byte>>, secondRest: seq<seq<byte>>,
    result: HandshakeResult)

  /** The scan loop when the hands become readable in the given order; a script that ends is a
      handshake that times out. */
  function Handshake(e: Endpoint, order: seq<Direction>, firstIn: seq<seq<byte>>, secondIn: seq<seq<byte>>)
    : HandshakeRun
    requires !e.seen.BothDirections?
    decreases |order|
  {
    if order == [] then HandshakeRun(e, [], [], firstIn, secondIn, TimedOut)
    else
      var hand := HandOf(e.side, order[0]);
      var incoming := if hand.First? then firstIn else secondIn;
      if incoming == [] then HandshakeRun(e, [], [], firstIn, secondIn, EndOfStream)
      else
        var r := OnRead(e, hand, incoming[0]);
        var firstIn' := if hand.First? then firstIn[1..] else firstIn;
        var secondIn' := if hand.First? then secondIn else secondIn[1..];
        match r.outcome
        case Continue =>
          var n := Handshake(r.ep, order[1..], firstIn', secondIn');
          n.(toFirst := r.toFirst + n.toFirst, toSecond := r.toSecond + n.toSecond)
        case NotTls => HandshakeRun(r.ep, r.toFirst, r.toSecond, firstIn', secondIn', NotTlsStream)
        case LeftTls(mode) => HandshakeRun(r.ep, r.toFirst, r.toSecond, firstIn', secondIn', Left(mode))
        case Draining =>
          var d := DrainAll(r.ep.second, secondIn');
          HandshakeRun(r.ep.(second := d.buf), r.toFirst + d.emitted, r.toSecond, firstIn', d.rest,
                       if d.ok then Left(Active) else BrokenPipe)
  }

  function FreshEndpoint(side: LiteTlsEndpointSide): Endpoint {
    Endpoint(side, Buf([], 0), Buf([], 0), Nothing)
  }

  /** The handshake with its client hello. */
  function WholeHandshake(side: LiteTlsEndpointSide, order: seq<Direction>, outboundIn: seq<seq<byte>>,
                          inboundIn: seq<seq<byte>>): HandshakeRun
  {
    var h, e := ReadHello([], inboundIn), FreshEndpoint(side);
    match h.check
    case HelloIncomplete => HandshakeRun(e, [], [], [], [], BrokenPipe)
    case HelloInvalid => HandshakeRun(e, [], [], [], [], NotTlsStream)
    case HelloOk =>
      if side.ClientSide? then Handshake(e, order, h.rest, outboundIn) else Handshake(e, order, outboundIn, h.rest)
  }

  /** The bytes z are what was passed on, followed by what is buffered and what is still to be
      read. */
  ghost predicate Accounts(z: seq<byte>, out: seq<byte>, inner: seq<byte>, rest: seq<seq<byte>>) {
    z == out + (inner + Concat(rest))
  }

  lemma AccountsTrans(z: seq<byte>, o1: seq<byte>, i1: seq<byte>, r1: seq<seq<byte>>,
                      o2: seq<byte>, i2: seq<byte>, r2: seq<seq<byte>>)
    requires Accounts(z, o1, i1, r1) && Accounts(i1 + Concat(r1), o2, i2, r2)
    ensures Accounts(z, o1 + o2, i2, r2)
  {
    Assoc(o1, o2, i2 + Concat(r2));
  }

  lemma AccountsStart(inner: seq<byte>, rest: seq<seq<byte>>)
    ensures Accounts(inner + Concat(rest), [], inner, rest)
  {
    var z := inner + Concat(rest);
    assert [] + z == z;
  }

  lemma AccountsChunk(inner: seq<byte>, rest: seq<seq<byte>>, out: seq<byte>, inner': seq<byte>)
    requires rest != [] && inner + rest[0] == out + inner'
    ensures Accounts(inner + Concat(rest), out, inner', rest[1..])
  {
    ConcatHead(inner, rest);
    Assoc(out, inner', Concat(rest[1..]));
  }

  predicate Commanded(result: HandshakeResult) {
    result.Left? || result.BrokenPipe?
  }

  /** What was sent to the other endpoint, apart from the leave command. */
  function SentBody(out: seq<byte>, commanded: bool): seq<byte>
    requires commanded ==> |out| >= 6
  {
    if commanded then out[..|out| - 6] else out
  }

  /** The leave command is written when the tunnel is given up and then it comes last. */
  ghost predicate CommandIsLast(out: seq<byte>, commanded: bool) {
    commanded ==> |out| >= 6 && out[|out| - 6..] == LEAVE_TLS_COMMAND
  }

  /** Everything that a reaction does to the first-hand bytes. */
  lemma OnReadFirst(e: Endpoint, hand: Hand, chunk: seq<byte>)
    requires !e.seen.BothDirections?
    ensures var r := OnRead(e, hand, chunk);
            var commanded := r.outcome.LeftTls? || r.outcome.Draining?;
            && CommandIsLast(r.toSecond, commanded)
            && SentBody(r.toSecond, commanded) + r.ep.first.inner
               == e.first.inner + (if hand.First? then chunk else [])
  {
    var r := OnRead(e, hand, chunk);
    var e1 := SetBuf(e, hand, Append(BufOf(e, hand), chunk));
    var e2 := Scanned(e1, hand);
    assert e2.first.inner == e.first.inner + (if hand.First? then chunk else []);
    var c := CheckedLen(e2.first);
    assert e2.first.inner == e2.first.inner[..c] + e2.first.inner[c..];
  }

  /** What a reaction r does to second-hand bytes z: only a complete leave command takes bytes
      away. */
  ghost predicate SecondKept(z: seq<byte>, r: Reaction) {
    match r.outcome
    case LeftTls(Passive) =>
      && r.toFirst == [] && |z| >= 6 && z[|z| - 6] == 0xff
      && r.ep.second == Buf(z[..|z| - 6], |z| - 6)
    case LeftTls(Active) =>
      && r.ep.second == Buf([], 0)
      && |r.toFirst| + 5 <= |z| && r.toFirst == z[..|r.toFirst|]
      && z[|r.toFirst|] == 0xff && RecordEnd(z, |r.toFirst|) <= |z|
    case _ => r.toFirst + r.ep.second.inner == z
  }

  /** Between two reads at most the beginning of a record header is held back. */
  predicate Idle(e: Endpoint) {
    |e.first.inner| < e.first.cursor + 5 && |e.second.inner| < e.second.cursor + 5
  }

  lemma AfterScanSecond(e: Endpoint, hand: Hand, verdict: Verdict)
    requires verdict == Leave(Passive) ==>
               if hand.Second? then e.second.cursor < |e.second.inner| && e.second.inner[e.second.cursor] == 0xff
               else |e.second.inner| < e.second.cursor + 5
    ensures SecondKept(e.second.inner, AfterScan(e, hand, verdict))
  {
    hide DrainEval;
    var c := CheckedLen(e.second);
    assert e.second.inner == e.second.inner[..c] + e.second.inner[c..];
    DrainEvalKeeps(e.second);
  }

  lemma OnReadSecond(e: Endpoint, hand: Hand, chunk: seq<byte>)
    requires !e.seen.BothDirections? && Idle(e)
    ensures SecondKept(e.second.inner + (if hand.Second? then chunk else []), OnRead(e, hand, chunk))
  {
    hide AfterScan, SecondKept, ScanFrom;
    var e1 := SetBuf(e, hand, Append(BufOf(e, hand), chunk));
    var e2 := Scanned(e1, hand);
    assert e2.second.inner == e.second.inner + (if hand.Second? then chunk else []);
    ScanMeaning(BufOf(e1, hand).inner, BufOf(e1, hand).cursor, e.seen, DirectionOf(e.side, hand));
    AfterScanSecond(e2, hand, ScanHand(e1, hand).verdict);
  }

  lemma DrainEvalKeeps(b: Buf)
    ensures var d := DrainEval(b);
            if d.complete
            then
              && d.buf == Buf([], 0)
              && |d.emitted| + 5 <= |b.inner| && d.emitted == b.inner[..|d.emitted|]
              && b.inner[|d.emitted|] == 0xff && RecordEnd(b.inner, |d.emitted|) <= |b.inner|
            else d.emitted + d.buf.inner == b.inner
  {
    hide SkipRecords;
    SkipMeaning(b.inner, b.cursor);
    var b1 := Buf(b.inner, SkipRecords(b.inner, b.cursor));
    assert Checked(b1) + Pop(b1).inner == b.inner;
  }

  // ---- no byte is lost by a handshake ---------------------------------------------------------

  lemma AccountsSame(inner: seq<byte>, rest: seq<seq<byte>>, out: seq<byte>, inner': seq<byte>)
    requires inner == out + inner'
    ensures Accounts(inner + Concat(rest), out, inner', rest)
  {
    Assoc(out, inner', Concat(rest));
  }

  lemma SentBodyAppend(o: seq<byte>, out: seq<byte>, commanded: bool)
    requires CommandIsLast(out, commanded)
    ensures CommandIsLast(o + out, commanded)
    ensures SentBody(o + out, commanded) == o + SentBody(out, commanded)
  {
  }

  function Rest(hand: Hand, at: Hand, incoming: seq<seq<byte>>): seq<seq<byte>>
    requires hand == at ==> incoming != []
  {
    if hand == at then incoming[1..] else incoming
  }

  lemma FirstStep(e: Endpoint, hand: Hand, chunk: seq<byte>, firstIn: seq<seq<byte>>)
    requires !e.seen.BothDirections?
    requires hand.First? ==> firstIn != [] && firstIn[0] == chunk
    ensures var r := OnRead(e, hand, chunk);
            var commanded := r.outcome.LeftTls? || r.outcome.Draining?;
            && CommandIsLast(r.toSecond, commanded)
            && Accounts(e.first.inner + Concat(firstIn), SentBody(r.toSecond, commanded),
                        r.ep.first.inner, Rest(hand, First, firstIn))
  {
    hide OnRead, Concat, Accounts;
    OnReadFirst(e, hand, chunk);
    var r := OnRead(e, hand, chunk);
    var body := SentBody(r.toSecond, r.outcome.LeftTls? || r.outcome.Draining?);
    if hand.First? {
      AccountsChunk(e.first.inner, firstIn, body, r.ep.first.inner);
    } else {
      assert e.first.inner + [] == e.first.inner;
      AccountsSame(e.first.inner, firstIn, body, r.ep.first.inner);
    }
  }

  /** First-hand bytes: whatever the outcome, what was sent to the other endpoint without the
      final leave command, then what is buffered, then what was not read yet, is the input. */
  lemma {:induction false} HandshakeFirst(e: Endpoint, order: seq<Direction>, firstIn: seq<seq<byte>>,
                                          secondIn: seq<seq<byte>>)
    requires !e.seen.BothDirections?
    ensures var r := Handshake(e, order, firstIn, secondIn);
            && CommandIsLast(r.toSecond, Commanded(r.result))
            && Accounts(e.first.inner + Concat(firstIn), SentBody(r.toSecond, Commanded(r.result)),
                        r.ep.first.inner, r.firstRest)
    decreases |order|
  {
    hide OnRead, DrainAll, Concat, Accounts;
    AccountsStart(e.first.inner, firstIn);
    if order != [] {
      var hand := HandOf(e.side, order[0]);
      var incoming := if hand.First? then firstIn else secondIn;
      if incoming != [] {
        FirstStep(e, hand, incoming[0], firstIn);
        var r := OnRead(e, hand, incoming[0]);
        var firstIn', secondIn' := Rest(hand, First, firstIn), Rest(hand, Second, secondIn);
        if r.outcome.Continue? {
          var n := Handshake(r.ep, order[1..], firstIn', secondIn');
          HandshakeFirst(r.ep, order[1..], firstIn', secondIn');
          SentBodyAppend(r.toSecond, n.toSecond, Commanded(n.result));
          AccountsTrans(e.first.inner + Concat(firstIn), r.toSecond, r.ep.first.inner, firstIn',
                        SentBody(n.toSecond, Commanded(n.result)), n.ep.first.inner, n.firstRest);
        }
      }
    }
  }

  /** How a finished handshake accounts for the second-hand bytes z: everything is kept, except
      a leave command when the tunnel was left, which was complete. */
  ghost predicate SecondAccounts(z: seq<byte>, r: HandshakeRun) {
    match r.result
    case Left(Passive) =>
      var k := |r.toFirst| + |r.ep.second.inner|;
      && k + 6 <= |z| && z[k] == 0xff
      && r.toFirst + r.ep.second.inner == z[..k] && Concat(r.secondRest) == z[k + 6..]
      && r.ep.second.cursor == |r.ep.second.inner|
    case Left(Active) =>
      var k := |r.toFirst|;
      && k + 5 <= |z| && z[k] == 0xff
      && r.toFirst == z[..k] && r.ep.second == Buf([], 0)
      && RecordEnd(z, k) <= |z| - |Concat(r.secondRest)|
      && Concat(r.secondRest) == z[|z| - |Concat(r.secondRest)|..]
    case _ => Accounts(z, r.toFirst, r.ep.second.inner, r.secondRest)
  }

  lemma SecondAccountsPrepend(o: seq<byte>, z: seq<byte>, r: HandshakeRun)
    requires SecondAccounts(z, r)
    ensures SecondAccounts(o + z, r.(toFirst := o + r.toFirst))
  {
    hide Concat;
    var y, r' := o + z, r.(toFirst := o + r.toFirst);
    var rest := Concat(r.secondRest);
    match r.result {
      case Left(Passive) =>
        var k := |r.toFirst| + |r.ep.second.inner|;
        Assoc(o, r.toFirst, r.ep.second.inner);
        assert y[|o| + k] == z[k] && y[..|o| + k] == o + z[..k] && y[|o| + k + 6..] == z[k + 6..];
      case Left(Active) =>
        var k := |r.toFirst|;
        assert y[|o| + k] == z[k] && y[..|o| + k] == o + z[..k];
        assert y[|o| + k + 3] == z[k + 3] && y[|o| + k + 4] == z[k + 4];
        assert y[|y| - |rest|..] == z[|z| - |rest|..];
      case _ => Assoc(o, r.toFirst, r.ep.second.inner + rest);
    }
  }

  lemma OnReadIdle(e: Endpoint, hand: Hand, chunk: seq<byte>)
    requires !e.seen.BothDirections? && Idle(e)
    requires OnRead(e, hand, chunk).outcome.Continue?
    ensures Idle(OnRead(e, hand, chunk).ep)
  {
    hide ScanFrom;
    var b := Append(BufOf(e, hand), chunk);
    if ScanBuf(b, e.seen, DirectionOf(e.side, hand)).verdict.Incomplete? {
      HeldBackAfterRelay(b, e.seen, DirectionOf(e.side, hand));
    }
  }

  /** One reaction, seen from all second-hand bytes still to come. */
  lemma SecondStep(e: Endpoint, hand: Hand, chunk: seq<byte>, secondIn: seq<seq<byte>>)
    requires !e.seen.BothDirections? && Idle(e)
    requires hand.Second? ==> secondIn != [] && secondIn[0] == chunk
    ensures var r := OnRead(e, hand, chunk);
            var z := e.second.inner + Concat(secondIn);
            var rest := Rest(hand, Second, secondIn);
            && (!r.outcome.LeftTls? ==> Accounts(z, r.toFirst, r.ep.second.inner, rest))
            && forall f, mode :: r.outcome == LeftTls(mode) ==>
                 SecondAccounts(z, HandshakeRun(r.ep, r.toFirst, r.toSecond, f, rest, Left(mode)))
  {
    hide OnRead, Concat, Accounts;
    OnReadSecond(e, hand, chunk);
    var r := OnRead(e, hand, chunk);
    var z, rest := e.second.inner + Concat(secondIn), Rest(hand, Second, secondIn);
    var z1 := e.second.inner + (if hand.Second? then chunk else []);
    if hand.Second? {
      ConcatHead(e.second.inner, secondIn);
    } else {
      assert z1 == e.second.inner;
    }
    assert z == z1 + Concat(rest);
    if !r.outcome.LeftTls? {
      AccountsSame(z1, rest, r.toFirst, r.ep.second.inner);
    }
  }

  lemma DrainAccounts(b: Buf, rest: seq<seq<byte>>, r: HandshakeRun)
    requires var d := DrainAll(b, rest);
             && r.toFirst == d.emitted && r.secondRest == d.rest && r.ep.second == d.buf
             && r.result == if d.ok then Left(Active) else BrokenPipe
    ensures SecondAccounts(b.inner + Concat(rest), r)
  {
    hide DrainAll, Concat, NoLeaveBefore;
    var z := b.inner + Concat(rest);
    assert b.inner == z[0..|b.inner|] && Concat(rest) == z[|b.inner|..];
    DrainFindsALeave(z, 0, |b.inner|, b, b.cursor, rest);
    if DrainAll(b, rest).ok {
      var e: nat :| LeaveAt(z, b.cursor, e);
      DrainWritesExactlyTheRecords(b, rest, e);
    } else {
      ConcatNil<byte>();
      assert z[0..] == z && r.ep.second.inner + [] == r.ep.second.inner;
    }
  }

  lemma ConcatNil<T>()
    ensures Concat<T>([]) == []
  {
  }

  /** Second-hand bytes: nothing is lost but a complete leave command. */
  lemma {:induction false} HandshakeSecond(e: Endpoint, order: seq<Direction>, firstIn: seq<seq<byte>>,
                                           secondIn: seq<seq<byte>>)
    requires !e.seen.BothDirections? && Idle(e)
    ensures SecondAccounts(e.second.inner + Concat(secondIn), Handshake(e, order, firstIn, secondIn))
    decreases |order|
  {
    hide OnRead, DrainAll, Concat, Accounts, Idle, RecordEnd;
    AccountsStart(e.second.inner, secondIn);
    if order != [] {
      var hand := HandOf(e.side, order[0]);
      var incoming := if hand.First? then firstIn else secondIn;
      if incoming != [] {
        SecondStep(e, hand, incoming[0], secondIn);
        var r := OnRead(e, hand, incoming[0]);
        var firstIn', secondIn' := Rest(hand, First, firstIn), Rest(hand, Second, secondIn);
        if r.outcome.Continue? {
          OnReadIdle(e, hand, incoming[0]);
          HandshakeSecond(r.ep, order[1..], firstIn', secondIn');
          SecondContinues(e.second.inner + Concat(secondIn), r, secondIn',
                          Handshake(r.ep, order[1..], firstIn', secondIn'));
        } else if r.outcome.Draining? {
          var d := DrainAll(r.ep.second, secondIn');
          var n := HandshakeRun(r.ep.(second := d.buf), d.emitted, r.toSecond, firstIn', d.rest,
                                if d.ok then Left(Active) else BrokenPipe);
          DrainAccounts(r.ep.second, secondIn', n);
          SecondContinues(e.second.inner + Concat(secondIn), r, secondIn', n);
        }
      }
    }
  }

  lemma SecondContinues(z: seq<byte>, r: Reaction, rest: seq<seq<byte>>, n: HandshakeRun)
    requires Accounts(z, r.toFirst, r.ep.second.inner, rest)
    requires SecondAccounts(r.ep.second.inner + Concat(rest), n)
    ensures SecondAccounts(z, n.(toFirst := r.toFirst + n.toFirst))
    ensures forall out :: SecondAccounts(z, n.(toFirst := r.toFirst + n.toFirst, toSecond := out))
  {
    hide Concat, RecordEnd;
    SecondAccountsPrepend(r.toFirst, r.ep.second.inner + Concat(rest), n);
  }

  // ---- the endpoint as an object -------------------------------------------------------------

  /** What remains of a handshake whose outcome is goal. */
  ghost predicate ToGo(goal: HandshakeRun, outFirst: seq<byte>, outSecond: seq<byte>, e: Endpoint,
                       order: seq<Direction>, firstIn: seq<seq<byte>>, secondIn: seq<seq<byte>>)
  {
    !e.seen.BothDirections? &&
    var n := Handshake(e, order, firstIn, secondIn);
    goal == n.(toFirst := outFirst + n.toFirst, toSecond := outSecond + n.toSecond)
  }

  lemma ToGoStart(e: Endpoint, order: seq<Direction>, firstIn: seq<seq<byte>>, secondIn: seq<seq<byte>>)
    requires !e.seen.BothDirections?
    ensures ToGo(Handshake(e, order, firstIn, secondIn), [], [], e, order, firstIn, secondIn)
  {
    var n := Handshake(e, order, firstIn, secondIn);
    assert [] + n.toFirst == n.toFirst && [] + n.toSecond == n.toSecond;
  }

  lemma ToGoSeen(goal: HandshakeRun, outFirst: seq<byte>, outSecond: seq<byte>, e: Endpoint,
                 order: seq<Direction>, firstIn: seq<seq<byte>>, secondIn: seq<seq<byte>>)
    requires ToGo(goal, outFirst, outSecond, e, order, firstIn, secondIn)
    ensures !e.seen.BothDirections?
  {
  }

  /** The end of a handshake without a reaction. */
  lemma ToGoStops(goal: HandshakeRun, outFirst: seq<byte>, outSecond: seq<byte>, e: Endpoint,
                  order: seq<Direction>, firstIn: seq<seq<byte>>, secondIn: seq<seq<byte>>)
    requires ToGo(goal, outFirst, outSecond, e, order, firstIn, secondIn)
    requires order == [] || (if HandOf(e.side, order[0]).First? then firstIn else secondIn) == []
    ensures goal == HandshakeRun(e, outFirst, outSecond, firstIn, secondIn,
                                 if order == [] then TimedOut else EndOfStream)
  {
    assert outFirst + [] == outFirst && outSecond + [] == outSecond;
  }

  /** What an iteration does after its scan, reading on when the endpoint is active; a result
      ends the handshake. */
  datatype Iteration = Iteration(ep: Endpoint, toFirst: seq<byte>, toSecond: seq<byte>,
                                 secondRest: seq<seq<byte>>, result: Option<HandshakeResult>)

  function Iterate(e: Endpoint, hand: Hand, verdict: Verdict, secondIn: seq<seq<byte>>): Iteration {
    match verdict
    case Incomplete =>
      var r := Relay(e, hand);
      Iteration(r.ep, r.toFirst, r.toSecond, secondIn, None)
    case Invalid => Iteration(e, [], [], secondIn, Some(NotTlsStream))
    case Leave(Active) =>
      var d := DrainAll(e.second, secondIn);
      Iteration(e.(first := Pop(e.first), second := d.buf), d.emitted, Checked(e.first) + LEAVE_TLS_COMMAND,
                d.rest, Some(if d.ok then Left(Active) else BrokenPipe))
    case Leave(Passive) =>
      var r := GoPassive(e);
      Iteration(r.ep, r.toFirst, r.toSecond, secondIn,
                Some(if r.outcome.LeftTls? then Left(Passive) else NotTlsStream))
  }

  /** A handshake is its first iteration followed by the rest of it. */
  lemma HandshakeUnfold(e: Endpoint, order: seq<Direction>, firstIn: seq<seq<byte>>, secondIn: seq<seq<byte>>)
    requires !e.seen.BothDirections? && order != []
    requires (if HandOf(e.side, order[0]).First? then firstIn else secondIn) != []
    ensures var hand := HandOf(e.side, order[0]);
            var chunk := (if hand.First? then firstIn else secondIn)[0];
            var e1 := SetBuf(e, hand, Append(BufOf(e, hand), chunk));
            var firstIn' := Rest(hand, First, firstIn);
            var x := Iterate(Scanned(e1, hand), hand, ScanHand(e1, hand).verdict, Rest(hand, Second, secondIn));
            match x.result
            case None =>
              && !x.ep.seen.BothDirections? && x.ep.side == e.side
              && var n := Handshake(x.ep, order[1..], firstIn', x.secondRest);
                 Handshake(e, order, firstIn, secondIn)
                 == n.(toFirst := x.toFirst + n.toFirst, toSecond := x.toSecond + n.toSecond)
            case Some(result) =>
              Handshake(e, order, firstIn, secondIn)
              == HandshakeRun(x.ep, x.toFirst, x.toSecond, firstIn', x.secondRest, result)
  {
    hide ScanFrom, DrainAll, DrainEval;
    var hand := HandOf(e.side, order[0]);
    var chunk := (if hand.First? then firstIn else secondIn)[0];
    var e1 := SetBuf(e, hand, Append(BufOf(e, hand), chunk));
    var e2 := Scanned(e1, hand);
    DrainAllResume(e2.second, Rest(hand, Second, secondIn));
  }

  lemma ToGoOn(goal: HandshakeRun, outFirst: seq<byte>, outSecond: seq<byte>, e: Endpoint,
               order: seq<Direction>, firstIn: seq<seq<byte>>, secondIn: seq<seq<byte>>)
    requires ToGo(goal, outFirst, outSecond, e, order, firstIn, secondIn) && order != []
    requires (if HandOf(e.side, order[0]).First? then firstIn else secondIn) != []
    ensures var hand := HandOf(e.side, order[0]);
            var chunk := (if hand.First? then firstIn else secondIn)[0];
            var e1 := SetBuf(e, hand, Append(BufOf(e, hand), chunk));
            var firstIn' := Rest(hand, First, firstIn);
            var x := Iterate(Scanned(e1, hand), hand, ScanHand(e1, hand).verdict, Rest(hand, Second, secondIn));
            if x.result == None
            then ToGo(goal, outFirst + x.toFirst, outSecond + x.toSecond, x.ep, order[1..], firstIn', x.secondRest)
            else goal == HandshakeRun(x.ep, outFirst + x.toFirst, outSecond + x.toSecond, firstIn',
                                      x.secondRest, x.result.value)
  {
    hide Iterate, Handshake, ScanFrom, Append;
    HandshakeUnfold(e, order, firstIn, secondIn);
    var hand := HandOf(e.side, order[0]);
    var chunk := (if hand.First? then firstIn else secondIn)[0];
    var e1 := SetBuf(e, hand, Append(BufOf(e, hand), chunk));
    var x := Iterate(Scanned(e1, hand), hand, ScanHand(e1, hand).verdict, Rest(hand, Second, secondIn));
    if x.result == None {
      var n := Handshake(x.ep, order[1..], Rest(hand, First, firstIn), x.secondRest);
      Assoc(outFirst, x.toFirst, n.toFirst);
      Assoc(outSecond, x.toSecond, n.toSecond);
    }
  }

  class LiteTlsStream {
    const side: LiteTlsEndpointSide
    const inboundBuf: TlsRelayBuffer
    const outboundBuf: TlsRelayBuffer
    var recieved0x17: Seen0x17
    var version: Option<LeaveTlsMode>

    ghost predicate Valid() {
      inboundBuf != outboundBuf
    }

    function FirstHandBuf(): TlsRelayBuffer {
      if side.ClientSide? then inboundBuf else outboundBuf
    }

    function SecondHandBuf(): TlsRelayBuffer {
      if side.ClientSide? then outboundBuf else inboundBuf
    }

    function FirstHandIo(outbound: Stream, inbound: Stream): Stream {
      if side.ClientSide? then inbound else outbound
    }

    function SecondHandIo(outbound: Stream, inbound: Stream): Stream {
      if side.ClientSide? then outbound else inbound
    }

    function View(): Endpoint
      reads this, inboundBuf, outboundBuf
    {
      Endpoint(side, FirstHandBuf().View(), SecondHandBuf().View(), recieved0x17)
    }

    constructor (side: LiteTlsEndpointSide)
      ensures Valid() && fresh(inboundBuf) && fresh(outboundBuf) && this.side == side
      ensures View() == Endpoint(side, Buf([], 0), Buf([], 0), Nothing) && version == None
    {
      this.side := side;
      inboundBuf := new TlsRelayBuffer();
      outboundBuf := new TlsRelayBuffer();
      recieved0x17 := Nothing;
      version := None;
    }

    /** Writes what is checked of one direction to the stream on the other side. */
    method RelayPending(dir: Direction, outbound: Stream, inbound: Stream)
      requires Valid() && inbound != outbound
      modifies inboundBuf, outboundBuf, outbound`written, inbound`written
      ensures var r := Relay(old(View()), HandOf(side, dir));
              && View() == r.ep
              && FirstHandIo(outbound, inbound).written
                 == old(FirstHandIo(outbound, inbound).written) + r.toFirst
              && SecondHandIo(outbound, inbound).written
                 == old(SecondHandIo(outbound, inbound).written) + r.toSecond
    {
      match dir {
        case Inbound =>
          var packets := inboundBuf.CheckedPackets();
          if |packets| == 0 {
            return;
          }
          outbound.Write(packets);
          inboundBuf.PopCheckedPackets();
        case Outbound =>
          var packets := outboundBuf.CheckedPackets();
          if |packets| == 0 {
            return;
          }
          inbound.Write(packets);
          outboundBuf.PopCheckedPackets();
      }
    }

    method HandshakeTls12Active(firstHandIo: Stream, secondHandIo: Stream) returns (ok: bool)
      requires Valid() && firstHandIo != secondHandIo && secondHandIo.Valid()
      modifies this`version, inboundBuf, outboundBuf, firstHandIo`written
      modifies secondHandIo`written, secondHandIo`incoming, secondHandIo`received
      ensures secondHandIo.Valid()
      ensures var e := old(View());
              var d := DrainAll(e.second, old(secondHandIo.incoming));
              && View() == e.(first := Pop(e.first), second := d.buf)
              && secondHandIo.written == old(secondHandIo.written) + (Checked(e.first) + LEAVE_TLS_COMMAND)
              && firstHandIo.written == old(firstHandIo.written) + d.emitted
              && secondHandIo.incoming == d.rest
              && ok == d.ok && version == if ok then Some(Active) else old(version)
    {
      hide DrainAll;
      var tmp := FirstHandBuf().CheckedPackets();
      FirstHandBuf().PopCheckedPackets();
      tmp := tmp + LEAVE_TLS_COMMAND;
      secondHandIo.Write(tmp);
      ok := SecondHandBuf().Tls12RelayUntil0xff(secondHandIo, firstHandIo);
      if ok {
        version := Some(Active);
      }
    }

    method HandshakeTls12Passive(secondHandIo: Stream) returns (ok: bool)
      requires Valid()
      modifies this`version, inboundBuf, outboundBuf, secondHandIo`written
      ensures var r := GoPassive(old(View()));
              && View() == r.ep
              && secondHandIo.written == old(secondHandIo.written) + r.toSecond
              && ok == (r.outcome == LeftTls(Passive))
              && version == if ok then Some(Passive) else old(version)
    {
      ok := SecondHandBuf().Drop0xff();
      if !ok {
        return;
      }
      secondHandIo.Write(LEAVE_TLS_COMMAND);
      version := Some(Passive);
    }

    /** One read from whichever stream is ready, and the scan of what it left in the buffer. */
    method ReadAndScan(dir: Direction, outbound: Stream, inbound: Stream)
      returns (chunk: seq<byte>, verdict: Verdict)
      requires Valid() && inbound != outbound && inbound.Valid() && outbound.Valid()
      requires !recieved0x17.BothDirections?
      modifies this`recieved0x17, inboundBuf, outboundBuf
      modifies inbound`incoming, inbound`received, outbound`incoming, outbound`received
      ensures inbound.Valid() && outbound.Valid()
      ensures var hand := HandOf(side, dir);
              var incoming := old(if dir.Inbound? then inbound.incoming else outbound.incoming);
              && (incoming == [] ==> chunk == [] && View() == old(View()))
              && (incoming != [] ==>
                    && chunk == incoming[0] && chunk != []
                    && var e1 := SetBuf(old(View()), hand, Append(BufOf(old(View()), hand), chunk));
                       View() == Scanned(e1, hand) && verdict == ScanHand(e1, hand).verdict)
              && inbound.incoming == (if dir.Inbound? && incoming != [] then incoming[1..] else old(inbound.incoming))
              && outbound.incoming
                 == (if dir.Outbound? && incoming != [] then incoming[1..] else old(outbound.incoming))
    {
      hide ScanFrom;
      verdict := Incomplete;
      if dir.Inbound? {
        chunk := inbound.Read();
        if chunk != [] {
          inboundBuf.Extend(chunk);
          recieved0x17, verdict := inboundBuf.FindKeyPackets(recieved0x17, dir);
        }
      } else {
        chunk := outbound.Read();
        if chunk != [] {
          outboundBuf.Extend(chunk);
          recieved0x17, verdict := outboundBuf.FindKeyPackets(recieved0x17, dir);
        }
      }
    }

    /** What follows the scan of an iteration. */
    method Continue(dir: Direction, verdict: Verdict, outbound: Stream, inbound: Stream)
      returns (result: Option<HandshakeResult>)
      requires Valid() && inbound != outbound && inbound.Valid() && outbound.Valid()
      modifies this`version, inboundBuf, outboundBuf, inbound, outbound
      ensures inbound.Valid() && outbound.Valid()
      ensures var x := Iterate(old(View()), HandOf(side, dir), verdict, old(SecondHandIo(outbound, inbound).incoming));
              && View() == x.ep && result == x.result
              && FirstHandIo(outbound, inbound).incoming == old(FirstHandIo(outbound, inbound).incoming)
              && SecondHandIo(outbound, inbound).incoming == x.secondRest
              && FirstHandIo(outbound, inbound).written == old(FirstHandIo(outbound, inbound).written) + x.toFirst
              && SecondHandIo(outbound, inbound).written == old(SecondHandIo(outbound, inbound).written) + x.toSecond
      ensures version == if result.Some? && result.value.Left? then Some(result.value.mode) else old(version)
    {
      hide DrainAll, DrainEval, Concat;
      var firstHandIo, secondHandIo := FirstHandIo(outbound, inbound), SecondHandIo(outbound, inbound);
      match verdict {
        case Leave(Active) =>
          var ok := HandshakeTls12Active(firstHandIo, secondHandIo);
          result := Some(if ok then Left(Active) else BrokenPipe);
        case Leave(Passive) =>
          var ok := HandshakeTls12Passive(secondHandIo);
          result := Some(if ok then Left(Passive) else NotTlsStream);
        case Invalid =>
          result := Some(NotTlsStream);
        case Incomplete =>
          RelayPending(dir, outbound, inbound);
          result := None;
      }
    }

    /** The scan loop, with the order in which the two streams become readable. */
    method ScanLoop(order: seq<Direction>, outbound: Stream, inbound: Stream) returns (result: HandshakeResult)
      requires Valid() && inbound != outbound && inbound.Valid() && outbound.Valid()
      requires !recieved0x17.BothDirections?
      modifies this`recieved0x17, this`version, inboundBuf, outboundBuf, inbound, outbound
      ensures inbound.Valid() && outbound.Valid()
      ensures var n := Handshake(old(View()), order, old(FirstHandIo(outbound, inbound).incoming),
                                 old(SecondHandIo(outbound, inbound).incoming));
              && result == n.result && View() == n.ep
              && FirstHandIo(outbound, inbound).incoming == n.firstRest
              && SecondHandIo(outbound, inbound).incoming == n.secondRest
              && FirstHandIo(outbound, inbound).written == old(FirstHandIo(outbound, inbound).written) + n.toFirst
              && SecondHandIo(outbound, inbound).written == old(SecondHandIo(outbound, inbound).written) + n.toSecond
      ensures version == if result.Left? then Some(result.mode) else old(version)
    {
      hide Handshake, ToGo, Iterate, DrainAll, DrainEval, Concat, ScanFrom, ScanHand, Scanned, SetBuf, Append,
           Stream.Valid;
      ghost var firstHandIo, secondHandIo := FirstHandIo(outbound, inbound), SecondHandIo(outbound, inbound);
      ghost var goal := Handshake(View(), order, firstHandIo.incoming, secondHandIo.incoming);
      ghost var outFirst, outSecond: seq<byte> := [], [];
      ToGoStart(View(), order, firstHandIo.incoming, secondHandIo.incoming);
      assert order[0..] == order;
      for i := 0 to |order|
        invariant inbound.Valid() && outbound.Valid() && version == old(version)
        invariant ToGo(goal, outFirst, outSecond, View(), order[i..], firstHandIo.incoming, secondHandIo.incoming)
        invariant !recieved0x17.BothDirections?
        invariant firstHandIo.written == old(firstHandIo.written) + outFirst
        invariant secondHandIo.written == old(secondHandIo.written) + outSecond
      {
        ghost var e, firstIn, secondIn := View(), firstHandIo.incoming, secondHandIo.incoming;
        ghost var todo := order[i..];
        var dir := order[i];
        assert todo[0] == dir && todo[1..] == order[i + 1..];
        var chunk, verdict := ReadAndScan(dir, outbound, inbound);
        if chunk == [] {
          ToGoStops(goal, outFirst, outSecond, e, todo, firstIn, secondIn);
          return EndOfStream;
        }
        ToGoOn(goal, outFirst, outSecond, e, todo, firstIn, secondIn);
        ghost var x := Iterate(View(), HandOf(side, dir), verdict, secondHandIo.incoming);
        var ended := Continue(dir, verdict, outbound, inbound);
        Assoc(old(firstHandIo.written), outFirst, x.toFirst);
        Assoc(old(secondHandIo.written), outSecond, x.toSecond);
        outFirst, outSecond := outFirst + x.toFirst, outSecond + x.toSecond;
        if ended.Some? {
          return ended.value;
        }
        ToGoSeen(goal, outFirst, outSecond, View(), order[i + 1..], firstHandIo.incoming, secondHandIo.incoming);
      }
      ToGoStops(goal, outFirst, outSecond, View(), order[|order|..], firstHandIo.incoming, secondHandIo.incoming);
      return TimedOut;
    }

    /** Reads chunk by chunk until the check of the inbound buffer is decided; HelloIncomplete
        stands for the end of the stream. */
    method ClientHello(inbound: Stream) returns (r: HelloCheck)
      requires Valid() && inbound.Valid() && inboundBuf.inner == inbound.received
      modifies inboundBuf, inbound`incoming, inbound`received
      ensures inbound.Valid() && inboundBuf.inner == inbound.received
      ensures HelloRun(r, inboundBuf.inner, inbound.incoming)
              == ReadHello(old(inboundBuf.inner), old(inbound.incoming))
      ensures !r.HelloIncomplete? ==> r == CheckHello(inboundBuf.inner)
    {
      hide CheckHello, Concat;
      while true
        invariant inbound.Valid() && inboundBuf.inner == inbound.received
        invariant ReadHello(inboundBuf.inner, inbound.incoming)
                  == ReadHello(old(inboundBuf.inner), old(inbound.incoming))
        decreases |inbound.incoming|
      {
        var chunk := inbound.Read();
        if chunk == [] {
          return HelloIncomplete;
        }
        inboundBuf.Extend(chunk);
        r := inboundBuf.CheckClientHello();
        if !r.HelloIncomplete? {
          return;
        }
      }
    }

    /** In each direction, what was written followed by what is buffered is what was read. */
    ghost predicate Lossless(outbound: Stream, inbound: Stream)
      reads inboundBuf, outboundBuf, outbound, inbound
    {
      && inbound.received == outbound.written + inboundBuf.inner
      && outbound.received == inbound.written + outboundBuf.inner
    }

    /** The state in which the tunnel is left: the leave command was the last thing written to
        it, and the only thing taken from it without being passed on or kept. */
    ghost predicate LeftCleanly(mode: LeaveTlsMode, firstHandIo: Stream, secondHandIo: Stream)
      reads inboundBuf, outboundBuf, firstHandIo, secondHandIo
    {
      && CommandIsLast(secondHandIo.written, true)
      && firstHandIo.received == SentBody(secondHandIo.written, true) + FirstHandBuf().inner
      && var kept := firstHandIo.written + SecondHandBuf().inner;
         && kept <= secondHandIo.received && |kept| < |secondHandIo.received|
         && secondHandIo.received[|kept|] == 0xff
         && (mode.Passive? ==> |secondHandIo.received| == |kept| + 6)
         && (mode.Active? ==> SecondHandBuf().inner == [])
    }

    /** The scan loop, with everything that was read before it already relayed. */
    method ScanAfterHello(order: seq<Direction>, outbound: Stream, inbound: Stream)
      returns (result: HandshakeResult)
      requires Valid() && inbound != outbound && inbound.Valid() && outbound.Valid()
      requires View() == Endpoint(side, Buf([], 0), Buf([], 0), Nothing) && version == None
      requires inbound.received == outbound.written && outbound.received == inbound.written
      modifies this`recieved0x17, this`version, inboundBuf, outboundBuf, inbound, outbound
      ensures inbound.Valid() && outbound.Valid()
      ensures version == if result.Left? then Some(result.mode) else None
      ensures var n := Handshake(old(View()), order, old(FirstHandIo(outbound, inbound).incoming),
                                 old(SecondHandIo(outbound, inbound).incoming));
              result == n.result && View() == n.ep
      ensures !Commanded(result) ==> Lossless(outbound, inbound)
      ensures result.Left? ==>
                LeftCleanly(result.mode, FirstHandIo(outbound, inbound), SecondHandIo(outbound, inbound))
    {
      hide Handshake, Concat, Stream.Valid;
      ghost var e, firstHandIo, secondHandIo := View(), FirstHandIo(outbound, inbound), SecondHandIo(outbound, inbound);
      ghost var first0, second0 := firstHandIo.received, secondHandIo.received;
      ghost var firstIn, secondIn := firstHandIo.incoming, secondHandIo.incoming;
      Total(firstHandIo);
      Total(secondHandIo);
      result := ScanLoop(order, outbound, inbound);
      Total(firstHandIo);
      Total(secondHandIo);
      HandshakeAccounted(e, order, firstIn, secondIn, Handshake(e, order, firstIn, secondIn), first0,
                         firstHandIo.received, second0, secondHandIo.received);
    }

    /** Client hello, relaying it, and the scan loop; the logs of the streams begin here. */
    method DoHandshake(order: seq<Direction>, outbound: Stream, inbound: Stream) returns (result: HandshakeResult)
      requires Valid() && inbound != outbound && inbound.Valid() && outbound.Valid()
      requires inbound.received == inbound.written == outbound.received == outbound.written == []
      requires View() == Endpoint(side, Buf([], 0), Buf([], 0), Nothing) && version == None
      modifies this`recieved0x17, this`version, inboundBuf, outboundBuf, inbound, outbound
      ensures inbound.Valid() && outbound.Valid()
      ensures version == if result.Left? then Some(result.mode) else None
      ensures var n := WholeHandshake(side, order, old(outbound.incoming), old(inbound.incoming));
              result == n.result && (result.Left? ==> SecondHandBuf().inner == n.ep.second.inner)
      ensures result.NotTlsStream? || result.EndOfStream? || result.TimedOut? ==> Lossless(outbound, inbound)
      ensures result.Left? ==>
                LeftCleanly(result.mode, FirstHandIo(outbound, inbound), SecondHandIo(outbound, inbound))
    {
      hide Concat, CheckHello, ReadHello, Stream.Valid, LeftCleanly, Handshake;
      var hello := ClientHello(inbound);
      match hello {
        case HelloIncomplete => return BrokenPipe;
        case HelloInvalid => return NotTlsStream;
        case HelloOk =>
      }
      outbound.Write(inboundBuf.inner);
      inboundBuf.Reset();
      result := ScanAfterHello(order, outbound, inbound);
    }

    /** Sends what the handshake has kept, over the connection beneath the tunnel.  A passive
        endpoint sends its second-hand bytes together with the first plain chunk; it does not
        send its first-hand bytes. */
    method FlushTls(firstHandIo: Stream, secondHandIo: Stream) returns (ok: bool)
      requires Valid() && version.Some? && firstHandIo != secondHandIo && secondHandIo.Valid()
      requires secondHandIo.received == []
      modifies inboundBuf, outboundBuf, firstHandIo`written
      modifies secondHandIo`written, secondHandIo`incoming, secondHandIo`received
      ensures secondHandIo.Valid()
      ensures !ok <==> version.value.Passive? && old(SecondHandBuf().inner) != [] && old(secondHandIo.incoming) == []
      ensures version.value.Active? ==>
                && ok && secondHandIo.written == old(secondHandIo.written + FirstHandBuf().inner)
                && FirstHandBuf().inner == [] && SecondHandBuf().inner == old(SecondHandBuf().inner)
                && firstHandIo.written == old(firstHandIo.written) && secondHandIo.received == []
      ensures version.value.Passive? ==>
                && FirstHandBuf().inner == old(FirstHandBuf().inner)
                && secondHandIo.written == old(secondHandIo.written)
                && (ok ==>
                      && SecondHandBuf().inner == []
                      && firstHandIo.written
                         == old(firstHandIo.written + SecondHandBuf().inner) + secondHandIo.received)
    {
      ok := true;
      match version.value {
        case Passive =>
          if |SecondHandBuf().inner| > 0 {
            var chunk := secondHandIo.Read();
            if chunk == [] {
              return false;
            }
            SecondHandBuf().Extend(chunk);
            firstHandIo.Write(SecondHandBuf().inner);
            SecondHandBuf().Reset();
          }
        case Active =>
          secondHandIo.Write(FirstHandBuf().inner);
          FirstHandBuf().Reset();
      }
    }

    /** Sends everything that is buffered through the tunnel. */
    method FlushNonTls(outbound: Stream, inbound: Stream)
      requires Valid() && outbound != inbound
      modifies inboundBuf, outboundBuf, outbound`written, inbound`written
      ensures outbound.written == old(outbound.written + inboundBuf.inner)
      ensures inbound.written == old(inbound.written + outboundBuf.inner)
      ensures inboundBuf.inner == [] && outboundBuf.inner == []
    {
      if |inboundBuf.inner| > 0 {
        outbound.Write(inboundBuf.inner);
        inboundBuf.Reset();
      }
      if |outboundBuf.inner| > 0 {
        inbound.Write(outboundBuf.inner);
        outboundBuf.Reset();
      }
    }

    /** The Lite-TLS arm of an endpoint up to the point where plain copying begins: the
        handshake, then either leaving the tunnel or falling back to it. */
    method StartRelay(order: seq<Direction>, outbound: Stream, inbound: Stream, plain: Stream)
      returns (start: RelayStart)
      requires Valid() && inbound != outbound && plain != inbound && plain != outbound
      requires inbound.Valid() && outbound.Valid() && plain.Valid()
      requires inbound.received == inbound.written == outbound.received == outbound.written == []
      requires plain.received == plain.written == []
      requires View() == Endpoint(side, Buf([], 0), Buf([], 0), Nothing) && version == None
      modifies this`recieved0x17, this`version, inboundBuf, outboundBuf, inbound, outbound, plain
      ensures var n := WholeHandshake(side, order, old(outbound.incoming), old(inbound.incoming));
              && (start.ThroughTunnel? <==> n.result.NotTlsStream?)
              && (start.Closed? <==> n.result.EndOfStream?)
              && (start.Plainly? <==>
                    && n.result.Left?
                    && (n.result.mode.Passive? && n.ep.second.inner != [] ==> old(plain.incoming) != []))
              && (start.Plainly? ==> start.mode == n.result.mode)
      ensures start.ThroughTunnel? ==>
                outbound.written == inbound.received && inbound.written == outbound.received
      ensures start.Plainly? ==>
                var firstHandIo, secondHandIo := FirstHandIo(outbound, inbound), SecondHandIo(outbound, inbound);
                && CommandIsLast(secondHandIo.written, true)
                && firstHandIo.received == SentBody(secondHandIo.written, true) + plain.written + FirstHandBuf().inner
                && (start.mode.Active? ==> FirstHandBuf().inner == [])
                && SecondHandBuf().inner == []
                && var kept := |firstHandIo.written| - |plain.received|;
                   && 0 <= kept < |secondHandIo.received|
                   && firstHandIo.written == secondHandIo.received[..kept] + plain.received
                   && secondHandIo.received[kept] == 0xff
    {
      hide Concat, CommandIsLast, WholeHandshake;
      var result := DoHandshake(order, outbound, inbound);
      match result {
        case Left(mode) =>
          var ok := FlushTls(FirstHandIo(outbound, inbound), plain);
          return if ok then Plainly(mode) else Broken;
        case NotTlsStream =>
          FlushNonTls(outbound, inbound);
          return ThroughTunnel;
        case EndOfStream => return Closed;
        case _ => return Broken;
      }
    }
  }

  datatype RelayStart = Plainly(mode: LeaveTlsMode) | ThroughTunnel | Closed | Broken

  lemma Total(s: Stream)
    requires s.Valid()
    ensures s.total == s.received + Concat(s.incoming)
  {
  }

  /** How a handshake accounts for everything read before and during it. */
  lemma HandshakeAccounted(e: Endpoint, order: seq<Direction>, firstIn: seq<seq<byte>>, secondIn: seq<seq<byte>>,
                           n: HandshakeRun, first0: seq<byte>, first1: seq<byte>, second0: seq<byte>,
                           second1: seq<byte>)
    requires !e.seen.BothDirections? && n == Handshake(e, order, firstIn, secondIn)
    requires e.first == Buf([], 0) && e.second == Buf([], 0)
    requires first0 + Concat(firstIn) == first1 + Concat(n.firstRest)
    requires second0 + Concat(secondIn) == second1 + Concat(n.secondRest)
    ensures !Commanded(n.result) ==>
              && first1 == (first0 + n.toSecond) + n.ep.first.inner
              && second1 == (second0 + n.toFirst) + n.ep.second.inner
    ensures n.result.Left? ==>
              var sent, kept := first0 + n.toSecond, (second0 + n.toFirst) + n.ep.second.inner;
              && CommandIsLast(sent, true) && first1 == SentBody(sent, true) + n.ep.first.inner
              && kept <= second1 && |kept| < |second1| && second1[|kept|] == 0xff
              && (n.result.mode.Passive? ==> |second1| == |kept| + 6)
              && (n.result.mode.Active? ==> n.ep.second.inner == [])
  {
    hide Handshake, Concat, Accounts, SecondAccounts, CommandIsLast;
    HandshakeFirst(e, order, firstIn, secondIn);
    HandshakeSecond(e, order, firstIn, secondIn);
    FirstIsKept(first0, firstIn, first1, n);
    SecondIsKept(second0, secondIn, second1, n);
    SentBodyAppend(first0, n.toSecond, Commanded(n.result));
  }

  lemma Cancel<T>(a: seq<T>, b: seq<T>, r: seq<T>)
    requires a + r == b + r
    ensures a == b
  {
    assert (a + r)[..|a|] == a && (b + r)[..|b|] == b;
  }

  lemma FirstIsKept(before: seq<byte>, incoming: seq<seq<byte>>, after: seq<byte>, n: HandshakeRun)
    requires before + Concat(incoming) == after + Concat(n.firstRest)
    requires CommandIsLast(n.toSecond, Commanded(n.result))
    requires Accounts([] + Concat(incoming), SentBody(n.toSecond, Commanded(n.result)), n.ep.first.inner, n.firstRest)
    ensures after == (before + SentBody(n.toSecond, Commanded(n.result))) + n.ep.first.inner
  {
    var body, inner, rest := SentBody(n.toSecond, Commanded(n.result)), n.ep.first.inner, Concat(n.firstRest);
    hide Concat, SentBody;
    assert [] + Concat(incoming) == Concat(incoming);
    Assoc(before, body, inner + rest);
    Assoc(before + body, inner, rest);
    Cancel(after, (before + body) + inner, rest);
  }

  lemma SecondIsKept(before: seq<byte>, incoming: seq<seq<byte>>, after: seq<byte>, n: HandshakeRun)
    requires before + Concat(incoming) == after + Concat(n.secondRest)
    requires SecondAccounts([] + Concat(incoming), n)
    ensures var kept := (before + n.toFirst) + n.ep.second.inner;
            match n.result
            case Left(mode) =>
              && kept <= after && |kept| < |after| && after[|kept|] == 0xff
              && (mode.Passive? ==> |after| == |kept| + 6)
              && (mode.Active? ==> n.ep.second.inner == [])
            case _ => after == kept
  {
    hide Concat;
    var inner, rest, z := n.ep.second.inner, Concat(n.secondRest), Concat(incoming);
    assert [] + z == z;
    if n.result.Left? {
      var k := |n.toFirst| + |inner|;
      assert n.toFirst + inner == z[..k];
      assert k < |z| - |rest| && z[k] == 0xff;
      Assoc(before, n.toFirst, inner);
      PrefixOf(before, z, k, after, rest);
    } else {
      var kept := (before + n.toFirst) + inner;
      assert after + rest == kept + rest;
      Cancel(after, kept, rest);
    }
  }

  lemma PrefixOf(before: seq<byte>, z: seq<byte>, k: nat, after: seq<byte>, rest: seq<byte>)
    requires before + z == after + rest && k < |z| - |rest|
    ensures before + z[..k] <= after && |before| + k < |after| && after[|before| + k] == z[k]
  {
    var y := before + z;
    assert |after| == |y| - |rest|;
    assert after == y[..|after|];
    assert before + z[..k] == y[..|before| + k];
    assert y[|before| + k] == z[k];
  }
}
