/** A run of the two endpoints that loses a byte: the user's bytes are read in the middle of a
    record header, and the client leaves the tunnel passively before the rest of it arrives. */
module LeaveProtocolExample {
  import opened Bytes
  import opened TlsRecords
  import opened TlsRelayBuffers
  import opened LiteTlsStreams
  import opened LeaveProtocol

  /** An application-data record without payload. */
  const RECORD: seq<byte> := [0x17, 3, 3, 0, 0]

  const TWO_RECORDS: seq<byte> := [0x17, 3, 3, 0, 0, 0x17, 3, 3, 0, 0]

  const RUN: Run := [
    (ClientSide, Send(TWO_RECORDS)),
    (ClientSide, ReadFirst(6)),
    (ServerSide, ReadSecond(5)),
    (ServerSide, Send(RECORD)),
    (ServerSide, ReadFirst(5)),
    (ClientSide, ReadSecond(6)),
    (ServerSide, ReadToLeave(6)),
    (ClientSide, Flush(0)),
    (ClientSide, CopyOut(4)),
    (ServerSide, Flush(0)),
    (ServerSide, CopyIn(4))
  ]

  const EMPTY := Buf([], 0)
  const HELD := Buf([0x17], 0)

  function C(first: Buf, seen: Seen0x17, phase: Phase): Node {
    Node(Endpoint(ClientSide, first, EMPTY, seen), phase, false)
  }

  function S(first: Buf, seen: Seen0x17, phase: Phase): Node {
    Node(Endpoint(ServerSide, first, EMPTY, seen), phase, false)
  }

  function Up(taken: nat, tunnel: seq<byte>, read: nat, plain: seq<byte>, plainRead: nat, delivered: seq<byte>): Lane {
    Lane(TWO_RECORDS, taken, tunnel, read, plain, plainRead, delivered)
  }

  const REST: seq<byte> := [3, 3, 0, 0]

  const UP2 := Up(6, RECORD, 0, [], 0, [])
  const UP3 := Up(6, RECORD, 5, [], 0, RECORD)
  const UP6 := Up(6, RECORD + LEAVE_TLS_COMMAND, 5, [], 0, RECORD)
  const UP7 := Up(6, RECORD + LEAVE_TLS_COMMAND, 11, [], 0, RECORD)
  const UP9 := Up(10, RECORD + LEAVE_TLS_COMMAND, 11, REST, 0, RECORD)
  const UP11 := Up(10, RECORD + LEAVE_TLS_COMMAND, 11, REST, 4, RECORD + REST)
  const DOWN4 := Lane(RECORD, 0, [], 0, [], 0, [])
  const DOWN5 := Lane(RECORD, 5, LEAVE_TLS_COMMAND, 0, [], 0, [])
  const DOWN6 := Lane(RECORD, 5, LEAVE_TLS_COMMAND, 6, [], 0, [])
  const DOWN10 := Lane(RECORD, 5, LEAVE_TLS_COMMAND, 6, RECORD, 0, [])
  const KEPT := Buf(RECORD, 0)

  const S1 := State(C(EMPTY, Nothing, Scanning), S(EMPTY, Nothing, Scanning), Up(0, [], 0, [], 0, []), INITIAL_LANE)
  const S2 := State(C(HELD, FromInbound, Scanning), S(EMPTY, Nothing, Scanning), UP2, INITIAL_LANE)
  const S3 := State(C(HELD, FromInbound, Scanning), S(EMPTY, FromInbound, Scanning), UP3, INITIAL_LANE)
  const S4 := State(C(HELD, FromInbound, Scanning), S(EMPTY, FromInbound, Scanning), UP3, DOWN4)
  const S5 := State(C(HELD, FromInbound, Scanning), S(KEPT, BothDirections, Awaiting), UP3, DOWN5)
  const S6 := State(C(HELD, FromInbound, Out(Passive)), S(KEPT, BothDirections, Awaiting), UP6, DOWN6)
  const S7 := State(C(HELD, FromInbound, Out(Passive)), S(KEPT, BothDirections, Out(Active)), UP7, DOWN6)
  const S8 := State(C(HELD, FromInbound, Copying(Passive)), S(KEPT, BothDirections, Out(Active)), UP7, DOWN6)
  const S9 := State(C(HELD, FromInbound, Copying(Passive)), S(KEPT, BothDirections, Out(Active)), UP9, DOWN6)
  const S10 := State(C(HELD, FromInbound, Copying(Passive)), S(EMPTY, BothDirections, Copying(Active)), UP9, DOWN10)
  const S11 := State(C(HELD, FromInbound, Copying(Passive)), S(EMPTY, BothDirections, Copying(Active)), UP11, DOWN10)

  lemma Step1()
    ensures Enabled(INITIAL, ClientSide, Send(TWO_RECORDS)) && Next(INITIAL, ClientSide, Send(TWO_RECORDS)) == S1
  {
    assert [] + TWO_RECORDS == TWO_RECORDS;
  }

  lemma Step2()
    ensures Enabled(S1, ClientSide, ReadFirst(6)) && Next(S1, ClientSide, ReadFirst(6)) == S2
  {
    hide ScanFrom;
    var chunk: seq<byte> := [0x17, 3, 3, 0, 0, 0x17];
    assert Take(TWO_RECORDS, 0, 6) == chunk;
    assert [] + chunk == chunk;
    ScanSix(chunk);
    var b := Buf(chunk, 5);
    assert Checked(b) == RECORD && Pop(b) == HELD;
    assert [] + RECORD == RECORD;
  }

  lemma ScanSix(chunk: seq<byte>)
    requires chunk == [0x17, 3, 3, 0, 0, 0x17]
    ensures ScanFrom(chunk, 0, Nothing, Inbound) == Scan(5, FromInbound, Incomplete)
  {
    assert RecordEnd(chunk, 0) == 5;
    assert ScanFrom(chunk, 5, FromInbound, Inbound) == Scan(5, FromInbound, Incomplete);
  }

  /** One scan of a record without payload. */
  lemma ScanRecord(r: seq<byte>, seen: Seen0x17, dir: Direction)
    requires r == RECORD && !seen.BothDirections?
    ensures var seen' := Witness(seen, dir);
            ScanFrom(r, 0, seen, dir)
            == if seen'.BothDirections? then Scan(0, seen', Leave(Active)) else Scan(5, seen', Incomplete)
  {
    var seen' := Witness(seen, dir);
    assert RecordEnd(r, 0) == 5;
    if !seen'.BothDirections? {
      assert ScanFrom(r, 5, seen', dir) == Scan(5, seen', Incomplete);
    }
  }

  lemma Step3()
    ensures Enabled(S2, ServerSide, ReadSecond(5)) && Next(S2, ServerSide, ReadSecond(5)) == S3
  {
    hide ScanFrom;
    assert Take(RECORD, 0, 5) == RECORD && [] + RECORD == RECORD;
    ScanRecord(RECORD, Nothing, Inbound);
    var b := Buf(RECORD, 5);
    assert Checked(b) == RECORD && Pop(b) == EMPTY;
  }

  lemma Step4()
    ensures Enabled(S3, ServerSide, Send(RECORD)) && Next(S3, ServerSide, Send(RECORD)) == S4
  {
    assert [] + RECORD == RECORD;
  }

  lemma DrainNothing(b: Buf)
    requires b == Buf([], 0)
    ensures DrainEval(b) == Drain(b, [], false)
  {
    assert SkipRecords(b.inner, 0) == 0;
  }

  lemma CommandEnd(c: seq<byte>)
    requires c == LEAVE_TLS_COMMAND
    ensures |c| == 6 && c[0] == 0xff && RecordEnd(c, 0) == 6
  {
  }

  lemma DrainCommand(b: Buf)
    requires b.cursor == 0 && |b.inner| == 6 && b.inner[0] == 0xff && RecordEnd(b.inner, 0) == 6
    ensures DrainEval(b) == Drain(Buf([], 0), [], true)
  {
    assert SkipRecords(b.inner, b.cursor) == b.cursor;
    assert Buf(b.inner, b.cursor) == b && Pop(b) == b && Checked(b) == [];
  }

  lemma ActiveWithNothing(e: Endpoint)
    requires e.first.cursor == 0 && DrainEval(e.second) == Drain(e.second, [], false)
    ensures GoActive(e) == Reaction(e, [], LEAVE_TLS_COMMAND, Draining)
  {
    hide DrainEval;
    var nothing := Checked(e.first);
    assert nothing == [] && Pop(e.first) == e.first;
    assert nothing + LEAVE_TLS_COMMAND == LEAVE_TLS_COMMAND;
  }

  lemma GoesActive(e: Endpoint, chunk: seq<byte>)
    requires e.side == ServerSide && e.first.inner == [] && e.second.inner == []
    requires e.first.cursor == 0 && e.second.cursor == 0 && e.seen == FromInbound
    requires ScanFrom(chunk, 0, FromInbound, Outbound) == Scan(0, BothDirections, Leave(Active))
    ensures OnRead(e, First, chunk)
            == Reaction(Endpoint(ServerSide, Buf(chunk, 0), e.second, BothDirections), [], LEAVE_TLS_COMMAND, Draining)
  {
    hide ScanFrom, DrainEval, GoActive;
    var e1 := SetBuf(e, First, Append(e.first, chunk));
    assert e1.first.inner == chunk;
    var e2 := Scanned(e1, First);
    assert e2 == Endpoint(ServerSide, Buf(chunk, 0), e.second, BothDirections);
    DrainNothing(e2.second);
    ActiveWithNothing(e2);
  }

  lemma Step5()
    ensures Enabled(S4, ServerSide, ReadFirst(5)) && Next(S4, ServerSide, ReadFirst(5)) == S5
  {
    hide OnRead, ScanFrom;
    assert Take(RECORD, 0, 5) == RECORD;
    ScanRecord(RECORD, FromInbound, Outbound);
    GoesActive(S4.server.ep, RECORD);
    assert [] + LEAVE_TLS_COMMAND == LEAVE_TLS_COMMAND && RECORD + [] == RECORD;
  }

  lemma Step6()
    ensures Enabled(S5, ClientSide, ReadSecond(6)) && Next(S5, ClientSide, ReadSecond(6)) == S6
  {
    assert Take(LEAVE_TLS_COMMAND, 0, 6) == LEAVE_TLS_COMMAND && [] + LEAVE_TLS_COMMAND == LEAVE_TLS_COMMAND;
    assert ScanFrom(LEAVE_TLS_COMMAND, 0, FromInbound, Outbound) == Scan(0, FromInbound, Leave(Passive));
    assert Buf(LEAVE_TLS_COMMAND[..0], 0) == EMPTY;
  }

  lemma Step7()
    ensures Enabled(S6, ServerSide, ReadToLeave(6)) && Next(S6, ServerSide, ReadToLeave(6)) == S7
  {
    hide DrainEval;
    assert Take(RECORD + LEAVE_TLS_COMMAND, 5, 6) == LEAVE_TLS_COMMAND && [] + LEAVE_TLS_COMMAND == LEAVE_TLS_COMMAND;
    CommandEnd(LEAVE_TLS_COMMAND);
    DrainCommand(Buf(LEAVE_TLS_COMMAND, 0));
    assert RECORD + [] == RECORD;
  }

  lemma Step8To11()
    ensures Enabled(S7, ClientSide, Flush(0)) && Next(S7, ClientSide, Flush(0)) == S8
    ensures Enabled(S8, ClientSide, CopyOut(4)) && Next(S8, ClientSide, CopyOut(4)) == S9
    ensures Enabled(S9, ServerSide, Flush(0)) && Next(S9, ServerSide, Flush(0)) == S10
    ensures Enabled(S10, ServerSide, CopyIn(4)) && Next(S10, ServerSide, CopyIn(4)) == S11
  {
    var none: seq<byte> := [];
    assert none + (none + none) == none;
    assert Take(TWO_RECORDS, 6, 4) == REST && none + REST == REST && none + RECORD == RECORD;
    assert Take(REST, 0, 4) == REST;
  }

  lemma FinalStep(s: State, x: LiteTlsEndpointSide, a: Action, s': State, run: Run)
    requires Enabled(s, x, a) && Next(s, x, a) == s' && run != [] && run[0] == (x, a)
    ensures Final(s, run) == Final(s', run[1..])
  {
    hide Next, Enabled;
  }

  lemma FirstSix(run: Run)
    requires run == RUN
    ensures Final(INITIAL, run) == Final(S6, run[6..])
  {
    hide Next, Enabled, Final;
    Step1(); Step2(); Step3(); Step4(); Step5(); Step6();
    FinalStep(INITIAL, ClientSide, Send(TWO_RECORDS), S1, run);
    FinalStep(S1, ClientSide, ReadFirst(6), S2, run[1..]);
    FinalStep(S2, ServerSide, ReadSecond(5), S3, run[2..]);
    FinalStep(S3, ServerSide, Send(RECORD), S4, run[3..]);
    FinalStep(S4, ServerSide, ReadFirst(5), S5, run[4..]);
    FinalStep(S5, ClientSide, ReadSecond(6), S6, run[5..]);
  }

  lemma LastFive(run: Run)
    requires run == RUN
    ensures Final(S6, run[6..]) == S11
  {
    hide Next, Enabled, Final;
    Step7(); Step8To11();
    FinalStep(S6, ServerSide, ReadToLeave(6), S7, run[6..]);
    FinalStep(S7, ClientSide, Flush(0), S8, run[7..]);
    FinalStep(S8, ClientSide, CopyOut(4), S9, run[8..]);
    FinalStep(S9, ServerSide, Flush(0), S10, run[9..]);
    FinalStep(S10, ServerSide, CopyIn(4), S11, run[10..]);
    Nothing11(run[11..]);
  }

  lemma Nothing11(run: Run)
    requires run == []
    ensures Final(S11, run) == S11
  {
  }

  /** Without the hypothesis on the leave the code loses bytes: in this run, whose reads are
      otherwise ordinary, the target ends up with bytes that are no prefix of what the user
      sent. */
  lemma UncleanLeaveLosesAByte()
    ensures var f := Final(INITIAL, RUN).up;
            f.taken == |f.source| && !(f.delivered <= f.source)
  {
    hide Next, Enabled, Final;
    FirstSix(RUN);
    LastFive(RUN);
    assert UP11.delivered[5] == 3 && TWO_RECORDS[5] == 0x17;
  }
}
