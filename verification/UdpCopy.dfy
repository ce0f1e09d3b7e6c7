/** Relaying datagrams to a UDP socket, resolving the address of each, and the loop that copies
    them from a datagram reader. */
module UdpCopies {
  import opened Bytes
  import opened MixAddrs
  import opened PollIo
  import opened UdpFrames
  import opened UdpRelayBuffers

  // ---- addresses and deliveries --------------------------------------------------------------

  datatype Ip = Ip4(octets: seq<byte>) | Ip6(segments: seq<u16>)

  datatype SocketAddr = SocketAddr(ip: Ip, port: u16)

  datatype Transmission = Transmission(data: seq<byte>, dest: SocketAddr)

  datatype Lookup = Lookup(name: seq<byte>, answer: Ip)

  function ToSocketAddr(a: MixAddr): SocketAddr
    requires a.V4? || a.V6?
  {
    if a.V4? then SocketAddr(Ip4(a.ip), a.port) else SocketAddr(Ip6(a.segments), a.port)
  }

  /** dest is where a datagram for a may go: the address itself, or some address with its port
      when a is a name. */
  predicate GoesTo(a: MixAddr, dest: SocketAddr) {
    match a
    case Hostname(_, port) => dest.port == port
    case NoAddr => false
    case _ => dest == ToSocketAddr(a)
  }

  /** The sending of one datagram, in one or more pieces. */
  datatype Delivery = Delivery(datagram: Datagram, dest: SocketAddr, pieces: seq<seq<byte>>)

  ghost predicate Complete(d: Delivery) {
    Concat(d.pieces) == d.datagram.payload && GoesTo(d.datagram.addr, d.dest)
  }

  function Transmissions(d: Delivery): seq<Transmission> {
    seq(|d.pieces|, i requires 0 <= i < |d.pieces| => Transmission(d.pieces[i], d.dest))
  }

  /** What the socket sends for these deliveries. */
  function Sends(ds: seq<Delivery>): seq<Transmission>
    decreases |ds|
  {
    if ds == [] then [] else Sends(ds[..|ds| - 1]) + Transmissions(ds[|ds| - 1])
  }

  /** One lookup for every datagram that is addressed to a name, of that name, with the answer
      it was sent to. */
  function Lookups(ds: seq<Delivery>): seq<Lookup>
    decreases |ds|
  {
    if ds == [] then [] else Lookups(ds[..|ds| - 1]) + LookupOf(ds[|ds| - 1])
  }

  function LookupOf(d: Delivery): seq<Lookup> {
    if d.datagram.addr.Hostname? then [Lookup(d.datagram.addr.host, d.dest.ip)] else []
  }

  function Datagrams(ds: seq<Delivery>): seq<Datagram> {
    seq(|ds|, i requires 0 <= i < |ds| => ds[i].datagram)
  }

  function NonEmpty(ds: seq<Datagram>): seq<Datagram>
    decreases |ds|
  {
    if ds == [] then []
    else NonEmpty(ds[..|ds| - 1]) + (if ds[|ds| - 1].payload == [] then [] else [ds[|ds| - 1]])
  }

  function PayloadSum(ds: seq<Datagram>): nat
    decreases |ds|
  {
    if ds == [] then 0 else PayloadSum(ds[..|ds| - 1]) + |ds[|ds| - 1].payload|
  }

  lemma {:induction false} NonEmptySum(ds: seq<Datagram>)
    ensures PayloadSum(NonEmpty(ds)) == PayloadSum(ds)
    decreases |ds|
  {
    if ds != [] {
      var init, last := ds[..|ds| - 1], ds[|ds| - 1];
      NonEmptySum(init);
      if last.payload != [] {
        assert (NonEmpty(init) + [last])[..|NonEmpty(init)|] == NonEmpty(init);
      } else {
        assert NonEmpty(init) + [] == NonEmpty(init);
      }
    }
  }

  // ---- the socket ------------------------------------------------------------------------------

  datatype SendEvent = SendsUpTo(n: nat) | SendNotReady | SendBroken

  datatype DnsEvent = Answer(ip: Ip) | DnsNotReady | DnsFailed

  datatype ResolveAddr = Unresolved | Pending(name: seq<byte>) | Ready(dest: SocketAddr)

  class ServerUdpStream {
    var sendScript: seq<SendEvent>
    var dnsScript: seq<DnsEvent>
    var addrTask: ResolveAddr
    /** Everything sent, and every lookup that was answered. */
    var log: seq<Transmission>
    ghost var lookups: seq<Lookup>
    /** How much of the log has been flushed. */
    ghost var flushed: nat
    /** How often the resolver or the socket was not ready, and how often one of them failed; a
        socket that takes nothing of a datagram counts as failing. */
    ghost var stalls: nat
    ghost var faults: nat

    constructor (sendScript: seq<SendEvent>, dnsScript: seq<DnsEvent>)
      ensures this.sendScript == sendScript && this.dnsScript == dnsScript
      ensures addrTask == Unresolved && log == [] && lookups == [] && flushed == 0 && stalls == 0 && faults == 0
    {
      this.sendScript, this.dnsScript := sendScript, dnsScript;
      addrTask, log, lookups, flushed, stalls, faults := Unresolved, [], [], 0, 0, 0;
    }

    /** The socket takes any part of a datagram, or none. */
    method PollSendTo(buf: seq<byte>, dest: SocketAddr) returns (r: PollWrite)
      modifies this`sendScript, this`log, this`stalls, this`faults
      ensures stalls == old(stalls) + (if r.WritePending? then 1 else 0)
      ensures faults == old(faults) + (if r.WriteError? || r == WriteReady(0) then 1 else 0)
      ensures r.WriteReady? ==> r.n <= |buf| && log == old(log) + [Transmission(buf[..r.n], dest)]
      ensures !r.WriteReady? ==> log == old(log)
    {
      if sendScript == [] {
        stalls := stalls + 1;
        return WritePending;
      }
      var event := sendScript[0];
      sendScript := sendScript[1..];
      match event {
        case SendsUpTo(n) =>
          var m := Min(n, |buf|);
          log := log + [Transmission(buf[..m], dest)];
          faults := faults + (if m == 0 then 1 else 0);
          return WriteReady(m);
        case SendNotReady =>
          stalls := stalls + 1;
          return WritePending;
        case SendBroken =>
          faults := faults + 1;
          return WriteError;
      }
    }

    /** The name whose answer this call would wait for. */
    function NameFor(addr: MixAddr): seq<byte>
      reads this
      requires addr.Hostname?
    {
      if addrTask.Pending? then addrTask.name else addr.host
    }

    /** One poll for sending a datagram.  dest is where it goes, once that is known: an address
        resolved earlier is used until the datagram is sent completely and not any longer. */
    method PollProxyStreamWrite(buf: seq<byte>, addr: MixAddr) returns (r: PollWrite, ghost dest: Option<SocketAddr>)
      requires addr != NoAddr && (addrTask.Pending? ==> addr.Hostname?)
      modifies this
      ensures flushed == old(flushed)
      ensures stalls == old(stalls) + (if r.WritePending? then 1 else 0)
      ensures faults == old(faults) + (if r.WriteError? || r == WriteReady(0) then 1 else 0)
      ensures dest.None? ==>
                && !old(addrTask).Ready? && addr.Hostname? && addrTask == Pending(old(NameFor(addr)))
                && (r == WritePending || r == WriteReady(0)) && log == old(log) && lookups == old(lookups)
      ensures dest.Some? ==>
                && (old(addrTask).Ready? ==> dest.value == old(addrTask).dest && lookups == old(lookups))
                && (!old(addrTask).Ready? ==>
                      && GoesTo(addr, dest.value)
                      && lookups == old(lookups)
                         + (if addr.Hostname? then [Lookup(old(NameFor(addr)), dest.value.ip)] else []))
                && (r.WriteReady? ==>
                      && r.n <= |buf| && log == old(log) + [Transmission(buf[..r.n], dest.value)]
                      && addrTask == if r.n == |buf| then Unresolved else Ready(dest.value))
                && (!r.WriteReady? ==> log == old(log) && addrTask == Ready(dest.value))
    {
      dest := None;
      while true
        invariant log == old(log) && dest.None?
        invariant flushed == old(flushed) && stalls == old(stalls) && faults == old(faults)
        invariant !addrTask.Ready? ==> !old(addrTask).Ready? && lookups == old(lookups)
        invariant addrTask.Pending? ==> addr.Hostname? && addrTask.name == old(NameFor(addr))
        invariant addrTask.Unresolved? ==> old(addrTask).Unresolved?
        invariant addrTask.Ready? && old(addrTask).Ready? ==> addrTask == old(addrTask) && lookups == old(lookups)
        invariant addrTask.Ready? && !old(addrTask).Ready? ==>
                    && GoesTo(addr, addrTask.dest)
                    && lookups == old(lookups)
                       + (if addr.Hostname? then [Lookup(old(NameFor(addr)), addrTask.dest.ip)] else [])
        decreases if addrTask.Unresolved? then 2 else if addrTask.Pending? then 1 else 0
      {
        match addrTask {
          case Pending(name) =>
            if dnsScript == [] {
              stalls := stalls + 1;
              return WritePending, None;
            }
            var event := dnsScript[0];
            dnsScript := dnsScript[1..];
            match event {
              case DnsNotReady =>
                stalls := stalls + 1;
                return WritePending, None;
              case DnsFailed =>
                faults := faults + 1;
                return WriteReady(0), None;
              case Answer(ip) =>
                lookups := lookups + [Lookup(name, ip)];
                addrTask := Ready(SocketAddr(ip, addr.port));
            }
          case Ready(sAddr) =>
            dest := Some(sAddr);
            r := PollSendTo(buf, sAddr);
            if r.WriteReady? && r.n == |buf| {
              addrTask := Unresolved;
            }
            return;
          case Unresolved =>
            if addr.Hostname? {
              addrTask := Pending(addr.host);
            } else {
              addrTask := Ready(ToSocketAddr(addr));
            }
        }
      }
    }

    method PollFlush() returns (r: PollUnit)
      modifies this`flushed
      ensures r.UnitReady? && flushed == |log|
    {
      flushed := |log|;
      return UnitReady;
    }
  }

  // ---- where datagrams come from -----------------------------------------------------------------

  datatype SourceEvent = Arrives(datagram: Datagram) | Ends | SourceNotReady | SourceBroken

  datatype SourcePoll = SourceAddr(addr: MixAddr) | SourcePending | SourceError

  class DatagramReader {
    var script: seq<SourceEvent>
    ghost var yielded: seq<Datagram>
    /** How often the end was reported, the reader was not ready, or it failed. */
    ghost var ends: nat
    ghost var stalls: nat
    ghost var faults: nat

    ghost predicate Valid()
      reads this
    {
      forall i :: 0 <= i < |script| && script[i].Arrives? ==> script[i].datagram.addr != NoAddr
    }

    constructor (script: seq<SourceEvent>)
      requires forall i :: 0 <= i < |script| && script[i].Arrives? ==> script[i].datagram.addr != NoAddr
      ensures Valid() && this.script == script && yielded == [] && ends == 0 && stalls == 0 && faults == 0
    {
      this.script, yielded, ends, stalls, faults := script, [], 0, 0, 0;
    }

    /** Appends the payload to buf; NoAddr is the end of the stream. */
    method PollProxyStreamRead(buf: UdpRelayBuffer) returns (r: SourcePoll)
      requires Valid() && buf.Valid()
      modifies this, buf`inner, buf`capacity
      ensures Valid() && buf.Valid()
      ensures r.SourceAddr? && r.addr != NoAddr ==>
                && |yielded| == |old(yielded)| + 1 && yielded[..|yielded| - 1] == old(yielded)
                && yielded[|yielded| - 1].addr == r.addr
                && buf.inner == old(buf.inner) + yielded[|yielded| - 1].payload
      ensures !r.SourceAddr? || r.addr == NoAddr ==> yielded == old(yielded) && buf.inner == old(buf.inner)
      ensures r.SourceAddr? ==> |script| < |old(script)|
      ensures ends == old(ends) + (if r == SourceAddr(NoAddr) then 1 else 0)
      ensures stalls == old(stalls) + (if r.SourcePending? then 1 else 0)
      ensures faults == old(faults) + (if r.SourceError? then 1 else 0)
    {
      if script == [] {
        stalls := stalls + 1;
        return SourcePending;
      }
      var event := script[0];
      script := script[1..];
      match event {
        case Arrives(datagram) =>
          buf.ExtendFromSlice(datagram.payload);
          yielded := yielded + [datagram];
          return SourceAddr(datagram.addr);
        case Ends =>
          ends := ends + 1;
          return SourceAddr(NoAddr);
        case SourceNotReady =>
          stalls := stalls + 1;
          return SourcePending;
        case SourceBroken =>
          faults := faults + 1;
          return SourceError;
      }
    }
  }

  // ---- the copy loop -------------------------------------------------------------------------------

  datatype CopyPoll = CopyDone(amt: nat) | CopyPending | CopyFailed

  /** Everything that has been read was delivered, in order. */
  ghost predicate AllDone(done: seq<Delivery>, yielded: seq<Datagram>) {
    (forall i :: 0 <= i < |done| ==> Complete(done[i])) && Datagrams(done) == NonEmpty(yielded)
  }

  /** cur is the last datagram that was read, and rest is what is still to be sent of it.  If
      its delivery d has begun it goes where its address says. */
  ghost predicate InProgress(done: seq<Delivery>, yielded: seq<Datagram>, cur: Datagram, rest: seq<byte>,
                             task: ResolveAddr, current: Option<Delivery>) {
    && (forall i :: 0 <= i < |done| ==> Complete(done[i])) && Datagrams(done) + [cur] == NonEmpty(yielded)
    && (task.Ready? <==> current.Some?)
    && match current
       case None => rest == cur.payload && (task.Pending? ==> cur.addr.Hostname? && cur.addr.host == task.name)
       case Some(d) =>
         && d.datagram == cur && d.dest == task.dest && GoesTo(cur.addr, d.dest)
         && Concat(d.pieces) + rest == cur.payload
  }

  function Begun(done: seq<Delivery>, current: Option<Delivery>): seq<Delivery> {
    if current.Some? then done + [current.value] else done
  }

  lemma SendsSnoc(ds: seq<Delivery>, d: Delivery)
    ensures Sends(ds + [d]) == Sends(ds) + Transmissions(d)
    ensures Lookups(ds + [d]) == Lookups(ds) + LookupOf(d)
  {
    assert (ds + [d])[..|ds|] == ds;
  }

  /** A further piece of the current delivery. */
  lemma OnePieceMore(done: seq<Delivery>, d: Delivery, data: seq<byte>)
    ensures var d' := d.(pieces := d.pieces + [data]);
            && Sends(done + [d']) == Sends(done + [d]) + [Transmission(data, d.dest)]
            && Lookups(done + [d']) == Lookups(done + [d])
            && Concat(d'.pieces) == Concat(d.pieces) + data
  {
    hide Sends, Lookups, Transmissions, LookupOf, Concat;
    var d' := d.(pieces := d.pieces + [data]);
    SendsSnoc(done, d);
    SendsSnoc(done, d');
    PieceSnoc(d, data);
    ConcatSnoc(d.pieces, data);
    Assoc(Sends(done), Transmissions(d), [Transmission(data, d.dest)]);
  }

  lemma PieceSnoc(d: Delivery, data: seq<byte>)
    ensures var d' := d.(pieces := d.pieces + [data]);
            Transmissions(d') == Transmissions(d) + [Transmission(data, d.dest)] && LookupOf(d') == LookupOf(d)
  {
  }

  lemma NewDelivery(done: seq<Delivery>, d: Delivery)
    requires d.pieces == []
    ensures Sends(done + [d]) == Sends(done)
    ensures Lookups(done + [d]) == Lookups(done) + LookupOf(d)
  {
    SendsSnoc(done, d);
    assert Sends(done) + Transmissions(d) == Sends(done);
  }

  lemma DatagramsSnoc(ds: seq<Delivery>, d: Delivery)
    ensures Datagrams(ds + [d]) == Datagrams(ds) + [d.datagram]
  {
  }

  lemma NonEmptySnoc(ds: seq<Datagram>)
    requires ds != []
    ensures var last := ds[|ds| - 1];
            NonEmpty(ds) == if last.payload == [] then NonEmpty(ds[..|ds| - 1]) else NonEmpty(ds[..|ds| - 1]) + [last]
  {
  }

  lemma SumSnoc(ds: seq<Datagram>, d: Datagram)
    ensures PayloadSum(ds + [d]) == PayloadSum(ds) + |d.payload|
  {
    assert (ds + [d])[..|ds|] == ds;
  }

  /** The next datagram has been read. */
  lemma ReadNext(done: seq<Delivery>, before: seq<Datagram>, yielded: seq<Datagram>, cur: Datagram)
    requires AllDone(done, before)
    requires yielded != [] && yielded[..|yielded| - 1] == before && yielded[|yielded| - 1] == cur
    ensures if cur.payload == [] then AllDone(done, yielded)
            else InProgress(done, yielded, cur, cur.payload, Unresolved, None)
  {
    hide NonEmpty, Complete, Datagrams;
    NonEmptySnoc(yielded);
  }

  lemma NothingBegun(done: seq<Delivery>)
    ensures Begun(done, None) == done
  {
  }

  lemma DoneSum(done: seq<Delivery>, yielded: seq<Datagram>)
    requires AllDone(done, yielded)
    ensures PayloadSum(Datagrams(done)) == PayloadSum(yielded)
  {
    hide PayloadSum, NonEmpty, Complete, Datagrams;
    NonEmptySum(yielded);
  }

  lemma TaskOf(done: seq<Delivery>, yielded: seq<Datagram>, cur: Datagram, rest: seq<byte>,
               task: ResolveAddr, current: Option<Delivery>)
    requires InProgress(done, yielded, cur, rest, task, current)
    ensures task.Ready? <==> current.Some?
    ensures task.Pending? ==> cur.addr.Hostname? && cur.addr.host == task.name
    ensures current.Some? ==> current.value.datagram == cur && current.value.dest == task.dest
  {
  }

  lemma StillWaiting(done: seq<Delivery>, yielded: seq<Datagram>, cur: Datagram, rest: seq<byte>,
                     task: ResolveAddr, task': ResolveAddr)
    requires InProgress(done, yielded, cur, rest, task, None)
    requires task'.Pending? && cur.addr.Hostname? && cur.addr.host == task'.name
    ensures InProgress(done, yielded, cur, rest, task', None)
  {
  }

  lemma BeginDelivery(done: seq<Delivery>, yielded: seq<Datagram>, cur: Datagram, rest: seq<byte>,
                      task: ResolveAddr, dest: SocketAddr) returns (d: Delivery)
    requires InProgress(done, yielded, cur, rest, task, None) && GoesTo(cur.addr, dest)
    ensures d == Delivery(cur, dest, [])
    ensures InProgress(done, yielded, cur, rest, Ready(dest), Some(d))
    ensures Sends(done + [d]) == Sends(done) && Lookups(done + [d]) == Lookups(done) + LookupOf(d)
  {
    hide Sends, Lookups;
    d := Delivery(cur, dest, []);
    NewDelivery(done, d);
    assert Concat(d.pieces) + rest == rest;
  }

  lemma SendPiece(done: seq<Delivery>, yielded: seq<Datagram>, cur: Datagram, rest: seq<byte>, d: Delivery, n: nat)
    requires InProgress(done, yielded, cur, rest, Ready(d.dest), Some(d)) && n <= |rest|
    ensures var d' := d.(pieces := d.pieces + [rest[..n]]);
            && Sends(done + [d']) == Sends(done + [d]) + [Transmission(rest[..n], d.dest)]
            && Lookups(done + [d']) == Lookups(done + [d])
            && (n < |rest| ==> InProgress(done, yielded, cur, rest[n..], Ready(d.dest), Some(d')))
            && (n == |rest| ==>
                  && AllDone(done + [d'], yielded)
                  && PayloadSum(Datagrams(done + [d'])) == PayloadSum(Datagrams(done)) + |cur.payload|)
  {
    hide Sends, Lookups, Concat, PayloadSum, NonEmpty, Datagrams;
    var data := rest[..n];
    var d' := d.(pieces := d.pieces + [data]);
    OnePieceMore(done, d, data);
    assert rest == data + rest[n..];
    Assoc(Concat(d.pieces), data, rest[n..]);
    if n == |rest| {
      assert Concat(d'.pieces) + rest[n..] == Concat(d'.pieces);
      DatagramsSnoc(done, d');
      SumSnoc(Datagrams(done), cur);
    }
  }

  class UdpCopyBuf {
    const buf: UdpRelayBuffer
    var addr: Option<MixAddr>
    var amt: nat
    var needFlush: bool
    var readDone: bool
    /** The finished deliveries, the datagram being delivered, and how far it has come. */
    ghost var done: seq<Delivery>
    ghost var cur: Datagram
    ghost var current: Option<Delivery>

    constructor ()
      ensures fresh(buf) && buf.Valid() && buf.inner == [] && buf.cursor == 0
      ensures addr == None && amt == 0 && !needFlush && !readDone && done == [] && current == None
    {
      buf := new UdpRelayBuffer();
      addr, amt, needFlush, readDone := None, 0, false, false;
      done, cur, current := [], Datagram(NoAddr, []), None;
    }

    ghost predicate Valid(reader: DatagramReader, writer: ServerUdpStream)
      reads this, buf, reader, writer
      ensures Valid(reader, writer) ==> buf.Valid()
    {
      && buf.Valid() && reader.Valid() && (readDone <==> reader.ends > 0)
      && (if needFlush then writer.flushed < |writer.log| || readDone else writer.flushed == |writer.log|)
      && writer.log == Sends(Begun(done, current)) && writer.lookups == Lookups(Begun(done, current))
      && if buf.HasRemaining() then
           && addr == Some(cur.addr) && cur.addr != NoAddr && !readDone
           && InProgress(done, reader.yielded, cur, buf.Chunk(), writer.addrTask, current)
           && amt == PayloadSum(Datagrams(done)) + (|cur.payload| - |buf.Chunk()|)
         else
           && current == None && writer.addrTask.Unresolved?
           && AllDone(done, reader.yielded) && amt == PayloadSum(Datagrams(done))
    }

    /** One write, with its effect on the deliveries. */
    method WriteOnce(reader: DatagramReader, writer: ServerUdpStream) returns (r: PollWrite)
      requires Valid(reader, writer) && buf.HasRemaining()
      modifies this`amt, this`needFlush, this`done, this`current, buf`cursor, writer
      ensures buf.Valid()
      ensures r != WriteReady(0) ==> Valid(reader, writer)
      ensures r.WriteReady? && r.n > 0 ==> |buf.Chunk()| < old(|buf.Chunk()|)
      ensures writer.stalls == old(writer.stalls) + (if r.WritePending? then 1 else 0)
      ensures writer.faults == old(writer.faults) + (if r.WriteError? || r == WriteReady(0) then 1 else 0)
    {
      hide InProgress, AllDone, Sends, Lookups, NonEmpty, PayloadSum, Transmissions, Datagrams, DatagramReader.Valid,
           UdpRelayBuffer.Chunk, GoesTo, Concat, Complete, ToSocketAddr;
      ghost var rest := buf.Chunk();
      ghost var dest: Option<SocketAddr>;
      buf.RemainsIff();
      TaskOf(done, reader.yielded, cur, rest, writer.addrTask, current);
      ghost var task := writer.addrTask;
      r, dest := writer.PollProxyStreamWrite(buf.Chunk(), addr.value);
      if dest.None? {
        StillWaiting(done, reader.yielded, cur, rest, task, writer.addrTask);
      } else if current.None? {
        ghost var d := BeginDelivery(done, reader.yielded, cur, rest, task, dest.value);
        current := Some(d);
      }
      if r.WriteReady? && r.n > 0 {
        ghost var d, data := current.value, rest[..r.n];
        SendPiece(done, reader.yielded, cur, rest, d, r.n);
        current := Some(d.(pieces := d.pieces + [data]));
        var _ := buf.Advance(r.n);
        buf.RemainsIff();
        amt := amt + r.n;
        needFlush := true;
        if r.n == |rest| {
          done, current := done + [current.value], None;
        }
      }
    }

    /** Takes the next datagram into the empty buffer, or notes the end of the stream. */
    method ReadDatagram(reader: DatagramReader, writer: ServerUdpStream) returns (r: SourcePoll)
      requires Valid(reader, writer) && !buf.HasRemaining() && !readDone
      modifies this`addr, this`readDone, this`cur, buf, reader
      ensures Valid(reader, writer) && buf.cursor == 0
      ensures r.SourceAddr? ==> |reader.script| < old(|reader.script|)
      ensures reader.stalls == old(reader.stalls) + (if r.SourcePending? then 1 else 0)
      ensures reader.faults == old(reader.faults) + (if r.SourceError? then 1 else 0)
    {
      hide InProgress, AllDone, Sends, Lookups, PayloadSum, Transmissions, Datagrams, DatagramReader.Valid, Begun;
      buf.Reset();
      ghost var before := reader.yielded;
      r := reader.PollProxyStreamRead(buf);
      if r.SourceAddr? {
        if r.addr == NoAddr {
          readDone := true;
        } else {
          cur := reader.yielded[|reader.yielded| - 1];
          ReadNext(done, before, reader.yielded, cur);
          if addr.None? || addr.value != r.addr {
            addr := Some(r.addr);
          }
        }
      }
    }

    /** Writes until the buffer is empty, which is WriteReady(0); a socket that takes nothing is an error. */
    method SendDatagram(reader: DatagramReader, writer: ServerUdpStream) returns (r: PollWrite)
      requires Valid(reader, writer)
      modifies this`amt, this`needFlush, this`done, this`current, buf`cursor, writer
      ensures !r.WriteError? ==> Valid(reader, writer)
      ensures r.WriteReady? ==> r.n == 0 && !buf.HasRemaining()
      ensures writer.stalls == old(writer.stalls) + (if r.WritePending? then 1 else 0)
      ensures writer.faults == old(writer.faults) + (if r.WriteError? then 1 else 0)
    {
      hide Valid, UdpRelayBuffer.Chunk;
      while buf.HasRemaining()
        invariant Valid(reader, writer)
        invariant writer.stalls == old(writer.stalls) && writer.faults == old(writer.faults)
        decreases |buf.Chunk()|
      {
        r := WriteOnce(reader, writer);
        if !r.WriteReady? {
          return;
        }
        if r.n == 0 {
          return WriteError;
        }
      }
      r := WriteReady(0);
    }

    /** When the reader has nothing, what was sent is flushed. */
    method FlushSent(reader: DatagramReader, writer: ServerUdpStream)
      requires Valid(reader, writer)
      modifies this`needFlush, writer`flushed
      ensures Valid(reader, writer) && writer.flushed == |writer.log|
    {
      hide InProgress, AllDone, Sends, Lookups, PayloadSum, Datagrams, DatagramReader.Valid, Begun;
      if needFlush {
        var _ := writer.PollFlush();
        needFlush := false;
      }
    }

    /** At the end everything is delivered, and flushed. */
    method Finish(reader: DatagramReader, writer: ServerUdpStream)
      requires Valid(reader, writer) && !buf.HasRemaining() && readDone
      modifies writer`flushed
      ensures Valid(reader, writer) && writer.flushed == |writer.log| && reader.ends > 0
      ensures amt == PayloadSum(reader.yielded) && AllDone(done, reader.yielded)
      ensures writer.log == Sends(done) && writer.lookups == Lookups(done)
    {
      hide InProgress, AllDone, Sends, Lookups, PayloadSum, Datagrams, DatagramReader.Valid, Begun;
      var _ := writer.PollFlush();
      DoneSum(done, reader.yielded);
      NothingBegun(done);
    }

    /** One poll of the copy.  It fails if and only if the reader, the socket or a lookup failed or
        the socket took nothing, and it is pending if and only if the reader, the resolver or the
        socket was not ready; otherwise the reader has ended.  Every non-empty datagram is sent
        once, in order, completely, and to the address that its own name or address resolves to;
        the result is the number of payload bytes. */
    method PollCopy(reader: DatagramReader, writer: ServerUdpStream) returns (r: CopyPoll)
      requires Valid(reader, writer)
      modifies this, buf, reader, writer
      ensures !r.CopyFailed? ==> Valid(reader, writer)
      ensures r.CopyFailed? <==> reader.faults + writer.faults > old(reader.faults + writer.faults)
      ensures r.CopyPending? <==> reader.stalls + writer.stalls > old(reader.stalls + writer.stalls)
      ensures r.CopyDone? ==>
                && reader.ends > 0 && r.amt == PayloadSum(reader.yielded) && AllDone(done, reader.yielded)
                && writer.log == Sends(done) && writer.lookups == Lookups(done) && writer.flushed == |writer.log|
      ensures reader.stalls > old(reader.stalls) ==> writer.flushed == |writer.log|
    {
      hide Valid, PayloadSum, Sends, Lookups, AllDone;
      while true
        invariant Valid(reader, writer)
        invariant reader.faults == old(reader.faults) && writer.faults == old(writer.faults)
        invariant reader.stalls == old(reader.stalls) && writer.stalls == old(writer.stalls)
        decreases |reader.script|, buf.HasRemaining()
      {
        if !buf.HasRemaining() && !readDone {
          var next := ReadDatagram(reader, writer);
          match next {
            case SourcePending =>
              FlushSent(reader, writer);
              return CopyPending;
            case SourceError => return CopyFailed;
            case SourceAddr(_) =>
          }
        }
        var sent := SendDatagram(reader, writer);
        match sent {
          case WritePending => return CopyPending;
          case WriteError => return CopyFailed;
          case WriteReady(_) =>
        }
        if readDone {
          Finish(reader, writer);
          return CopyDone(amt);
        }
      }
    }
  }
}
