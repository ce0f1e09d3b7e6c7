# Verified model of trojan-oxide's protocol core

trojan-oxide is a TCP and UDP proxy that speaks the Trojan protocol. This project models, in Dafny,
the parts of it that have logic of their own, and proves what they are for:

- **Lite-TLS** (`TlsRecords`, `TlsRelayBuffers`, `LiteTlsStreams`, `LiteTlsOutcomes`,
  `LeaveProtocol`, `LeaveProgress`, `LeaveExactness`, `LeaveProtocolExample`). Two endpoints relay
  a TLS stream through a TLS tunnel, record by record, until both directions have carried
  application data; then they exchange a leave command inside the tunnel and go on over the bare
  TCP connection beneath it. `TlsRelayBuffers` and `LiteTlsStreams` are the byte-level code, as
  classes over arbitrary chunks, each method proved against a function on values.
  `LiteTlsOutcomes` says from the bytes of both streams, without the scan, which outcome a
  handshake has and when. `LeaveProtocol` puts two endpoints, a user and a target together as a
  transition system whose steps are those same functions, and proves safety of every clean run.
  `LeaveProgress` shows that such a run can always be completed, and `LeaveExactness` that the
  runs that are not clean are exactly those that do harm.
- **Trojan header** (`Utf8`, `MixAddrs`, `TrojanHeaders`, `TrojanHeaderShapes`). The address code, the
  incremental header parser, the accept loop with its replay of left-over bytes, the client's
  printer, and which bytes are a header or can still become one.
- **UDP** (`UdpFrames`, `UdpRelayBuffers`, `TrojanUdpStreams`, `UdpCopies`). Datagrams as frames in a
  byte stream, written and read under arbitrary schedules, and relayed to a socket with DNS
  resolution in between.
- **Relaying** (`PollIo`, `CopyEngine`). The poll-driven copy of one stream and of two.
- **Timers** (`IdleMonitor`, `DnsCache`). The idle monitor's bounds and the freshness of cached DNS
  answers.

`Bytes` and `Streams` hold what the others share. Input and output are scripts: a read gives any
non-empty chunk, nothing yet, an error or the end; a write takes any part of what it is offered, or
nothing yet. The scripts are fixed in advance and arbitrary, so a theorem about all scripts is a
theorem about all schedules and all fragmentations.

## Hypotheses

They are in the contracts; this is what they mean.

- Lite-TLS writes with `write` and afterwards drops everything it offered. Writes to a `Stream` are
  therefore full. `RelayIsLosslessIffWriteIsFull` shows that a shorter write loses bytes.
- The code is not sound for every leave. A step is *clean* (`LeaveProtocol.Clean`) under a guard
  that can be checked before it: the user and the target send only records of the types 0x14 to
  0x17, and when a read from the tunnel makes an endpoint active, its first-hand cursor is inside
  its buffer; when it makes it passive, the endpoint holds no first-hand bytes, its first-hand
  cursor is zero, and the whole leave command has arrived and nothing after it. This guard is
  exact. `CleanIffInv`: a step keeps the protocol invariant if and only if it is clean.
  `ReadDoesHarmIffUnclean`: a read does harm if and only if it is not clean, where harm means that
  the endpoint falls back after the other one's command, or that its own command, written inside a
  record, is passed on as content by the other endpoint's next complete read, or that its origin's
  bytes can never all be delivered. `LeaveIsSoundIffClean` says this of whole runs.
  `AlignedRunIsClean` shows that record-aligned first-hand reads imply the guard, apart from the
  command having arrived completely.
- Histories of the two-endpoint system begin after the client hello; leaving TLS loses no bytes
  that the TLS layer has already read from the connection.
- The two halves of a handshake, and the events of a timer, are serialised: each is polled by one
  task.
- Counters are unbounded; the 32-bit seconds of the idle monitor are a precondition of its methods.

## Where code and documentation differ

The model follows the code.

- Two messages in `drop_0xff` are exchanged: bytes after the command are reported as an incomplete
  command and the reverse (`src/utils/lite_tls/tls_relay_buffer.rs:161-174`).
- A V6 address is printed as documented but its segment *i* is parsed at bytes *i* and *i*+1
  (`src/utils/mix_addr.rs:294-297`). `RereadIsExactIff` says which addresses survive.
- The echo command is printed with an address that the server does not expect; such a header is
  always invalid (`PrintedIsAcceptedIff`).
- The line end after the hash and the one inside a UDP frame are skipped without being compared.
- Bytes that can no longer become a header are passed on to the fallback service only once the bytes
  that the parser waits for have come: 56 for the hash, five more for the command, then the address
  and the line end (`RejectedIff`). A request of another protocol that is shorter than that is never
  passed on (`FallbackWaits`).
- After the two length bytes of a UDP frame have arrived, four bytes are consumed; with only two or
  three there, the program panics (`PanickingCuts`, `ExtractIsParse`).
- A client hello that arrives in two pieces of which the first has five bytes or more is rejected
  although it is well-formed (`HelloIsAcceptedIff`).
- `flush_tls` of a passive endpoint waits for one more plain chunk when it has second-hand bytes
  left, and never sends its first-hand bytes.
- The copy engine flushes before it waits, but only what it has written itself: the Trojan header,
  which is written without a flush before the copy begins
  (`src/client/outbound/trojan_auth.rs:41-58`), stays unflushed as long as the user is silent
  (`CopyBuffer.PollCopy`).
- A lookup that fails puts the black-hole address into the DNS cache like any other answer, and a
  cached answer can be forty update periods old, not two (`BoundsAreReached`).

## Model

| member | source | states |
|---|---|---|
| TlsRecords.ScanMeaning | src/utils/lite_tls/tls_relay_buffer.rs:181-218 | where a scan stops is a record boundary, and each verdict is about the byte there |
| TlsRecords.ScanIff | src/utils/lite_tls/tls_relay_buffer.rs:181-218 | the exact meaning of a scan: it stops at the first record that is no handshake, alert or cipher change, nor application data while the other direction has shown none, and reports what that record is; without such a record it is incomplete |
| TlsRecords.RecordEndOfRecord | src/utils/lite_tls/tls_relay_buffer.rs:145-159 | wherever a record stands in a stream, its end is found from its header |
| TlsRecords.ScanResume | src/utils/lite_tls/tls_relay_buffer.rs:145-159 | a decisive verdict never changes when bytes arrive, and an incomplete scan can be resumed where it stopped |
| TlsRelayBuffers.AnyMixKeepsBoundaries | src/utils/lite_tls/tls_relay_buffer.rs:110-159 | for any chunks and any mix of scanning and relaying, emitted plus buffered bytes are the received ones and the cursor is a record boundary of the whole stream |
| TlsRelayBuffers.HeldBackAfterRelay | src/utils/lite_tls/lite_tls_stream.rs:301-309 | after a relay in the scan loop at most four bytes, the start of a header, are held back |
| TlsRelayBuffers.RelayIsLosslessIffWriteIsFull | src/utils/lite_tls/lite_tls_stream.rs:118-122 | one relay step loses nothing if and only if the writer took all it was offered |
| TlsRelayBuffers.ScanIsFragmentationIndependent | src/utils/lite_tls/tls_relay_buffer.rs:181-218 | scanning chunk by chunk with relaying in between gives the verdict, offset and seen-state of one scan of the whole stream |
| TlsRelayBuffers.DrainWritesExactlyTheRecords | src/utils/lite_tls/tls_relay_buffer.rs:234-272 | from any buffer state and under any fragmentation, draining writes exactly the records before the leave command and ends with an empty buffer |
| TlsRelayBuffers.DrainFindsALeave | src/utils/lite_tls/tls_relay_buffer.rs:234-272 | draining succeeds only if there is such a command, and loses nothing when it fails |
| TlsRelayBuffers.DrainAllResume | src/utils/lite_tls/tls_relay_buffer.rs:243-271 | draining may be interrupted after any evaluation and continued |
| TlsRelayBuffers.HelloOkIff | src/utils/lite_tls/tls_relay_buffer.rs:131-143 | a hello is accepted if and only if it is one whole 3.1 handshake record, and the verdict waits for five bytes |
| TlsRelayBuffers.HelloIsDecidedAtFive | src/utils/lite_tls/lite_tls_stream.rs:140-158 | the client hello is decided by the bytes at the first chunk boundary with five bytes or more |
| TlsRelayBuffers.HelloIsAcceptedIff | src/utils/lite_tls/lite_tls_stream.rs:140-158 | a stream that begins with a well-formed client hello is accepted if and only if that boundary is the end of the hello |
| TlsRelayBuffers.TlsRelayBuffer.PopCheckedPackets | src/utils/lite_tls/tls_relay_buffer.rs:118-129 | the shifting loop removes exactly the checked bytes, also when the cursor is past the end |
| TlsRelayBuffers.TlsRelayBuffer.CheckedPackets | src/utils/lite_tls/tls_relay_buffer.rs:110-116 | the bytes up to the cursor, as far as they have been received |
| TlsRelayBuffers.TlsRelayBuffer.CheckClientHello | src/utils/lite_tls/tls_relay_buffer.rs:131-143 | accepts exactly one complete 3.1 handshake record |
| TlsRelayBuffers.TlsRelayBuffer.CheckTlsPacket | src/utils/lite_tls/tls_relay_buffer.rs:145-159 | passes a record as soon as its header is complete, and reports it once it is |
| TlsRelayBuffers.TlsRelayBuffer.Drop0xff | src/utils/lite_tls/tls_relay_buffer.rs:161-179 | succeeds exactly when six bytes follow the cursor |
| TlsRelayBuffers.TlsRelayBuffer.FindKeyPackets | src/utils/lite_tls/tls_relay_buffer.rs:181-218 | the loop computes the scan of the buffer from its cursor |
| TlsRelayBuffers.TlsRelayBuffer.FlushChecked | src/utils/lite_tls/tls_relay_buffer.rs:220-232 | writes the checked bytes once and removes them |
| TlsRelayBuffers.TlsRelayBuffer.Tls12RelayUntil0xff | src/utils/lite_tls/tls_relay_buffer.rs:234-272 | the reading and relaying loop does what draining the buffer and all later chunks does |
| LiteTlsStreams.OnRead | src/utils/lite_tls/lite_tls_stream.rs:283-309 | one iteration keeps the side, and both directions are seen afterwards exactly when the endpoint goes active |
| LiteTlsStreams.OnReadFirst | src/utils/lite_tls/lite_tls_stream.rs:283-309 | an iteration loses no first-hand byte and writes the command last, if at all |
| LiteTlsStreams.OnReadSecond | src/utils/lite_tls/lite_tls_stream.rs:283-309 | an iteration takes nothing from the second-hand bytes but a complete leave command |
| LiteTlsStreams.HandshakeFirst | src/utils/lite_tls/lite_tls_stream.rs:237-316 | for every schedule and outcome of the handshake, first-hand bytes sent, buffered and unread are the input, and the command comes last |
| LiteTlsStreams.HandshakeSecond | src/utils/lite_tls/lite_tls_stream.rs:237-316 | the same for second-hand bytes, of which only the command is taken |
| LiteTlsStreams.LiteTlsStream.RelayPending | src/utils/lite_tls/lite_tls_stream.rs:93-138 | relays the checked bytes of one direction to the other side |
| LiteTlsStreams.LiteTlsStream.HandshakeTls12Active | src/utils/lite_tls/lite_tls_stream.rs:160-192 | sends the checked bytes with the command, then drains up to the command of the other side |
| LiteTlsStreams.LiteTlsStream.HandshakeTls12Passive | src/utils/lite_tls/lite_tls_stream.rs:194-214 | answers a command that is complete and last in the buffer, and nothing else |
| LiteTlsStreams.LiteTlsStream.ClientHello | src/utils/lite_tls/lite_tls_stream.rs:140-158 | the reading loop stops at the first chunk boundary where the check of everything read is decided, keeping all of it |
| LiteTlsStreams.LiteTlsStream.ScanLoop | src/utils/lite_tls/lite_tls_stream.rs:254-316 | the select loop refines the handshake on values, for every order of readiness |
| LiteTlsStreams.LiteTlsStream.ScanAfterHello | src/utils/lite_tls/lite_tls_stream.rs:254-316 | the scan loop loses nothing of what was read before and during it |
| LiteTlsStreams.LiteTlsStream.DoHandshake | src/utils/lite_tls/lite_tls_stream.rs:237-316 | the result is that of the handshake on values; an invalid, ended or timed-out handshake leaves written plus buffered equal to read in both directions; a successful one has sent one command, last, and taken one |
| LiteTlsStreams.LiteTlsStream.FlushTls | src/utils/lite_tls/lite_tls_stream.rs:318-354 | what either kind of endpoint still sends after leaving; it succeeds if and only if it need not wait for a plain chunk that never comes |
| LiteTlsStreams.LiteTlsStream.FlushNonTls | src/utils/lite_tls/lite_tls_stream.rs:356-372 | sends both buffers through the tunnel |
| LiteTlsStreams.LiteTlsStream.StartRelay | src/client/utils/data_transfer.rs:40-86 | falls back, closes, or goes on plainly, and then with which mode, exactly as the outcome of the whole handshake says; the fallback has emitted exactly what it received in both directions; after a leave, tunnel and plain bytes together are the first-hand input, and the delivered bytes are the second-hand input without the command |
| LiteTlsOutcomes.HandshakeFromBytes | src/utils/lite_tls/lite_tls_stream.rs:237-316 | the result of the handshake from the bytes delivered and their order alone: active at the first application data of the second direction to show some, in either order; passive at a complete command that comes last; no TLS at any other deciding record; ended or timed out if no read decides |
| LiteTlsOutcomes.NextScan | src/utils/lite_tls/lite_tls_stream.rs:283-309 | between two reads everything received has been scanned, and the next scan of a direction goes on if and only if none of its records decides |
| LiteTlsOutcomes.DrainSucceedsIff | src/utils/lite_tls/tls_relay_buffer.rs:234-272 | an active endpoint finds the other one's command if and only if one comes, completely, after whole records |
| LiteTlsOutcomes.DecidesOnce | src/utils/lite_tls/tls_relay_buffer.rs:181-218 | at most one record decides |
| LeaveProtocol.EveryRunIsSafe | src/utils/lite_tls/lite_tls_stream.rs:160-354 | in every clean run of the two endpoints both destinations have received a prefix of what was sent, without a command byte; each tunnel ends with its one command; no plain byte before a command was sent and received; never both passive; the scan is never entered with both directions seen |
| LeaveProtocol.EveryAlignedRunIsSafe | src/utils/lite_tls/lite_tls_stream.rs:160-354 | the same for every run with record-aligned first-hand reads in which an endpoint that finds the command has read all of it |
| LeaveProtocol.AlignedRunIsClean | src/utils/lite_tls/lite_tls_stream.rs:301-309 | such runs are clean |
| LeaveProtocol.StepKeepsInv | src/utils/lite_tls/lite_tls_stream.rs:254-354 | every clean step of either endpoint, of user or target keeps the protocol invariant |
| LeaveProtocol.QuietMeansComplete | src/server/utils/lite_tls.rs:42-77 | when nothing is buffered or in flight, everything that was sent has been delivered |
| LeaveProtocol.CommittedTunnelIsClosed | src/utils/lite_tls/lite_tls_stream.rs:169-182 | after its leave command an endpoint never writes to the tunnel again |
| LeaveProtocol.AwaitingIsNotStuck | src/utils/lite_tls/lite_tls_stream.rs:184-191 | an active endpoint that waits has bytes to read, or the other endpoint has its complete command to read |
| LeaveProtocol.CommandIsAtBoundaryIff | src/utils/lite_tls/tls_relay_buffer.rs:110-116 | the command of an active endpoint is at a record boundary if and only if its cursor is within its buffer |
| LeaveProtocol.SplitCommandFallsBack | src/utils/lite_tls/tls_relay_buffer.rs:161-174 | a scanning endpoint that reads part of a command goes active on the records before it or leaves passively, the latter if and only if the read brings all of the command |
| LeaveProgress.EverythingCanBeDelivered | src/utils/lite_tls/lite_tls_stream.rs:160-354 | from every state of the invariant some clean continuation delivers everything that was sent in both directions; once an endpoint has committed itself, with both endpoints relaying over the plain connection |
| LeaveProgress.FlushWaitsIff | src/utils/lite_tls/lite_tls_stream.rs:329-351 | after leaving, an endpoint has to wait if and only if it is passive, holds second-hand bytes, and no plain chunk has arrived |
| LeaveExactness.CleanIffInv | src/utils/lite_tls/lite_tls_stream.rs:283-300 | from every state of the invariant, a step keeps it if and only if it is clean |
| LeaveExactness.UncleanReadDoesHarm | src/utils/lite_tls/lite_tls_stream.rs:160-214 | every unclean read ends in a fallback, in a command that the other endpoint takes for record content, or in bytes that can never be delivered |
| LeaveExactness.InterruptionIsSwallowed | src/utils/lite_tls/tls_relay_buffer.rs:181-272 | a command inside a record: the other endpoint's read to the end of the tunnel falls back or delivers more than its origin was read |
| LeaveExactness.SwallowingIsUnsafe | src/utils/lite_tls/lite_tls_stream.rs:283-309 | that breaks the safety of the direction |
| LeaveExactness.LeftoverDoesHarm | src/utils/lite_tls/lite_tls_stream.rs:331-344 | in no continuation whatsoever is everything delivered that the origin of a passive endpoint with held first-hand bytes has sent |
| LeaveExactness.PassiveLeftoverIsNeverSent | src/utils/lite_tls/lite_tls_stream.rs:331-344 | no run ever sends what a passive endpoint holds of its first-hand bytes |
| LeaveExactness.ReadDoesHarmIffUnclean | src/utils/lite_tls/lite_tls_stream.rs:283-300 | as long as nothing is closed, a read does harm if and only if it is not clean |
| LeaveExactness.LeaveIsSoundIffClean | src/utils/lite_tls/lite_tls_stream.rs:160-354 | of the runs with well-typed records and nothing closed, exactly the clean ones do no harm, and each of those is safe and can be completed |
| LeaveProtocolExample.UncleanLeaveLosesAByte | src/utils/lite_tls/lite_tls_stream.rs:194-214 | a run with a read in the middle of a header loses a byte of the user's |
| MixAddrs.TransmuteU16sToU8s | src/utils/mod.rs:51-60 | writes the big-endian bytes to the front of a large enough buffer, and nothing otherwise |
| MixAddrs.WriteBuf | src/utils/mix_addr.rs:210-232 | appends the print-out of the address |
| MixAddrs.FromEncodedBytes | src/utils/mix_addr.rs:259-307 | the parser with its loop computes the specified parse |
| MixAddrs.FromEncoded | src/utils/mix_addr.rs:309-317 | advances the cursor by what was consumed and never past the end |
| MixAddrs.DecodeEncoded | src/utils/mix_addr.rs:259-307 | a print-out followed by anything is consumed exactly and gives the address back (V4 and host names) |
| MixAddrs.RereadIsExactIff | src/utils/mix_addr.rs:292-299 | a V6 address survives if and only if all its bytes but the first are equal |
| MixAddrs.LoopbackIsLost | src/utils/mix_addr.rs:292-299 | the loopback address comes out as the unspecified one |
| MixAddrs.ConsumedExactlyIff | src/utils/mix_addr.rs:213-217 | consumption is exact if and only if a host name has at most 255 bytes |
| MixAddrs.PrefixIsIncomplete | src/utils/mix_addr.rs:259-307 | every proper prefix of a print-out is incomplete |
| MixAddrs.CodeIsPrefixFree | src/utils/mix_addr.rs:210-232 | no print-out is a prefix of another, for addresses of every kind |
| MixAddrs.ParsedIsPrinted | src/utils/mix_addr.rs:86-94 | what is parsed is well-formed, has the consumed length, and prints as the consumed bytes |
| MixAddrs.DecodeIsMonotone | src/utils/mix_addr.rs:259-307 | a verdict does not change when bytes arrive |
| MixAddrs.ParsedIff | src/utils/mix_addr.rs:259-307 | an address is found if and only if its bytes are there, one by one |
| MixAddrs.PrintedIsSpelt | src/utils/mix_addr.rs:210-232 | the bytes of a print-out, one by one, for addresses of every kind |
| MixAddrs.VerdictIff | src/utils/mix_addr.rs:259-307 | the verdict comes with the last of the bytes announced, and is negative if and only if no address begins like this |
| MixAddrs.ViableIff | src/utils/mix_addr.rs:259-307 | which bytes can still become an address |
| Utf8.ValidIff | src/utils/mix_addr.rs:280-286 | the host names that pass are exactly the UTF-8 encodings of texts |
| Utf8.CanBecomeIff | src/utils/mix_addr.rs:280-286 | which beginnings can become a valid name of a given length |
| TrojanHeaders.TrojanAcceptor.Verify | src/server/inbound/acceptor.rs:44-57 | compares the hash and skips the line end |
| TrojanHeaders.TrojanAcceptor.SetHostAndPort | src/server/inbound/acceptor.rs:59-82 | command and address, if the command carries one |
| TrojanHeaders.TrojanAcceptor.Parse | src/server/inbound/acceptor.rs:173-202 | whatever earlier calls have seen, the outcome is that of parsing all bytes at once |
| TrojanHeaders.TrojanAcceptor.Accept | src/server/inbound/acceptor.rs:112-171 | the outcome depends on the bytes of the stream alone; the 1024-byte buffer does not grow; nothing is read after the first chunk that decides; the request's reader yields exactly the payload; a fallback gets everything that was read |
| TrojanHeaders.HeaderIsMonotone | src/server/inbound/acceptor.rs:173-202 | a verdict does not change when bytes arrive |
| TrojanHeaders.DecidedBy320Bytes | src/server/inbound/acceptor.rs:59-82 | no header needs more than 320 bytes, and none has fewer than 61 |
| TrojanHeaders.BufferedRecv.PollRead | src/utils/buffered_recv.rs:29-43 | panics exactly when the rest does not fit, never with 963 bytes of room; otherwise yields the whole rest and then the next bytes of the payload, and the end only at the end |
| TrojanHeaders.SendTrojanAuth | src/client/outbound/trojan_auth.rs:28-62 | writes hash, command and address with their line ends |
| TrojanHeaders.PrintedIsAcceptedIff | src/client/outbound/trojan_auth.rs:37-41 | a printed header followed by any payload is accepted, with its address and the cursor at the payload, if and only if hash and command fit |
| TrojanHeaders.PrintedPrefixIsIncomplete | src/server/inbound/acceptor.rs:173-202 | every proper prefix of a printed header is incomplete |
| TrojanHeaderShapes.AcceptedIff | src/server/inbound/acceptor.rs:44-202 | a header is accepted if and only if it is there byte by byte: hash, command, address, line end |
| TrojanHeaderShapes.CanBeHeaderIff | src/server/inbound/acceptor.rs:173-202 | which bytes can still become a header |
| TrojanHeaderShapes.DecidedIff | src/server/inbound/acceptor.rs:59-63 | the verdict comes with the last of the bytes awaited |
| TrojanHeaderShapes.RejectedIff | src/server/inbound/acceptor.rs:44-57 | bytes are rejected if and only if they can no longer become a header and the bytes awaited have come |
| TrojanHeaderShapes.FallbackWaits | src/server/inbound/acceptor.rs:44-49 | fewer than 56 hopeless bytes are not rejected |
| UdpRelayBuffers.UdpRelayBuffer.AsReadBuf | src/utils/udp/udp_relay_buffer.rs:24-26 | there is always room to read |
| UdpRelayBuffers.UdpRelayBuffer.Compact | src/utils/udp/udp_relay_buffer.rs:45-57 | the shifting loop keeps the unconsumed bytes |
| UdpRelayBuffers.UdpRelayBuffer.ReserveByCursor | src/utils/udp/udp_relay_buffer.rs:59-67 | keeps the unconsumed bytes and makes room for a whole datagram |
| UdpRelayBuffers.UdpRelayBuffer.Advance | src/utils/udp/udp_relay_buffer.rs:75-84 | consumes bytes, or panics exactly when there are too few |
| UdpFrames.FrameRoundTripIff | src/utils/udp/trojan_udp_stream.rs:73-84 | a frame followed by anything is parsed as itself if and only if its payload has at most 65535 bytes |
| UdpFrames.FrameIff | src/utils/udp/trojan_udp_stream.rs:144-175 | a datagram is found if and only if its frame is there byte by byte, apart from the line end, which is not looked at; bytes are malformed if and only if they can be no address |
| UdpFrames.FramePrefixNeedsMore | src/utils/udp/trojan_udp_stream.rs:144-165 | every proper prefix of a frame needs more bytes |
| UdpFrames.FramesRoundTrip | src/utils/udp/trojan_udp_stream.rs:73-84 | the frames of any datagrams are parsed as these datagrams, any prefix as a prefix of them |
| UdpFrames.ExtractIsParse | src/utils/udp/trojan_udp_stream.rs:177-210 | a resumed extraction does what one-shot parsing does, and panics if and only if the bytes end two or three after an address |
| UdpFrames.PanickingCuts | src/utils/udp/trojan_udp_stream.rs:153-165 | exactly two of the cuts of a frame make the reader panic |
| TrojanUdpStreams.TrojanUdpStream.TryUpdateAddrBuf | src/utils/udp/trojan_udp_stream.rs:144-151 | the address step of an extraction |
| TrojanUdpStreams.TrojanUdpStream.TryUpdateExpecting | src/utils/udp/trojan_udp_stream.rs:153-165 | the length step of an extraction, with its panic |
| TrojanUdpStreams.TrojanUdpStream.CopyIntoOuter | src/utils/udp/trojan_udp_stream.rs:167-175 | hands out one payload and keeps what follows it |
| TrojanUdpStreams.TrojanUdpStream.TryExtractPacket | src/utils/udp/trojan_udp_stream.rs:177-210 | one extraction attempt |
| TrojanUdpStreams.TrojanUdpStream.PollProxyStreamRead | src/utils/udp/trojan_udp_stream.rs:221-266 | yields exactly the frames of the received bytes, in order; is pending if and only if the reader was not ready, and then holds no complete frame; reports the end if and only if the reader did; fails if and only if the reader did or the bytes are malformed; panics only on the two bad cuts |
| TrojanUdpStreams.TrojanUdpStream.PutFrame | src/utils/udp/trojan_udp_stream.rs:73-84 | the buffer then holds exactly the frame of the datagram |
| TrojanUdpStreams.TrojanUdpStream.CopyIntoInner | src/utils/udp/trojan_udp_stream.rs:73-84 | accepts one datagram, when nothing of an earlier one is left |
| TrojanUdpStreams.TrojanUdpStream.FillRecvBuffer | src/utils/udp/trojan_udp_stream.rs:238-258 | one read keeps the account of the received bytes |
| TrojanUdpStreams.TrojanUdpStream.WriteSome | src/utils/udp/trojan_udp_stream.rs:110-125 | one write keeps the account of the accepted frames |
| TrojanUdpStreams.TrojanUdpStream.PollProxyStreamWrite | src/utils/udp/trojan_udp_stream.rs:95-132 | under every schedule, written plus unwritten bytes are the frames of the accepted datagrams, each accepted once; a datagram is reported sent if and only if its frame is written; otherwise the answer is the writer's |
| TrojanUdpStreams.ReadIsWhatWasSent | src/utils/udp/trojan_udp_stream.rs:73-266 | end to end, the datagrams read are a prefix of those sent, and all of them once everything has arrived |
| UdpCopies.ServerUdpStream.PollProxyStreamWrite | src/server/utils/server_udp_stream.rs:31-90 | a resolved address is kept until the datagram is sent completely, and no longer; pending if and only if the resolver or the socket was not ready |
| UdpCopies.UdpCopyBuf.WriteOnce | src/utils/udp/copy_udp.rs:112-133 | one write keeps the account of the deliveries |
| UdpCopies.UdpCopyBuf.ReadDatagram | src/utils/udp/copy_udp.rs:79-111 | the next datagram is taken into the empty buffer, or the end noted |
| UdpCopies.UdpCopyBuf.SendDatagram | src/utils/udp/copy_udp.rs:112-133 | the loop writes until the buffer is empty, or gives the socket's answer |
| UdpCopies.UdpCopyBuf.FlushSent | src/utils/udp/copy_udp.rs:87-97 | when the reader has nothing, what was sent is flushed |
| UdpCopies.UdpCopyBuf.Finish | src/utils/udp/copy_udp.rs:136-139 | at the end everything is delivered and flushed |
| UdpCopies.UdpCopyBuf.PollCopy | src/utils/udp/copy_udp.rs:66-142 | fails if and only if the reader, the socket or a lookup failed or the socket took nothing; is pending if and only if one of them was not ready; what was sent is flushed when the reader has nothing; every non-empty datagram is delivered once, in order, completely, to the answer of a lookup of its own name or to its own address, and the result is the number of payload bytes |
| CopyEngine.CopyBuffer.FillBuf | src/utils/forked_copy/copy_buf.rs:45-73 | one read into the buffer loses nothing |
| CopyEngine.CopyBuffer.WriteBuf | src/utils/forked_copy/copy_buf.rs:76-90 | one write moves bytes from the buffer to the writer |
| CopyEngine.CopyBuffer.FlushWritten | src/utils/forked_copy/copy_buf.rs:53-61 | when the reader has nothing, what was written is flushed |
| CopyEngine.CopyBuffer.WriteAll | src/utils/forked_copy/copy_buf.rs:76-90 | the loop writes until the buffer is empty, or gives the writer's answer |
| CopyEngine.CopyBuffer.PollCopy | src/utils/forked_copy/copy_buf.rs:32-96 | written plus buffered bytes are the bytes read and the count is the bytes written; fails if and only if reader or writer failed or the writer took nothing, and is otherwise pending if and only if one of them was not ready; ready only when all input was written and flushed; a pending poll whose writer was ready leaves bytes unflushed if and only if nothing has been copied yet and the writer held unflushed bytes before |
| CopyEngine.TransferOneDirection | src/utils/forked_copy/copy_bidirectional.rs:26-53 | a writer is shut down only after its direction was transferred and flushed; a direction that is done is not touched; failed and pending exactly as reader and writer answered |
| CopyEngine.CopyBidirectional.PollUpload | src/utils/forked_copy/copy_bidirectional.rs:71-76 | one poll of the upload, failed, pending or ready as its reader and writer answered |
| CopyEngine.CopyBidirectional.PollDownload | src/utils/forked_copy/copy_bidirectional.rs:71-76 | the same for the download |
| CopyEngine.CopyBidirectional.Poll | src/utils/forked_copy/copy_bidirectional.rs:62-93 | fails if and only if a direction does; a pending poll has polled both directions, and each that is not done had to wait in this very poll; completes exactly when both directions are done, and reports the upload if and only if that was done in an earlier poll |
| IdleMonitor.EveryRunIsTimely | src/utils/timedout_duplex_io.rs:57-92 | in every run no underflow; it fires only after strictly more than the deadline without activity, and before twice the deadline, a second and the polling delay |
| IdleMonitor.ThirdCheckFires | src/utils/timedout_duplex_io.rs:66-75 | of three polls of an inactive monitor, the first at the end of its sleep and a deadline apart, one fires |
| IdleMonitor.TimeoutMonitor.Poll | src/utils/timedout_duplex_io.rs:60-79 | fires or re-arms as specified, without underflow |
| IdleMonitor.TimeoutMonitor.Touch | src/utils/timedout_duplex_io.rs:82-93 | records activity in whole seconds |
| DnsCache.CacheIsFresh | src/utils/dns_utils/dns_resolver.rs:29-67 | with prompt ticks a cached answer is for the same query and at most 40 periods old, 21 if the timer was fast when it was inserted |
| DnsCache.BoundsAreReached | src/utils/dns_utils/dns_resolver.rs:83-107 | both bounds are reached |
| DnsCache.StampsAreNeverAhead | src/utils/dns_utils/dns_resolver.rs:29-67 | whatever the timing, stamps are not ahead of the counter, slow is at most 2, and a cached answer is of this tick or the one before |
| DnsCache.EntriesComeFromUpdates | src/utils/dns_utils/dns_resolver.rs:38-45 | an entry is the last update for its name, stamped with the ticks up to then |
| DnsCache.CachedIff | src/utils/dns_utils/dns_resolver.rs:46-63 | a query is answered from the cache if and only if the last update for its name came after the last tick but one, and then with that update's address |
| DnsCache.DnsResolver.Sleep | src/utils/dns_utils/dns_resolver.rs:83-93 | the sleep is over one period after the last tick if and only if there was a query in the last two, and twenty periods after it otherwise |
| DnsCache.DnsResolver.OnTick | src/utils/dns_utils/dns_resolver.rs:34-37 | a tick |
| DnsCache.DnsResolver.OnCacheUpdate | src/utils/dns_utils/dns_resolver.rs:38-45 | an update |
| DnsCache.DnsResolver.OnQuery | src/utils/dns_utils/dns_resolver.rs:46-63 | a query makes the timer fast and is answered from the cache if the entry is fresh |

## Left out

- Sockets, TLS, QUIC, certificates, the runtime, wakers and the fairness of `select!`: they appear as scripts of outcomes; their code is not part of this model.
- LeaveProtocol.EveryRunIsSafe: assumes full writes; of unclean runs `LeaveExactness` says what happens.
- LeaveProgress.EverythingCanBeDelivered: says that a completing continuation exists, in which user and target go on sending whole records; that the runtime takes it is fairness, which is not modelled.
- LiteTlsStreams.LiteTlsStream.DoHandshake: the end of a script stands for the handshake timeout; I/O errors of the handshake end the connection and are not modelled.
- The server's arm of the Lite-TLS start (`src/server/utils/lite_tls.rs:42-77`) has no method of its own: it has the client's order with the roles of the streams exchanged, which the side of the endpoint covers.
- TrojanHeaders.TrojanAcceptor.Accept: a failed read, which ends the connection without fallback, is not modelled; what the fallback service is sent afterwards is plain copying.
- TrojanUdpStreams.TrojanUdpStream.PollProxyStreamRead: reads from a scripted reader; that the bytes left after the header come first is `BufferedRecv.PollRead`.
- UdpCopies.UdpCopyBuf.PollCopy: its reader is a script of datagrams with the contract of `TrojanUdpStream.PollProxyStreamRead`; the opposite direction, in which an empty datagram from the socket counts as the end, is not modelled; `missed_wakeup` only serves wakers.
- UdpRelayBuffers.UdpRelayBuffer.AsReadBuf: the growth of a vector follows the doubling of the standard library; no property depends on it.
- DnsCache.DnsResolver.OnQuery: the lookup task is an event that comes back later; closed channels are left out.
- The QUIC endpoint manager and echo task, the HTTP and SOCKS5 front ends and `from_http_header`, `Socks5UdpStream`, the glommio variants and `copy_udp_bidirectional.rs`: plumbing, or near copies of what is modelled.
- `simd_parse.rs` and `copy_tcp.rs`: dead code.
- Arguments, logging, listeners and connection counters.
