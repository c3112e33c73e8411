# A verified model of the proxy's transport core

This project models, in Dafny 4.11, the part of the proxy server that moves bytes: the AnyTLS multiplexing
session, the Hysteria2 datagram fragmentation and TCP request header, the two message framings, the circular
copy buffer, the message relay and the buffered header reader. `dafny verify dfyconfig.toml` checks all of it.

Everything that is up to the peer, the runtime or chance is universally quantified. A connection is a `Source`
and a `Sink` driven by finite scripts of events (Pending, errors, chunks, partial writes), so a statement about
every script is one about every chunking and every interleaving, and every loop is shown to terminate. Random
choices, digests, address validity, the outcome of dialling, budgets, timers and the close flag are parameters.

## The main results

1. **The padded wire means what was written** (`SessionWriter`, `Wire`, `Invisible`, `Padding`, `Frames`). Whatever
   the flags, the scheme and the sizes it draws, the wire is the frames written, in order, less those held back,
   packet by packet, each followed by the paddings of its plan. At every point of a run, whatever is written next is
   read as it was written if and only if every packet's padding is made of whole Waste frames. One padding is so
   exactly if what the cast to sixteen bits cuts off its length is a multiple of seven. A plan is so, whatever frames
   are written with it, exactly if each size is at most 65535, or exceeds that by no more than seven plus the payload
   sure to be left for its record: 65549 for the first size, 65543 for a later one just after a mark. The scheme
   parser admits larger bounds; a lone size of 65550 loses the next frame. A write that fails leaves a prefix of such
   a wire. Packet numbers grow, stay below the stop value, and padding never resumes.
2. **Receiving does not depend on chunking** (`ReceiveLoop`). The frames dispatched, and the point of an
   unknown command, are a function of the bytes alone, those left over from authentication included.
3. **Streams neither lose nor reorder bytes** (`Multiplexer`, `Inbound`, `Outbound`, `SessionRuns`). Over every
   interleaving of the receive loop, the outgoing loop, the stream tasks and a close: returned, buffered, queued and
   held bytes are exactly those of the PSH frames handed over for the stream while it was listed; an empty read means
   the end. With fresh stream ids, what is read back from the wire for a stream, among any control frames, is an
   in-order prefix of what it wrote, and all of it once every item was written and nothing failed or is held back; if
   no write is empty, at most one end mark is ever queued for it, last.
4. **A fragmented packet is rebuilt once and unchanged** (`Reassembly`, `Delivery`, `Datagrams`), in any order and
   among others, while between two of its fragments never more than 255 others used since are in the cache; fewer than
   256 other split packets in between are enough for that. The bound is exact: from one of its fragments on, through
   any fragments of others, it survives if and only if that holds. The loop indexes out of bounds exactly for an index
   not below its count that meets no entry, or one of the same count.
5. **Frames of at most 61439 bytes always pass the packet reader; any longer one can be rejected**
   (`PacketStream`). Under every chunking a poll of either framing delivers the next message exactly if all of it is
   there. Writer and reader undo each other under any partial writes and chunks: a run delivers the messages a run of
   writes took, in order, and all of them once their bytes have arrived and a poll delivers nothing more. Messages
   keep their boundaries from the length-prefixed reader through the relay (`VlessRelay`).
6. **The ring buffer is a FIFO** (`CopyBuffer`, `CopyBidirectional`): nothing lost between source and sink,
   Ready only when all is written and flushed, shutdown only after that, Pending only if something was Pending.
7. **Hand-overs lose nothing** (`Authentication`, `TcpRequest`, `StreamReader`): the bytes read decide who gets a
   session, a fallback, a refusal or an error; the session starts at byte 34 + padding length, a fallback gets the
   client's bytes from byte 0, a TCP destination exactly the bytes after the request header.

Nothing stops short without a cause: an operation that waits, fails or gives up does so only because something of the
stream under it was pending, failed, ended or does not go on.

Where a property needs a condition, the condition is part of the result: a frame or message survives its
encoding exactly if its length fits sixteen bits; a fragmented payload is sent whole exactly if 255 fragments can
carry it; every message is relayed exactly if none is empty; the varint slice of a datagram is out of bounds exactly
if its announced width is not there.

## Model

| member | source | states |
|---|---|---|
| `Frames.CommandOf` | src/anytls/types.rs:41-59 | a command exists exactly for the codes 0 to 10, and is the one that encodes to that code |
| `Frames.CommandNumbers` | src/anytls/types.rs:41-59 | the number of each command |
| `Frames.FrameLayout` | src/anytls/types.rs:96-104 | seven bytes of header, command, stream id and length in network order, and then the data |
| `Bytes.ValueOf16` | src/anytls/types.rs:96-112 | a sixteen-bit field is the value of its two bytes, the most significant first |
| `Bytes.ValueOf32` | src/anytls/types.rs:96-112 | so is a field of thirty-two bits |
| `Frames.DecodeStable` | src/anytls/types.rs:162-188 | a frame or an unknown command found in a prefix is not changed by more bytes |
| `Frames.RoundTrip` | src/anytls/types.rs:96-112 | a frame decodes from its encoding followed by anything exactly if its data is at most 65535 bytes, since the length is cast to sixteen bits |
| `Frames.DecodeAllAppend` | src/anytls/types.rs:162-188 | decoding may stop and resume at any byte with the same frames, tail and unknown command |
| `Frames.DecodeEncodedAll` | src/anytls/types.rs:96-188 | concatenated encodings decode to the original frames, in order, whatever follows |
| `Frames.EncodeDecodedAll` | src/anytls/types.rs:162-188 | decoded frames re-encode to the bytes consumed: the decoder skips and invents nothing |
| `ReceiveLoop.FrameBuffer.Put` | src/anytls/types.rs:96-104 | appends the frame's encoding to the buffer |
| `ReceiveLoop.FrameBuffer.Next` | src/anytls/types.rs:162-188 | takes the frame at the front, or reports an unknown command or a short buffer and leaves it alone |
| `ReceiveLoop.Drain` | src/anytls/session.rs:225-230 | dispatches every complete frame up to a refusal or an unknown command, and leaves exactly the undecoded rest |
| `ReceiveLoop.RecvLoop` | src/anytls/session.rs:213-243 | for every chunking, with leftover authentication bytes first, dispatches what decoding the whole byte string gives, up to the first frame refused; it ends as closed only after as many reads as found the flag clear, with every frame of the bytes before the last of them dispatched, and gives up otherwise only because the stream ended, failed or does not go on |
| `ReceiveLoop.ChunkingIndependence` | src/anytls/session.rs:213-243 | two runs over the same bytes dispatch the same frames and stop at the same refusal or unknown command |
| `Padding.GenerateRecordPayloadSizes` | src/anytls/padding.rs:91-131 | the plan holds one draw per usable part of the line, in order, marks included, bounds in either order, after the cast to 32 bits |
| `Padding.PlanOfOne` | src/anytls/padding.rs:100-128 | what a line of one part may draw: a mark -1, a range with positive bounds one size, anything else nothing |
| `Padding.RangeDrawn` | src/anytls/padding.rs:108-124 | a size drawn for a range lies between its bounds, in whichever order they come |
| `Padding.PlanAppend` | src/anytls/padding.rs:96-128 | the parts of a line are drawn one after the other |
| `Padding.BoundedSchemeIsLegal` | src/anytls/padding.rs:91-131 | a scheme whose bounds are at most 65535 never draws a size that does not fit a frame |
| `Padding.RecordsCarryPayload` | src/anytls/session.rs:442-507 | under every plan the records carry the payload unbroken and then exactly the paddings the plan adds to that length |
| `Padding.RecordsFollowPlan` | src/anytls/session.rs:453-504 | the records follow the plan's sizes in order, up to the first mark that finds the payload used up; each has its planned size, except within seven bytes of it when no Waste header fits and pure padding records with their header on top; a last unplanned one exactly if the plan is too short; the payload is cut without gap |
| `Invisible.UnnoticedIff` | src/anytls/types.rs:162-188 | bytes between frames go unnoticed by every reader that drops Waste, whatever frames follow, exactly if they decode to whole Waste frames |
| `Invisible.PaddingUnnoticedIff` | src/anytls/session.rs:469-499 | one padding goes unnoticed exactly if what the cast of its length to sixteen bits cuts off is a multiple of seven |
| `Invisible.PaddingsUnnoticedIff` | src/anytls/session.rs:453-500 | the paddings of a packet go unnoticed at every record exactly if each is such a length |
| `Invisible.PlanUnnoticedIff` | src/anytls/session.rs:453-500 | whatever frames are written with a plan, its paddings go unnoticed at every record, exactly if no size can overrun: at most 65535, or more by at most seven plus the payload sure to be left for its record |
| `Invisible.LargestLoneSize` | src/anytls/session.rs:468-480 | a plan of one size loses nothing exactly up to 65549 |
| `Wire.ReadWire` | src/anytls/session.rs:403-507 | a wire whose packets have whole padding decodes completely, Waste dropped, to the frames of its packets in order |
| `Wire.ReadableIff` | src/anytls/session.rs:403-507 | at every point of a run whatever is written next is read as written, exactly if every packet's padding so far is made of whole Waste frames |
| `Wire.OverrunLosesFrame` | src/anytls/session.rs:469-499 | after any padding whose overrun leaves two zeros, the next frame is lost |
| `Wire.LargePaddingLosesFrame` | src/anytls/session.rs:469-477 | a scheme with the lone size 65550 pads a seven-byte packet with 65536 zeros under a length of none, and the next frame is lost |
| `SessionWriter.Writer.constructor` | src/anytls/session.rs:109-131 | starts consistent for any initial padding and coalescing flags |
| `SessionWriter.Writer.WriteFrame` | src/anytls/session.rs:403-439 | for every scheme and frame: a frame is held back, or goes out in one packet behind those held back, under the next packet number while padding is due; the wire is exactly the packets, and with whole padding and no frame over 65535 bytes decodes, Waste dropped, to the frames written less those held back; a failed write leaves a prefix of such a wire; padding never resumes; a write that is ready is flushed, and one that is not has met a failure or a stream that does not go on |
| `SessionWriter.Writer.Transmit` | src/anytls/session.rs:425-439 | puts on the wire exactly one packet of the frames given, with a plan drawn from the scheme only while padding is due |
| `SessionWriter.Writer.WriteWithPadding` | src/anytls/session.rs:442-507 | writes the payload followed by the paddings of a plan drawn for the packet number, or a prefix of that on failure |
| `SessionWriter.Writer.BoundedSchemeIsWhole` | src/anytls/padding.rs:91-131 | with bounds of at most 65535 in the scheme, every run's padding is whole |
| `SessionWriter.WriteRecords` | src/anytls/session.rs:453-504 | the loop over the sizes writes exactly the records of the plan, or stops inside one |
| `SessionWriter.WriteRecord` | src/anytls/session.rs:463-499 | one planned size writes its record and leaves the rest of the payload |
| `SessionWriter.WritePadding` | src/anytls/session.rs:482-498 | header and zeros in chunks of at most 1024 make up one padding record |
| `SessionWriter.WireMeaning` | src/anytls/session.rs:403-507 | a complete wire with whole padding decodes to what was sent with nothing left over; a torn one to a prefix of it |
| `SessionWriter.ProcessOutgoing` | src/anytls/session.rs:186-210 | every item taken becomes one PSH or FIN frame in order, whatever control frames other tasks write in between; only a failed PSH write or the close flag ends the loop early; with whole padding and no frame too long the wire decodes to the frames written |
| `Streams.ReadConserves` | src/anytls/stream.rs:95-148 | a read hands out the next bytes in order, at most as many as there is room for, and keeps the rest |
| `Streams.ReadWaitsIff` | src/anytls/stream.rs:95-148 | a read waits exactly if the stream is open and not at its end, nothing is unread or queued and a sender is left; with room it returns bytes whenever some are buffered or next in the queue |
| `Streams.WriteReportsQueued` | src/anytls/stream.rs:152-197 | a write reports exactly the bytes it queues, all of the slice up to 65535; taken exactly if stream and session are open and there is room |
| `Streams.ShutdownMarksIff` | src/anytls/stream.rs:203-241 | a shutdown blocks later writes at once, queues the end mark exactly if all is open and there is room, and waits exactly if there is none |
| `Streams.DropMarksIff` | src/anytls/stream.rs:244-251 | a dropped stream is closed and queues its end mark exactly if it was open and there is room |
| `Streams.AnyTlsStream.constructor` | src/anytls/stream.rs:62-79 | a new stream has nothing buffered and is open |
| `Streams.AnyTlsStream.PollRead` | src/anytls/stream.rs:95-148 | the field updates are exactly the read step the machine uses, for every state of stream and channel |
| `Streams.AnyTlsStream.PollWrite` | src/anytls/stream.rs:152-197 | queues at most 65535 bytes of the slice, and only for an open stream that is not shutting down |
| `Streams.AnyTlsStream.PollShutdown` | src/anytls/stream.rs:203-241 | blocks later writes at once, and closes when the end mark is queued or cannot be |
| `Streams.AnyTlsStream.Dropped` | src/anytls/stream.rs:244-251 | announces the end if it was not announced and there is room |
| `Multiplexer.Step` | src/anytls/session.rs:186-400 | every step of every task, a close being two, keeps the stream map, the channels and the outgoing queue well formed and only adds streams |
| `Multiplexer.Handle` | src/anytls/session.rs:246-400 | handling a frame up to its channel send keeps the map consistent |
| `Multiplexer.DeliverHeld` | src/anytls/session.rs:257-264 | a channel send that completes or finds the stream gone keeps the state well formed |
| `Multiplexer.PumpOne` | src/anytls/session.rs:186-210 | each step of the outgoing loop between two suspension points, taking an item, its write and the removal of its stream, keeps the state well formed |
| `Multiplexer.HandleFlags` | src/anytls/session.rs:246-400 | empty PSH, duplicate SYN, frames for unknown streams and control frames touch no stream |
| `Inbound.StepKeeps` | src/anytls/session.rs:186-400 | no step of any task breaks the byte account of any stream |
| `Inbound.BytesConserved` | src/anytls/session.rs:246-337 | in every run, returned, partially read, queued and held bytes of a live stream are exactly the payload of the PSH frames taken for it |
| `Inbound.ZeroReadIsTheEnd` | src/anytls/stream.rs:95-148 | an empty read into a non-empty buffer happens only when everything dispatched was returned and no sender is left |
| `Inbound.NothingAfterTheEnd` | src/anytls/session.rs:328-337 | after its end was read, no step dispatches to a stream or reconnects it |
| `SessionRuns.DispatchedIsPayload` | src/anytls/session.rs:246-264 | in every run, what was dispatched to a stream is the payload of the PSH frames with its id handed over while it was listed |
| `SessionRuns.ListedUntil` | src/anytls/session.rs:140-337 | a stream stays listed until its FIN is handed over, the outgoing loop removes it after its own end mark or the close lets go of all streams, and is never listed again |
| `SessionRuns.ReadsArePayload` | src/anytls/stream.rs:95-148 | bytes returned by a stream's reads, then those on their way to it, are the payload of the frames handed over for it |
| `SessionRuns.SynOpens` | src/anytls/session.rs:269-310 | a SYN after the settings, for an id not in use, opens a fresh stream that is listed |
| `SessionRuns.HeldForStream` | src/anytls/session.rs:248-337 | a PSH or FIN for a listed stream is held for it, as its payload or as an end mark |
| `SessionRuns.HeldIsQueued` | src/anytls/session.rs:257-264 | what is held goes into the stream's channel of 16 once there is room, and is let go if the stream is gone |
| `SessionRuns.StopsAtRefusal` | src/anytls/session.rs:246-400 | the machine stops taking frames exactly at the first SYN before the settings, alert, or reply that did not go out |
| `SessionRuns.LoopAgrees` | src/anytls/session.rs:213-243 | with the machine's verdicts the receive loop ends at a refusal exactly if the machine has stopped |
| `Outbound.StepKeeps` | src/anytls/session.rs:186-210 | no step breaks the account of what each stream queued and what was sent of it, for fresh ids and non-empty writes |
| `Outbound.SentInOrder` | src/anytls/stream.rs:152-251 | what is sent for a stream is an in-order prefix of what its writes accepted; at most one end mark is ever queued for it, nothing after that, and only once it closed |
| `SessionRuns.SentIsWritten` | src/anytls/session.rs:186-210 | in every run with fresh ids, empty writes and failed frames included, the payloads sent for a stream are an in-order prefix of the bytes its writes reported as accepted, and all of them once nothing waits and the loop goes on |
| `SessionRuns.WrittenIsAccepted` | src/anytls/stream.rs:152-197 | in every run, what a stream queued is the concatenation of as many bytes of each slice as the write reported |
| `SessionRuns.QueueHoldsWrites` | src/anytls/stream.rs:152-251 | in every run with fresh ids, the payloads queued under a stream's id are exactly what its writes accepted |
| `SessionRuns.SentIsQueue` | src/anytls/session.rs:186-210 | in every run, however interleaved, the outgoing loop has sent the items of the queue in order, without gap, up to where it is, unless an end mark failed |
| `SessionRuns.NextIsSent` | src/anytls/session.rs:189-208 | the outgoing loop takes the next item and sends it if its write succeeds; once closed it stops instead |
| `SessionRuns.EndMarkRemoves` | src/anytls/session.rs:194-201 | once an end mark was written, or could not be, its stream is taken off the map and the loop goes on |
| `SessionRuns.QueueBounded` | src/anytls/session.rs:107-107 | in every run at most 64 items wait for the outgoing loop |
| `SessionRuns.ReadAsSent` | src/anytls/session.rs:186-210 | in every run, among any control frames, the stream frames read back from the wire are those of what the outgoing loop sent |
| `SessionRuns.WireCarriesStream` | src/anytls/session.rs:186-210 | in every run with fresh ids, among any control frames, on a torn wire or with frames held back, the payload read back for a stream is an in-order prefix of the bytes its writes reported as accepted, and all of them once every queued item was written and nothing failed or is held back |
| `Outbound.EmptyWriteLooksLikeTheEnd` | src/anytls/stream.rs:178-190 | an empty write is queued like an end mark while the stream stays open, which is why writers must not pass one |
| `Transport.Sink.WriteLoop` | src/util.rs:19-30 | under every partial write, all of the slice when it succeeds and a proper prefix otherwise, which only a failure or a stream that does not go on explains |
| `CopyBuffer.RingExtend` | src/copy_bidirectional.rs:58-78 | the free slice is contiguous, in bounds and clear of the bytes in use; filling it appends to the ring |
| `CopyBuffer.RingShrink` | src/copy_bidirectional.rs:107-131 | taking bytes from the used slice removes them from the front of the ring |
| `CopyBuffer.CopyBuffer.constructor` | src/copy_bidirectional.rs:29-40 | starts empty with the requested flush flag |
| `CopyBuffer.CopyBuffer.ReadOnce` | src/copy_bidirectional.rs:59-84 | a read gets a non-empty slice and appends what came; no bytes means the source ended |
| `CopyBuffer.CopyBuffer.Fill` | src/copy_bidirectional.rs:58-85 | reads until the source ends, the ring is full or a read is Pending, losing nothing |
| `CopyBuffer.CopyBuffer.Drain` | src/copy_bidirectional.rs:107-140 | writes from the front, never an empty slice, until the ring is empty or a write is Pending; a zero write is an error |
| `CopyBuffer.CopyBuffer.Ping` | src/copy_bidirectional.rs:87-105 | a keep-alive is attempted exactly if due while the ring is empty, and asks for a flush if one went out |
| `CopyBuffer.CopyBuffer.Settle` | src/copy_bidirectional.rs:142-155 | flushes if due; ready only at the end with all written and flushed, and goes round again only if nothing stalled |
| `CopyBuffer.CopyBuffer.Round` | src/copy_bidirectional.rs:54-155 | a turn that goes round again has written at least a full buffer and used up some of the supply |
| `CopyBuffer.CopyBuffer.PollCopy` | src/copy_bidirectional.rs:42-156 | accepted then ring is accepted before, ring before, then bytes read; Ready only when all is written and flushed after the end; Pending only if the budget or an operation was, and if none of the sink was, with all written and flushed; Failed only if an operation failed; terminates for every finite supply |
| `CopyBidirectional.TransferOneDirection` | src/copy_bidirectional.rs:175-202 | shuts the sink down only after everything was written and flushed, and is ready exactly when that is done |
| `CopyBidirectional.Copier.constructor` | src/copy_bidirectional.rs:259-275 | starts both directions with the flush flags crossed over |
| `CopyBidirectional.Copier.Poll` | src/copy_bidirectional.rs:211-241 | both directions stay byte-exact since the start; ready exactly when both are done, each sink then holding all the other side sent; pending only if each direction that is not done found an operation pending; failed only if one failed |
| `CopyBidirectional.Relay` | src/copy_bidirectional.rs:247-277 | for every budget and keep-alive, each side has a prefix of what the other sent, and all of it, flushed, once the relay finishes; it does not only if an operation failed or every poll allowed found one pending of each direction not done |
| `StreamReader.StreamReader.Compact` | src/stream_reader.rs:28-36 | moves the unparsed bytes to the front unchanged |
| `StreamReader.StreamReader.Read` | src/stream_reader.rs:143-177 | adds a chunk after the unparsed bytes; reads into a non-empty slice, so no bytes is the end; refuses exactly when full; interrupted reads are repeated; gives up only if the stream ended, failed or does not go on |
| `StreamReader.StreamReader.Await` | src/stream_reader.rs:68-70 | a request within the buffer never meets a full cache |
| `StreamReader.StreamReader.PeekSlice` | src/stream_reader.rs:57-72 | shows the next bytes and consumes none; too long exactly if beyond the buffer |
| `StreamReader.StreamReader.Consume` | src/stream_reader.rs:75-84 | drops exactly the bytes asked for |
| `StreamReader.StreamReader.ReadSlice` | src/stream_reader.rs:105-128 | returned then unparsed is unparsed before then bytes read, on success and on every error |
| `StreamReader.StreamReader.ReadU8` | src/stream_reader.rs:38-54 | takes exactly the next byte |
| `StreamReader.StreamReader.ReadU16Be` | src/stream_reader.rs:86-103 | takes exactly the two bytes whose big-endian value it returns |
| `Authentication.Handler.constructor` | src/anytls/server.rs:62-91 | the user table holds exactly the given password hashes with the last name of each, the prefix set exactly their first eight bytes |
| `Authentication.Handler.Identify` | src/anytls/server.rs:106-135 | for every chunking, finds the user of the first 32 bytes, or none exactly if the first 8 or 32 bytes begin no user's hash, consuming nothing |
| `Authentication.Handler.Decide` | src/anytls/server.rs:97-156 | the bytes read decide: a session exactly for a known hash with a complete prologue and at most 32768 bytes of padding, starting after it; a known user is turned away as too long exactly for longer padding; a fallback, with every byte read, or a refusal exactly for an unknown hash; otherwise only the stream is to blame |
| `Authentication.Handler.UnknownIsNobody` | src/anytls/server.rs:106-119 | the quick test on eight bytes turns no user away |
| `Authentication.ReadPrologue` | src/anytls/server.rs:137-142 | succeeds exactly if hash, length and at most 32768 bytes of padding are all there, and then leaves exactly the bytes from 34 + padding length on; too long exactly for more padding |
| `Authentication.HandleConnection` | src/anytls/server.rs:97-156 | a session exactly for a known user with a complete prologue and at most 32768 bytes of padding, its frames those of the client's bytes from 34 + padding length on; the fallback exactly for an unknown one, its destination getting the client's bytes from byte 0, all of them and flushed if the relay finishes |
| `Authentication.FallbackToDest` | src/anytls/server.rs:160-216 | forwards what was read and has flushed it before the relay, then everything that follows, all of it flushed at the end; the client gets a prefix of what the destination sends; interrupted only by a failed or stuck write of what was read |
| `Varint.Encode` | src/hysteria2.rs:793-811 | encodes exactly the values below 2^62 |
| `Varint.DecodeLayout` | src/hysteria2.rs:440-461 | the two top bits of the first byte say that one, two, four or eight bytes make up the number, which is their value in network order without those bits |
| `Varint.RoundTrip` | src/hysteria2.rs:793-839 | every value below 2^62 decodes from its encoding followed by anything, consuming exactly the encoding |
| `Varint.Stable` | src/hysteria2.rs:440-461 | more bytes never change a decoded value |
| `Varint.Shortest` | src/hysteria2.rs:793-811 | nothing that decodes to a value is shorter than its encoding, and nothing decodes to 2^62 or more |
| `Varint.PrefixFree` | src/hysteria2.rs:793-811 | no encoding is a prefix of another value's |
| `Varint.ShiftLoop` | src/hysteria2.rs:830-838 | the byte loop of the reader's decoder computes the big-endian value |
| `TcpRequest.ParseRequestStable` | src/hysteria2.rs:659-686 | once a header is complete, or bad, later bytes change nothing |
| `TcpRequest.RequestParsed` | src/hysteria2.rs:659-686 | a request is accepted exactly with id 0x401, an address of at most 2048 bytes that names a location and at most 4096 bytes of padding, and its header ends where the padding does |
| `TcpRequest.RequestUnfinished` | src/hysteria2.rs:659-686 | a request is not told before its last byte is there |
| `TcpRequest.ReadVarint` | src/hysteria2.rs:813-839 | through the buffered reader, under every chunking, agrees with decoding the bytes at hand |
| `TcpRequest.ReadCounted` | src/hysteria2.rs:673-686 | a length within its limit and that many bytes, or exactly the error the bytes call for |
| `TcpRequest.ReadTarget` | src/hysteria2.rs:673-686 | address then padding, in agreement with the format on bytes |
| `TcpRequest.ReadRequest` | src/hysteria2.rs:659-686 | accepts, rejects or lacks bytes exactly as the format says, and leaves exactly the bytes after the header; bytes are lacking only if the stream ended, failed or does not go on |
| `TcpRequest.ProcessTcpStream` | src/hysteria2.rs:720-790 | the destination named by the header gets exactly the bytes after it, all of them and flushed if the relay finishes, and nothing without a good header; the client gets the answer, two zeros and the padding behind its length, and then the destination's bytes; it stops short only for a bad header, a failed connect, a failure or a stream that does not go on |
| `Reassembly.AcceptKeeps` | src/hysteria2.rs:538-591 | at most 256 packets with distinct ids, slots matching the count, a correct tally below it and a correct length; a well-formed fragment never runs off the slots |
| `Reassembly.RunKeeps` | src/hysteria2.rs:538-591 | the same over every run |
| `Reassembly.OutcomeByEntry` | src/hysteria2.rs:553-591 | what a fragment leads to, by what was stored: mismatched count and duplicate index throw the packet away, the last empty slot completes it, anything else is stored |
| `Reassembly.UnsplitPasses` | src/hysteria2.rs:532-536 | a packet that is not split is handed on as it came and a count of none is ignored, the cache left alone |
| `Reassembly.CrashIff` | src/hysteria2.rs:561-568 | the slot index is out of bounds exactly for a split packet's index not below its count, when its id is new or stored with the same count |
| `Reassembly.CrashOnFirst` | src/hysteria2.rs:568-568 | a first fragment with index 5 of 2 does so |
| `Reassembly.CompletionOrigin` | src/hysteria2.rs:573-591 | a completed payload is the index-ordered concatenation of one fragment per index, all of that id and count and all arrived since the packet was begun |
| `Reassembly.Reassembler.Receive` | src/hysteria2.rs:532-592 | the step-by-step cache operations do what the reassembly function says, for every fragment |
| `Reassembly.Join` | src/hysteria2.rs:587-590 | the copy loop concatenates the slots in index order |
| `Delivery.OtherArrives` | src/hysteria2.rs:538-562 | a pending packet survives another's fragment, unchanged, while fewer than 256 packets in the cache were used since its own |
| `Delivery.DeliveredOnce` | src/hysteria2.rs:532-592 | fragments in any order, each once, mixed with others, never more than 255 others used since being in the cache between two of its own: every one is stored but the one that makes the set whole, which completes the packet with the original payload |
| `Delivery.WholeAtLast` | src/hysteria2.rs:573-579 | that one is the last fragment of the packet and no other |
| `Delivery.SurvivesIff` | src/hysteria2.rs:538-562 | from a packet's own fragment on, through any fragments of others, it is still there exactly if at no time more than 255 others used since are in the cache |
| `Delivery.FewIsCalm` | src/hysteria2.rs:538-562 | fewer than 256 other split packets between two fragments are enough for that, whatever becomes of them |
| `Delivery.EvictedAfter256` | src/hysteria2.rs:263-263 | with 256 other packets begun in between, the pending one is gone and its next fragment starts it afresh |
| `Datagrams.OutOfBoundsIff` | src/hysteria2.rs:440-461 | the inline varint slice is out of bounds exactly if the announced width is not all there |
| `Datagrams.OutOfBoundsAtNine` | src/hysteria2.rs:450-454 | nine bytes that announce a two-byte length do so |
| `Datagrams.DecodeInline` | src/hysteria2.rs:440-461 | the decoder written out in the loop agrees with `read_varint` on value and length, and is out of bounds exactly if that one lacks bytes |
| `Datagrams.ReadDatagram` | src/hysteria2.rs:431-492 | the loop's checks in order make of every datagram what the format says |
| `Datagrams.TakenIff` | src/hysteria2.rs:431-492 | a datagram is taken exactly with at least nine bytes, a complete length of 1 to 2048 and that many bytes that name a location |
| `Datagrams.ParseLayout` | src/hysteria2.rs:431-492 | a laid-out datagram is parsed back into its session id, packet id, index, count, address and payload |
| `Datagrams.WholeIff` | src/hysteria2.rs:375-379 | the slices sent are the whole payload exactly if 255 of them can be, since the count is cast to eight bits |
| `Datagrams.NothingSentOf256` | src/hysteria2.rs:375-379 | with one byte to a fragment, 256 bytes are sent as no fragment at all |
| `Datagrams.SendPacket` | src/hysteria2.rs:341-394 | sends one datagram or the fragments of the payload, each within the limit |
| `Datagrams.SendFragments` | src/hysteria2.rs:375-393 | the loop over fragment ids lays out exactly the consecutive slices |
| `Datagrams.FragmentedSend` | src/hysteria2.rs:354-394 | at least two datagrams, each within the limit and with some payload, parsed back into slices that make up the payload |
| `Datagrams.UnfragmentedSend` | src/hysteria2.rs:362-373 | a payload that fits is sent as one datagram, which the receiver reads back and hands on at once to the same address, whatever its cache holds |
| `Datagrams.EndToEnd` | src/hysteria2.rs:354-592 | from fragmenting through any arrival order to reassembly: the payload comes out once, at the last fragment, unchanged |
| `PacketAddress.ParseAddressStable` | src/message_stream.rs:109-151 | an address or an error found in a prefix is not changed by more bytes |
| `PacketAddress.AddressParsed` | src/message_stream.rs:109-151 | an IPv4, IPv6 or domain address, types 0, 1 and 2 with the port in network order, is read from its bytes whatever follows, but a name that is not one is refused |
| `PacketAddress.PacketParsed` | src/message_stream.rs:221-237 | so is a packet to any address |
| `PacketAddress.AddressRefusedIff` | src/message_stream.rs:109-151 | refused exactly for a type above 2 or a complete name that is not one |
| `PacketAddress.ParsePacketStable` | src/message_stream.rs:221-237 | the same for a whole packet |
| `PacketAddress.WriteUotAddress` | src/message_stream.rs:155-170 | writes the address at the front of the buffer and nothing beyond it |
| `PacketAddress.WrittenAddress` | src/message_stream.rs:155-170 | the writer lays out type 0 or 1, the octets and the port in network order |
| `PacketAddress.PacketRoundTrip` | src/message_stream.rs:109-170 | a written frame is parsed back, leaving what follows |
| `PacketAddress.PacketsRoundTrip` | src/message_stream.rs:221-355 | so is any list of written frames |
| `PacketStream.PollConserves` | src/message_stream.rs:252-285 | a poll delivers the first packet of the bytes at hand and keeps the rest, or keeps all |
| `PacketStream.ShortFramesPass` | src/message_stream.rs:264-269 | in any state and under any chunking, a frame of at most 61439 bytes is delivered, and what follows it kept, exactly if all of it is there; otherwise the poll ends as the stream answered, never with a full buffer |
| `PacketStream.LongFramesCanFail` | src/message_stream.rs:85-95 | any longer frame is rejected in a reachable state, with the start at 4096 |
| `PacketStream.FrameOfLength` | src/message_stream.rs:312-329 | frames of every length from 9 to 65535 exist |
| `PacketStream.ChunkingIndependence` | src/message_stream.rs:241-286 | for any bytes, what is delivered depends on the bytes alone |
| `PacketStream.FramesArrive` | src/message_stream.rs:221-355 | written frames of at most 61439 bytes are delivered in order, none lost or invented, with no buffer or format error, under every chunking; once a poll delivers nothing no whole frame is left, and with all bytes arrived every frame was delivered |
| `PacketStream.SlideBuffer.ConsumeBytes` | src/message_stream.rs:70-82 | drops bytes from the front, resetting an empty buffer |
| `PacketStream.SlideBuffer.MaybeCompact` | src/message_stream.rs:85-95 | moves the bytes down only past the threshold, and keeps them |
| `PacketStream.SlideBuffer.ReadMore` | src/message_stream.rs:271-280 | reads into the non-empty tail |
| `PacketStream.PacketAddrStream.PollReadTargetedMessage` | src/message_stream.rs:241-286 | the loop over buffer and stream is exactly the poll above, for whatever the stream does; it waits or breaks only if the stream did |
| `PacketStream.PacketAddrStream.PollDrain` | src/message_stream.rs:298-310 | hands pending bytes over in order under every partial write |
| `PacketStream.PacketAddrStream.PollWriteSourcedMessage` | src/message_stream.rs:290-332 | accepted then pending grows by exactly the frame when ready, and refuses only a frame over 65535 bytes |
| `PacketStream.PacketAddrStream.PollFlushMessage` | src/message_stream.rs:334-355 | hands pending bytes over in order, and is ready only with nothing pending and all flushed |
| `PacketStream.WriteRun` | src/message_stream.rs:290-355 | over any run of writes and flushes, accepted then pending is the frames of the messages taken, in order |
| `PacketStream.WrittenIsRead` | src/message_stream.rs:221-355 | of the messages a run of writes took, a fresh reader of the bytes delivers the first ones in order and unchanged, under any partial writes and chunks, and all of them once every byte was read and a poll delivers nothing more |
| `PacketStream.LayOut` | src/message_stream.rs:324-329 | address, length and data make up the frame at the front of the buffer |
| `LengthPrefixed.UnfinishedLeavesRoom` | src/message_stream.rs:444-445 | the assertion that the read slice is not empty can never fail with 65537 bytes |
| `LengthPrefixed.RoundTrip` | src/message_stream.rs:423-433 | a message is read back from its encoding exactly if it is at most 65535 bytes |
| `LengthPrefixed.ChunkingIndependence` | src/message_stream.rs:411-467 | for any bytes, what is delivered depends on the bytes alone |
| `LengthPrefixed.MessagesArrive` | src/message_stream.rs:411-530 | messages are delivered in order with their boundaries under every chunking, a 65535-byte buffer is never too small, and once a poll delivers nothing with all bytes arrived every message was delivered |
| `LengthPrefixed.VlessMessageStream.TakeMessage` | src/message_stream.rs:434-439 | removes one message and moves the rest down |
| `LengthPrefixed.VlessMessageStream.PollReadMessage` | src/message_stream.rs:411-467 | the loop over buffer and stream is exactly the poll above; the end inside a message is an error; it waits or breaks only if the stream did |
| `LengthPrefixed.VlessMessageStream.PollFlushMessage` | src/message_stream.rs:503-530 | hands pending bytes over in order and clears them only once flushed |
| `LengthPrefixed.VlessMessageStream.PollWriteMessage` | src/message_stream.rs:471-499 | accepted then pending grows by exactly the message when ready, and refuses only one over 65535 bytes |
| `LengthPrefixed.WriteRun` | src/message_stream.rs:471-530 | over any run of writes and flushes, accepted then pending is the encodings of the messages taken, in order |
| `LengthPrefixed.WrittenIsRead` | src/message_stream.rs:411-530 | of the messages a run of writes took, a fresh reader of the bytes delivers the first ones in order and unchanged, under any partial writes and chunks, and all of them once every byte was read and a poll delivers nothing more |
| `MessageRelay.AllRelayedIff` | src/udp_relay.rs:74-79 | everything is relayed exactly if no message is empty, an empty one being taken for the end |
| `MessageRelay.CopyBuffer.Fetch` | src/udp_relay.rs:70-90 | reads one message when none is waiting; no bytes ends the direction |
| `MessageRelay.CopyBuffer.Deliver` | src/udp_relay.rs:92-110 | writes the waiting message whole |
| `MessageRelay.CopyBuffer.Turn` | src/udp_relay.rs:64-146 | a turn that goes round again has used up an event of one side |
| `MessageRelay.CopyBuffer.Settle` | src/udp_relay.rs:131-145 | flushes if due; ready only at the end with all written and flushed, and goes round again only after a flush or if nothing stalled |
| `MessageRelay.CopyBuffer.PollCopy` | src/udp_relay.rs:52-147 | messages arrive whole and in order up to the first empty one; Ready only when all is written and flushed; Pending only if an operation was, and if none of the sink was, with all written and flushed; Failed only if one failed; terminates |
| `MessageRelay.TransferOneDirection` | src/udp_relay.rs:167-194 | shuts the sink down only after every message was written and flushed, and is ready exactly when that is done |
| `MessageRelay.RelayOneDirection` | src/udp_relay.rs:52-194 | for every budget and keep-alive, over any number of polls the sink holds the messages read before the first empty one, less at most the last; once finished all of them, flushed, and the sink is shut down exactly then; not finished only if an operation failed or every poll allowed found one pending |
| `VlessRelay.Collect` | src/message_stream.rs:411-467 | polling the length-prefixed reader with the relay's buffer never finds it too small and yields its messages, the end as a read of no bytes |
| `VlessRelay.RelayFromStream` | src/udp_relay.rs:52-194 | whatever messages the peer wrote and however their bytes arrive, the sink is handed them whole and in order up to the first empty one, and all of those once the relay is through and every byte has arrived; not through only if an operation of either side failed or every poll allowed found one pending |

## Left out

- TLS, QUIC and HTTP/3 set-up, certificates, listeners, dialling, DNS and socket options: external libraries and I/O.
- Textual addresses and the padding scheme's text: addresses are byte strings with a validity predicate, scheme lines are lists of parsed parts; UTF-8 validity is a parameter.
- SHA-256 and MD5: the password digest is any function to 32 bytes; the settings comparison by MD5 is not modelled.
- Multiplexer.Handle: does not model the contents of control replies (alert, settings, padding update, heartbeat, SYNACK), only whether they went out, because they carry no stream data; the writer takes any frames.
- SessionWriter.Writer.WriteFrame: says nothing about the wire after a write has failed or a control-frame timeout has cut one short, because later frames then follow a torn one; and of a wire with padding that is not whole only that some next frame is misread.
- Outbound.SentInOrder: assumes that a stream id is not reused and, for what it says of end marks, that no write passes an empty slice; the copier and the message writers are shown never to pass one, as `PollWrite` of the sink requires it. `SentIsWritten` and `WireCarriesStream` do without the latter.
- Padding.RecordsCarryPayload: a size that is negative as 32 bits is taken as the huge unsigned size it becomes; that no machine can allocate such padding is not modelled.
- Reassembly.Reassembler.Receive: says nothing about the cache after an out-of-bounds access, which ends the loop.
- Delivery.DeliveredOnce: a run goes on past an out-of-bounds access, which in the source ends the loop.
- Datagrams.SendPacket: requires the datagram limit to exceed the header, which the source asserts.
- CopyBuffer.CopyBuffer.constructor: requires a positive size; every caller passes one, and a size of zero has no meaning for the ring.
- The table of Hysteria2 UDP sessions, its idle clean-up, and the choice of socket address per packet: bookkeeping around the reassembly of one session.
- The wrap-around of the sender's packet id: the delivery results are about one packet while its id is not in the cache.
- Running the two message directions side by side with the idle timeout, per-destination UDP routing, and keep-alive timers: timers and I/O around the one-direction relay.
- Agreement between the task table and the running tasks, and task abortion: the source does not maintain it as an invariant; dropped streams are steps of the machine.
- A write of no bytes by the underlying stream is an error in `write_all` and in the copier, and is simply repeated by the repository's own loops, as the source does; that such writes end is assumed of the stream by the finite script.
