# Verified model of the TMMS streaming server core

A Dafny model of the parts of the server where correctness rests on two pieces of code staying in step:
the RTMP chunk stream codec with its send pipeline, the RTMP handshake, the timing wheel, the AMF0
reader and writer, the receive buffer, the timestamp corrector and the string splitters. It stands for
the C++ under `tmms/`. Check it with `dafny verify dfyconfig.toml`.

Code that changes state in place is modelled by classes with the same fields and loops, each method
proved against a specification function; the theorems are about these functions, over every input and
every run.

| files | what they model |
|---|---|
| `Bytes`, `ChunkFormat`, `Arithmetic`, `Sequences`, `Wrappers` | byte orders, messages and headers, facts about division and about sequences, options |
| `ChunkParser`, `RtmpReceiver` | `ParseMessage`: the specification, and the object with its four maps and packets filled in place |
| `ChunkWriter`, `RoundTrip`, `ChunkTheorems`, `Shortest`, `Demultiplex`, `Interleaving` | `BuildChunk` as an encoder; the round trip, exactly when it holds, partial delivery, chunk size changes, headers as short as can be, interleaving |
| `TcpConnection`, `HeaderArena`, `SendPipeline`, `PipelineTheorems`, `Session` | ranges of memory drained by partial writes, the header arena and what fits in it, the batch queue; delivery over whole sessions |
| `HandShake`, `HandShakeProtocol`, `RtmpHandShake` | digests, the two-party protocol over two byte streams, and the object that plays one side |
| `Connection`, `RtmpContext` | handshake and messages on one connection; both directions at work together, with acknowledgements |
| `Agenda`, `WallClock`, `TimingWheel` | timers as a set of dates with reference-counted entries, what they do by the clock, and the wheel that implements them |
| `MsgBuffer` | the receive buffer as one sequence of bytes |
| `Doubles`, `Amf`, `AmfRoundTrip`, `AmfCommands`, `AmfObject`, `AmfWriter` | AMF0 values, commands, lookup, and numbers by their bits |
| `TimeCorrection`, `TimeCorrector` | timestamp correction over runs |
| `StringUtils` | the two splitters |
| `Samples` | wire images worked out by hand, which fix constants, formats and byte orders |

## Where the code falls short of what it is for

The model follows the code. Where a promise fails, the exact condition is proved.

- Extended timestamps are written in host order, read in network order and, under format 0, not kept
  (`tmms/mmedia/rtmp/rtmp_context.cpp:433-437`, 631-635, 250-263). `ArrivesIff` gives the exact condition for
  one message to arrive, `ArrivalStampIs` the timestamp that does arrive, `SurvivesIff` the condition for the
  internal histories to agree afterwards, `ExtendedRepeatIsLost` a family of losses. The
  pipeline itself is not affected: `Send` calls `BuildChunk` without a timestamp, so every packet leaves
  with timestamp 0, whatever its header says (`PipelineInScope`).
- An empty body is lost under a header that leaves the length out (`EmptyBodyIsLost`), and the bytes after it
  are taken for its body (`EmptyBodySwallows`).
- The client tests for 1536 bytes of S0S1 but takes 1537 (`ShortTest`); `Enabled` excludes deliveries
  that stop there, and only those.
- The hour and day wheels never turn, because a multiple of 3600 is a multiple of 60 (`NeverServed`).
  Minute delays fire up to 59 seconds early (`FiringLaw`), recurring timers from a minute on drop the
  seconds of their period (`PeriodKept`), and delays of 31 days and more fire at once (`FiresAtOnce`).
  Recurring timers of zero seconds, or of 31 days and more, call back without end (`RegistersAnewIff`).
- A clock that starts at -1000 or below and falls below zero right after reading zero can make the wheel run
  ahead (`AheadAcrossZero`, `AheadFromAnywhere`); in every other series of readings it does not (`NeverAhead`).
- `MsgBuffer` with an initial length below eight is cut short by `RetrieveAll`.
- Messages near the 24-bit length limit do not fit in the header arena and are truncated (`LongestMessage`,
  `ArenaIff`, `EncodeWithinIs`); the connect packet overflows for long names (`ConnectFitsIff`).
- AMF numbers lose their fraction (`NumberSurvivesIff`); a command that ends in a boolean loses it, and one
  with a value that is a number beginning with 00 09 loses everything from there on (`NothingLostIff`); an object with an
  empty name is never read as it was written (`RoundTripIff`, `LagsBehind`). `CommandRoundTripIff` puts these together.
- Corrected timestamps that pass 2^32 start over from zero (`WrapShows`).

## Model

| member | source | states |
|---|---|---|
| `ChunkParser.FragmentationInvariance` | tmms/mmedia/rtmp/rtmp_context.cpp:115-294 | For every byte stream and every way of cutting it into deliveries (empty ones included), from any receiver state and leftover bytes: the messages completed, the state and the bytes left over equal those of one call on the whole stream. |
| `ChunkParser.SplitAnywhere` | tmms/mmedia/rtmp/rtmp_context.cpp:126-293 | Parsing a stream cut at any byte: parse the first part, put its leftover before the second part, parse again; the result is that of the whole. |
| `ChunkParser.StalledIsIdempotent` | tmms/mmedia/rtmp/rtmp_context.cpp:169-268 | A chunk given up for lack of bytes changes history, open packet, delta and extended flag; parsing the same chunk again, with any bytes appended, behaves as if that had not happened. |
| `ChunkParser.TakenExtends` | tmms/mmedia/rtmp/rtmp_context.cpp:182-288 | A chunk that is complete is taken in the same way whatever bytes follow it. |
| `RtmpReceivers.RtmpReceiver.ParseMessage` | tmms/mmedia/rtmp/rtmp_context.cpp:115-294 | The loop over the real maps, packets and buffer ends with exactly the state, leftover bytes and messages of the specification `ParseAll`; bytes are counted once although leftovers are seen again; after it `in_bytes_` is below a positive window. |
| `RtmpReceivers.RtmpReceiver.ReadChunk` | tmms/mmedia/rtmp/rtmp_context.cpp:126-291 | One turn of the loop against `ParseChunk`: what is consumed, what is completed, and that an incomplete chunk leaves the buffer alone. |
| `RtmpReceivers.RtmpReceiver.TakeChunk` | tmms/mmedia/rtmp/rtmp_context.cpp:169-288 | One chunk moves only the entries of its own chunk stream in the four maps; packets of other streams keep their contents although all are updated in place. |
| `RtmpReceivers.RtmpReceiver.BodyBytes` | tmms/mmedia/rtmp/rtmp_context.cpp:270-288 | At most the free space of the packet and at most the chunk size are copied; the packet is handed over exactly when it is full. |
| `RtmpReceivers.Packet.Extend` | tmms/mmedia/base/packet.h:43-49 | Copying behind the bytes already there appends to the value of the packet, within its capacity. |
| `RtmpReceivers.RtmpReceiver.OnRead` | tmms/mmedia/rtmp/rtmp_context.cpp:75-82 | A read of the socket, through the buffer into the parser, advances the observable state as `Continue` does. With `x` the bytes counted before and those of this read: below the window in force at its start nothing is acknowledged and `x` stays counted; otherwise exactly `x` is acknowledged and nothing stays counted. |
| `RtmpReceivers.RtmpReceiver.CountArrival` | tmms/mmedia/rtmp/rtmp_context.cpp:820-847 | Arrivals are added to the counter once. If it is then below the window nothing is acknowledged; otherwise all of it is, as one value, and it starts again from zero. |
| `RtmpReceivers.AcksOfRun` | tmms/mmedia/rtmp/rtmp_context.cpp:820-847 | Over any series of reads under a fixed positive window: every value is at least the window, less than a window stays counted, and together they are all that was delivered. |
| `RtmpReceivers.AckIsAll` | tmms/mmedia/rtmp/rtmp_context.cpp:820-847 | Over any series of reads under a fixed window, the values up to each acknowledgement add up to all that was delivered up to some read. |
| `RtmpReceivers.RtmpReceiver.MessageComplete` | tmms/mmedia/rtmp/rtmp_context.cpp:298-351 | Set Chunk Size and Window Acknowledgement Size take effect exactly when they carry four bytes, before the next chunk is parsed. |
| `RoundTrip.BasicHeaderRoundTrip` | tmms/mmedia/rtmp/rtmp_context.cpp:583-600 | A basic header is read back as the format and chunk stream id that were written if and only if the id is in 2..65599. |
| `RoundTrip.MessageArrives` | tmms/mmedia/rtmp/rtmp_context.cpp:126-291 | One message, any timestamp, any chunk size at which both sides cut alike: exactly one message completes, with the body, type and stream id sent, and with the timestamp `ArrivalStamp` states, from which both histories are known. |
| `RoundTrip.MessageRoundTrip` | tmms/mmedia/rtmp/rtmp_context.cpp:550-716 | With a timestamp field below 0xFFFFFF the message completes unchanged, whatever bytes follow, and header and delta of the two sides agree again. |
| `RoundTrip.RoundTripAll` | tmms/mmedia/rtmp/rtmp_context.cpp:550-716 | The chunk round trip: for every finite run of messages in scope, over any mix of chunk streams, formats 0 to 3 and multi-chunk bodies, the bytes written are read as exactly these messages in order, and the two sides stay synchronised on every chunk stream. |
| `Shortest.NothingShorter` | tmms/mmedia/rtmp/rtmp_context.cpp:565-577 | The headers are as short as can be. A message of one chunk that follows a non-empty one on its chunk stream, not earlier and less than 0xFFFFFF ms later: no bytes at all make a receiver in step with the sender complete it first in fewer bytes than `BuildChunk` writes. |
| `Shortest.AnyReceiver` | tmms/mmedia/rtmp/rtmp_context.cpp:550-564 | A message with no usable predecessor (none on its chunk stream, a later one, one of another message stream, or a full header asked for) carries a full header: with a timestamp below 0xFFFFFF it completes unchanged, with nothing left over, at every receiver with no packet open there, whatever its history. |
| `ChunkTheorems.SurvivesIff` | tmms/mmedia/rtmp/rtmp_context.cpp:433-437 | From synchronised histories: a message is completed unchanged with nothing left over and the internal histories of the two sides mirror each other again, if and only if its timestamp field is below 0xFFFFFF and an empty body does not go under a header that leaves the length out. |
| `ChunkTheorems.ArrivesIff` | tmms/mmedia/rtmp/rtmp_context.cpp:126-291 | Whatever becomes of the histories: a message is completed unchanged with nothing left over if and only if the timestamp it arrives under is its own and an empty body does not go under a header that leaves the length out. |
| `ChunkTheorems.ArrivalStampIs` | tmms/mmedia/rtmp/rtmp_context.cpp:250-263 | That timestamp in closed form: its own for a field below 0xFFFFFF; otherwise the field is added once per chunk with its bytes reversed, to the previous timestamp or, after a full header, to 0xFFFFFF with the first chunk left out. |
| `ChunkTheorems.ExtendedRepeatIsLost` | tmms/mmedia/rtmp/rtmp_context.cpp:251-268 | For every message of one chunk with a timestamp of 0xFFFFFF or more, sent twice to a fresh receiver: it arrives once, under the time 0xFFFFFF, which is right for that very time and no other, and all bytes of the second copy stay in the buffer. |
| `ChunkTheorems.EmptyBodyIsLost` | tmms/mmedia/rtmp/rtmp_context.cpp:176-189 | An empty body under format 2 or 3 completes no message: its bytes stay in the buffer, and the receiver awaits a whole chunk. |
| `ChunkTheorems.EmptyBodySwallows` | tmms/mmedia/rtmp/rtmp_context.cpp:174-189 | What comes of it: the next bytes of the wire, as many as the chunk size, are delivered as the body of the message that had none, whatever they are. |
| `ChunkTheorems.PrefixDelivery` | tmms/mmedia/rtmp/rtmp_context.cpp:115-294 | A receiver that has parsed any prefix of the wire image of a run has completed a prefix of the run. |
| `ChunkTheorems.EndToEnd` | tmms/mmedia/rtmp/rtmp_context.cpp:115-294 | The same under any fragmentation: always a prefix of the messages, and all of them, with nothing left over, once all bytes are in. |
| `ChunkTheorems.ChunkSizeSwitch` | tmms/mmedia/rtmp/rtmp_context.cpp:890-903 | Receiver at `k` bytes, sender at `c`: the run is received correctly if it announces `c` and everything before the announcement fits in the smaller size. |
| `ChunkTheorems.HeaderInTheMiddle` | tmms/mmedia/rtmp/rtmp_context.cpp:184-288 | A chunk with a header while a packet is open: the header replaces what was known of the packet as far as it goes, the stream's history stands in for the rest, and bytes and room of the packet are kept. |
| `ChunkTheorems.LongFormTaken` | tmms/mmedia/rtmp/rtmp_context.cpp:145-156 | The basic header of three bytes is understood for every id from 64 on, also where two would do. |
| `ChunkTheorems.ChunkSizeAnnounced` | tmms/mmedia/rtmp/rtmp_context.cpp:890-903 | The chunk size is the first four bytes of a Set Chunk Size message as a signed number; a shorter body, or another message, leaves it as it was. |
| `Demultiplex.ParsingKeepsOk` | tmms/mmedia/rtmp/rtmp_context.cpp:169-291 | Starting from a positive chunk size, and as long as no completed message announces a size outside 1..2^31-1: every open packet belongs to its stream and never exceeds its capacity, for any bytes; and the chunk size stays positive. |
| `Demultiplex.PacketsContained` | tmms/mmedia/rtmp/rtmp_context.cpp:266-276 | For any bytes and any chunk size, negative ones included: no packet ever holds a byte beyond its allocation. |
| `Demultiplex.InterleavingIsInvisible` | tmms/mmedia/rtmp/rtmp_context.cpp:169-291 | For any interleaving of well-formed chunks on any chunk streams, every stream ends in the state, and completes the messages, it would have with its own chunks alone. |
| `Demultiplex.Demultiplexed` | tmms/mmedia/rtmp/rtmp_context.cpp:115-294 | If the chunks of one stream, taken out of the wire, are the image of a run of messages, those messages complete in order, whatever the other streams carry. |
| `Interleaving.AllRawsWire` | tmms/mmedia/rtmp/rtmp_context.cpp:583-711 | The chunks into which a run on one chunk stream is cut are the bytes the encoder writes for it. |
| `Interleaving.EncodersInterleaved` | tmms/mmedia/rtmp/rtmp_context.cpp:115-294 | Whatever encoders write on any number of chunk streams, interleaved in any way at chunk boundaries: on every stream exactly its messages complete, in order, and no byte is left over. |
| `SendPipelines.RtmpSender.BuildChunk` | tmms/mmedia/rtmp/rtmp_context.cpp:550-716 | The ranges staged for a message, partly in the header arena and partly in the packet, hold its encoding as far as the loop gets before the arena is used up; histories advance as specified; nothing staged before is overwritten. The arena must have room for each header that is written, which the source does not check. |
| `SendPipelines.RtmpSender.StageChunks` | tmms/mmedia/rtmp/rtmp_context.cpp:637-711 | The body loop ends, with one further header per further chunk, and stages the remaining chunks, or gives up behind the first chunk that ends with the arena used up. |
| `SendPipelines.RtmpSender.ChooseFormat` | tmms/mmedia/rtmp/rtmp_context.cpp:550-582 | Format and timestamp field are those of the encoder, whose headers are the shortest there can be (`NothingShorter`). |
| `SendPipelines.RtmpSender.PushOutQueue` | tmms/mmedia/rtmp/rtmp_context.cpp:738-742 | The packet joins the order of everything built and queued; a batch starts exactly if none is in flight; the invariant keeps wire plus pending bytes equal to the encodings of the packets dequeued, and every range in flight backed by bytes nobody overwrites. |
| `SendPipelines.RtmpSender.Send` | tmms/mmedia/rtmp/rtmp_context.cpp:521-543 | If no batch is in flight, ten packets are taken, or all there are if fewer, in order; otherwise nothing happens. |
| `SendPipelines.RtmpSender.CheckAndSend` | tmms/mmedia/rtmp/rtmp_context.cpp:718-736 | Arena, ranges and packets are given up only when the connection refers to none of them; then the next ten packets are built, or all there are, and the sender rests if there are none. |
| `SendPipelines.RtmpSender.OnWritable` | tmms/network/net/tcpconnection.cpp:81-135 | Exactly the bytes accepted leave for the wire. Short of the whole batch nothing new is built; when its last byte is gone the next ten packets are built, or as many as wait, or the sender rests if none do. The connection closes if and only if a write fails before that. |
| `TcpConnections.TcpConnection.OnWrite` | tmms/network/net/tcpconnection.cpp:81-135 | For every series of `writev` results on an open connection with something pending: exactly the bytes accepted before the first result that blocks or fails leave the front of the list for the wire; the callback runs if and only if that is all of them, and the connection closes if and only if it is not and that result is a failure. Ranges only shrink. |
| `TcpConnections.TcpConnection.Consume` | tmms/network/net/tcpconnection.cpp:96-111 | Dropping a number of bytes from the list of ranges drops exactly that many bytes from the front of the data. |
| `TcpConnections.TcpConnection.SendInLoop` | tmms/network/net/tcpconnection.cpp:235-257 | A list of ranges is appended as it is; a closed connection takes nothing. |
| `TcpConnections.TcpConnection.SendBlock` | tmms/network/net/tcpconnection.cpp:189-234 | One block goes out as far as the socket takes it, and the rest is queued; the completion callback runs at once exactly if nothing was queued and all of it went out. |
| `HeaderArena.ArenaIff` | tmms/mmedia/rtmp/rtmp_context.cpp:582-711 | A message is built whole, with no write past the arena and no truncation, if and only if its header bytes fit behind those already there. |
| `HeaderArena.EncodeWithinIs` | tmms/mmedia/rtmp/rtmp_context.cpp:637-711 | What is staged is the whole encoding if the headers have room in the arena, and a proper prefix of it if the loop gives up. |
| `HeaderArena.NextBytesClosed` | tmms/mmedia/rtmp/rtmp_context.cpp:661-700 | The header bytes after the first header, in closed form. |
| `PipelineTheorems.SmallMessagesFit` | tmms/mmedia/rtmp/rtmp_context.cpp:718-723 | Messages of at most 56 chunks never exhaust the arena, in batches of any ten. |
| `PipelineTheorems.LongestMessage` | tmms/mmedia/rtmp/rtmp_context.cpp:637-711 | The longest body the 24-bit length admits is cut short, unless its first header is a single byte. |
| `PipelineTheorems.PipelineDelivers` | tmms/mmedia/rtmp/rtmp_context.cpp:521-543 | On any connection the sender took over: a receiver fed any prefix of what was written since, in any pieces, has completed a prefix of the messages built; when the sender rests with the connection open and nothing pending, everything ever queued is on the wire and arrives. |
| `Session.ClientInScope` | tmms/mmedia/rtmp/rtmp_context.cpp:1031-1070 | A client run (chunk size, connect command, then anything that announces no other size) is received correctly from the initial 128 against 4096 bytes. |
| `Session.ServerInScope` | tmms/mmedia/rtmp/rtmp_context.cpp:1072-1133 | Likewise for a server: early short messages, window, bandwidth, chunk size, result, then the rest. |
| `Session.ClientSessionDelivers` | tmms/mmedia/rtmp/rtmp_context.cpp:1031-1070 | The pipeline theorem for a client session, at any moment of it, from a fresh receiver. |
| `Session.ServerLearnsNames` | tmms/mmedia/rtmp/rtmp_context.cpp:1045-1080 | As soon as a fresh receiver of a client session has completed two messages, however the wire was cut, the second decodes as the connect command with the `app` and `tcUrl` the client was given. |
| `Session.ServerSessionDelivers` | tmms/mmedia/rtmp/rtmp_context.cpp:1072-1133 | The pipeline theorem for a server session. |
| `Connection.ServerHears` | tmms/mmedia/rtmp/rtmp_context.cpp:47-82 | Handshake and messages on one connection: in every run of the two endpoints past the handshake, the server's parser, fed in any pieces with what the handshake left it, has completed a prefix of the client's messages, understands the second as the connect command, and has completed them all where the network has nothing left to do. |
| `Connection.ClientHears` | tmms/mmedia/rtmp/rtmp_context.cpp:47-82 | The same for a server's messages and the client's parser. |
| `Connection.Speaker.PushOutQueue` | tmms/mmedia/rtmp/rtmp_context.cpp:738-742 | Queueing a packet is, for the endpoint of the protocol that the sender plays, handing over message bytes, or nothing while a batch is in flight. |
| `Connection.Speaker.OnWritable` | tmms/network/net/tcpconnection.cpp:81-135 | A writable socket is, for that endpoint, a series of writing moves of exactly the bytes accepted, at most those pending, and then handing over the next batch; it closes if and only if a write fails first. |
| `Connection.WriteTwice` | tmms/network/net/tcpconnection.cpp:81-135 | Once messages are spoken, a series of writing moves comes to one move of all its bytes. |
| `Connection.HearingKeeps` | tmms/mmedia/rtmp/rtmp_context.cpp:47-74 | What arrives at an endpoint leaves the match between its sender and the protocol as it is. |
| `RtmpContexts.RtmpContext.OnRead` | tmms/mmedia/rtmp/rtmp_context.cpp:820-847 | A delivery is parsed; the send queue grows by one BytesRead message with exactly the bytes counted if these reach the window in force, and by nothing otherwise; everything queued before stays in front, in order. |
| `RtmpContexts.AcksArrive` | tmms/mmedia/rtmp/rtmp_context.cpp:820-847 | A peer that parses any part of what this side wrote, however cut, has seen a prefix of the values acknowledged, cut to 32 bits, and all of them once all is written and read; if they fit in 32 bits, these values plus what is counted and not yet acknowledged are then exactly the bytes delivered to this side. |
| `PipelineTheorems.RoomForOne` | tmms/mmedia/rtmp/rtmp_context.cpp:820-847 | Where ten queued messages in a row fit in the arena and shorter series leave 18 bytes for each place left, an acknowledgement can always be queued and that stays so. |
| `PipelineTheorems.SmallMessagesRoomy` | tmms/mmedia/rtmp/rtmp_context.cpp:718-723 | Messages of at most 56 chunks leave that room, whatever is batched. |
| `PipelineTheorems.LargeMessageRoomy` | tmms/mmedia/rtmp/rtmp_context.cpp:637-711 | One message of up to 560 chunks leaves that room. |
| `HandShakes.DigestRange` | tmms/mmedia/rtmp/rtmp_hand_shake.cpp:94-107 | Digests lie in bytes 12..771 of the block in the first layout and 776..1535 in the second, for any bytes. |
| `HandShakes.SelfVerifies` | tmms/mmedia/rtmp/rtmp_hand_shake.cpp:283-328 | For every random fill and any HMAC, a block built by either side passes the peer's check on the first layout at the offset where the digest was put. |
| `HandShakes.FirstBlockAccepted` | tmms/mmedia/rtmp/rtmp_hand_shake.cpp:333-387 | Blocks of both forms are accepted, and the peer learns which form it is. |
| `HandShakes.ComplexCheckIff` | tmms/mmedia/rtmp/rtmp_hand_shake.cpp:333-387 | In complex mode a block with a non-zero version is accepted if and only if the 32 bytes at one of the two places are the HMAC of the bytes around them under the peer's key; the place reported is the first that fits. Said of the bytes alone. |
| `HandShakes.SimpleCheckIff` | tmms/mmedia/rtmp/rtmp_hand_shake.cpp:333-352 | In simple mode, or with a version of zero, the version byte alone decides, and the simple form is taken. |
| `HandShakes.SecondLayoutAccepted` | tmms/mmedia/rtmp/rtmp_hand_shake.cpp:359-386 | Any block with a non-zero version and its digest in the second layout is accepted by the peer, at the place where the digest was put, unless it happens to fit the first layout as well. |
| `HandShakes.SignedOpens` | tmms/mmedia/rtmp/rtmp_hand_shake.cpp:283-328 | The block that is sent: version byte, zero time, the version of its side, and in the first layout, where four of its own bytes say, the HMAC of all bytes in front of the digest and behind it. |
| `HandShakes.SecondBlockIs` | tmms/mmedia/rtmp/rtmp_hand_shake.cpp:400-433 | C2 and S2: own time, the peer's version, random bytes, and in the complex form the HMAC of all that under a key made from the digest the peer sent and one's own full key. |
| `HandShakeProtocol.PostIsQuiet` | tmms/mmedia/rtmp/rtmp_hand_shake.cpp:133-230 | While a side is still sending a block, nothing is on its way to it and its buffer is empty. |
| `HandShakeProtocol.NextKeeps` | tmms/mmedia/rtmp/rtmp_hand_shake.cpp:133-268 | Every move of the two parties or the network, and every message handed over after the handshake, keeps the joint invariant; no check fails and the middle result 2 is never returned. |
| `HandShakeProtocol.FinishedExactly` | tmms/mmedia/rtmp/rtmp_hand_shake.cpp:133-230 | A side that has finished has consumed exactly 1537 + 1536 bytes and holds, for the parser, the peer's message bytes from the first one on; where both have finished and nothing is under way, it holds all of them. |
| `HandShakeProtocol.Progress` | tmms/mmedia/rtmp/rtmp_hand_shake.cpp:133-268 | Until both sides have finished and everything handed over has arrived, some move of the handshake or the network is possible. |
| `HandShakeProtocol.MeasureDecreases` | tmms/mmedia/rtmp/rtmp_hand_shake.cpp:133-268 | Every move but handing over a message strictly decreases one measure of bytes to make up, to write and to receive. |
| `HandShakeProtocol.EveryRun` | tmms/mmedia/rtmp/rtmp_context.cpp:47-104 | For every run from the start, messages after the handshake included: no failed check, the waiting-done state never entered, quiet Post states throughout; a side past the handshake has consumed exactly 1537 + 1536 bytes and holds a prefix of the peer's message bytes; at most 18438 moves besides handing over messages, plus three per message byte; and a run that can go no further has finished on both sides with every message byte received. |
| `HandShakeProtocol.RefusesIff` | tmms/mmedia/rtmp/rtmp_hand_shake.cpp:133-206 | In complex mode a first block ends the handshake if and only if its version byte is not 3, or its version is not zero and the digest fits neither place; nothing is consumed then. Any other first block is taken off the buffer whole. |
| `HandShakeProtocol.ShortTest` | tmms/mmedia/rtmp/rtmp_hand_shake.cpp:182-206 | A client holding part of a genuine S0S1 waits or takes all 1537 bytes exactly when it does not hold 1536: with 1536 it rejects, or leaves the last byte behind as the first of S2, whatever byte lies beyond. |
| `RtmpHandShakes.RtmpHandShake.CreateC1S1` | tmms/mmedia/rtmp/rtmp_hand_shake.cpp:283-328 | The in-place construction yields the specified block, although the digest's place is computed before the version is written. |
| `RtmpHandShakes.RtmpHandShake.CheckC1S1` | tmms/mmedia/rtmp/rtmp_hand_shake.cpp:333-387 | The returned offset and the switch to the simple form are those of the specification, of which `ComplexCheckIff` and `SimpleCheckIff` say what it is. |
| `RtmpHandShakes.RtmpHandShake.HandShake` | tmms/mmedia/rtmp/rtmp_hand_shake.cpp:133-230 | The switch over the state, with the real buffer, blocks and connection, makes exactly the protocol's transition, also when the connection is closed and the answer is dropped. |
| `RtmpHandShakes.RtmpHandShake.SendBlock` | tmms/mmedia/rtmp/rtmp_hand_shake.cpp:389-392 | The state is moved on before a block is sent, and a write that completes at once moves it again. |
| `RtmpHandShakes.RtmpHandShake.OnMessage` | tmms/mmedia/rtmp/rtmp_context.cpp:47-74 | An arrival makes exactly the protocol's receiving move. |
| `RtmpHandShakes.RtmpHandShake.OnWritable` | tmms/mmedia/rtmp/rtmp_hand_shake.cpp:233-268 | A writable socket makes exactly the protocol's writing move, of the bytes accepted and no others, for any series of `writev` results. |
| `Agenda.FiringLaw` | tmms/network/net/timingwheel.cpp:27-94 | A timer set at tick `t` with delay `d` below an hour fires exactly once, at `t + d` below a minute and at `t + d - t % 60` otherwise: never late, less than 60 ticks early, whatever other timers do. |
| `Agenda.IdleTimeout` | tmms/network/net/tcpconnection.cpp:169-178 | An idle timeout that reads keep re-inserting strikes exactly once, at the maximum of its due ticks, and never if reads keep coming; for limits of 1 to 59 seconds that is the limit after the last read. |
| `Agenda.WatchedStep` | tmms/network/net/tcpconnection.cpp:260-269 | One operation, seen by the entry and by the watch that states the timeout. |
| `Agenda.LastReadCounts` | tmms/network/net/tcpconnection.cpp:169-178 | While an idle timeout has not struck, a read at tick `r` postpones it to `r + limit` (less `r % 60` from a minute on), whatever was read before; without further reads it strikes exactly then, once. |
| `Agenda.RecurringLaw` | tmms/network/net/timingwheel.cpp:96-122 | A recurring timer has fired, at every tick, once at each of its dates that has passed and at no other. |
| `Agenda.FiredCount` | tmms/network/net/timingwheel.cpp:96-122 | In every run, whatever happens to other timers, a recurring timer with a period below a minute has been called back at exactly floor(n / period) ticks after n seconds, once at each. |
| `Agenda.FiresAtMultiples` | tmms/network/net/timingwheel.cpp:96-122 | A recurring timer with a period below a minute has fired at a tick if and only if that has passed and is a whole number of periods after the timer was set, and once. |
| `Agenda.CallbacksApart` | tmms/network/net/timingwheel.cpp:96-122 | In every run, callbacks in a row of a recurring timer with period `p` are `p` ticks apart below a minute, and `p - p % 60` from there on. |
| `Agenda.PeriodKept` | tmms/network/net/timingwheel.cpp:165-174 | In every run, callbacks in a row of a recurring timer are one period apart if and only if that is below a minute or a whole number of minutes. |
| `Agenda.RegistersAnewIff` | tmms/network/net/timingwheel.cpp:96-108 | Registering anew from the callback leaves a reference behind if and only if the delay is neither zero nor 31 days and more; without one the callback runs again at once, without end. |
| `Agenda.NeverServed` | tmms/network/net/timingwheel.cpp:73-84 | A delay from one hour to less than 31 days, recurring or not, is kept for ever and never fires, because the hour and day wheels do not turn. |
| `Agenda.FiresAtOnce` | tmms/network/net/timingwheel.cpp:27-55 | A timer fires on insertion if and only if its delay is zero, or 31 days and more. |
| `Agenda.NeverAhead` | tmms/network/net/timingwheel.cpp:59-71 | For any clock readings, forwards or backwards: 1000 times the ticks is at most the last reading that counted less the first one other than zero, unless that first one is -1000 or below and a reading of zero is later directly followed by a negative one. |
| `Agenda.AheadAcrossZero` | tmms/network/net/timingwheel.cpp:59-71 | The readings -1000, 0, b, b + 1000 put the ticks ahead of every reading, for every negative b. |
| `Agenda.AheadFromAnywhere` | tmms/network/net/timingwheel.cpp:59-71 | For every first reading of -1000 or below, readings that keep crossing zero put the ticks ahead of every reading. |
| `WallClock.KeepsUp` | tmms/network/net/timingwheel.cpp:59-71 | The same from any moment at which the last reading counted is less than a second old. |
| `WallClock.TicksKeepUp` | tmms/network/net/timingwheel.cpp:59-71 | Readings that are positive, never go back and are at most `g` ms apart: the time gone by is at least 1000 ms per tick, and less than 1000 ms more than `1000 + g` per tick. |
| `WallClock.TicksEverySecond` | tmms/network/net/timingwheel.cpp:59-71 | Readings exactly 1000 ms apart make one tick each, the first one excepted. |
| `WallClock.FiresInTime` | tmms/network/net/timingwheel.cpp:27-94 | A timer of `d` seconds by the clock, whatever other timers do, with readings that never go back and are at most `g` ms apart: not before `1000 * (d - 1)` ms have gone by (`1000 * (d - 60)` from a minute on), and exactly once, at the tick due, by the time `(1000 + g) * d` ms have. |
| `Agenda.MidtickStep` | tmms/network/net/timingwheel.cpp:87-94 | The references of a slot may be dropped in any order: each leaves the same tick half done. |
| `TimingWheels.TimingWheel.Turn` | tmms/network/net/timingwheel.cpp:70-94 | Turning the second wheel and, every 60th tick, the minute wheel, with destructors that insert again, is one tick of the reference timers; the hour and day branches are dead; the wheels keep 60, 60, 24 and 30 slots. |
| `TimingWheels.TimingWheel.InsertEntry` | tmms/network/net/timingwheel.cpp:27-55 | Insertion of any delay gives the entry the date the reference gives it. |
| `TimingWheels.TimingWheel.AddTimer` | tmms/network/net/timingwheel.cpp:96-108 | Insertion followed by dropping the local reference, which may run the callback at once. |
| `TimingWheels.TimingWheel.ExtendLife` | tmms/network/net/tcpconnection.cpp:260-269 | Re-insertion happens exactly if some reference is left. |
| `TimingWheels.TimingWheel.OnTimer` | tmms/network/net/timingwheel.cpp:59-85 | A clock reading moves the clock as `ReadClock` does, by no tick or one; the wheels turn exactly on a tick. `TicksKeepUp` and `NeverAhead` say what these ticks are worth. |
| `MsgBuffers.MsgBuffer.EnsureWritableBytes` | tmms/network/base/msgbuffer.cpp:16-36 | Room is made by moving or growing without changing the contents; the move happens only if the head is beyond its reserve. |
| `MsgBuffers.MsgBuffer.Append` | tmms/network/base/msgbuffer.cpp:53-58 | Contents grow by the data at the end; enough room means the same memory. |
| `MsgBuffers.MsgBuffer.AddInFront` | tmms/network/base/msgbuffer.cpp:190-214 | Contents grow by the data in front, in all three of: reserve, shift, new buffer. |
| `MsgBuffers.MsgBuffer.Retrieve` | tmms/network/base/msgbuffer.cpp:113-121 | Contents lose their first bytes; asking for more than there is empties them. |
| `MsgBuffers.MsgBuffer.RetrieveAll` | tmms/network/base/msgbuffer.cpp:122-129 | The shrink happens, and breaks the buffer, if and only if the initial length was below eight. |
| `MsgBuffers.MsgBuffer.ReadFd` | tmms/network/base/msgbuffer.cpp:130-155 | What the kernel delivers is appended, also when it spills into the second block. |
| `MsgBuffers.MsgBuffer.Read` | tmms/network/base/msgbuffer.cpp:157-164 | What is returned and what remains make up the old contents. |
| `MsgBuffers.MsgBuffer.Unwrite` | tmms/network/base/msgbuffer.h:291-295 | The last bytes are taken back. |
| `MsgBuffers.MsgBuffer.HasWritten` | tmms/network/base/msgbuffer.h:279-283 | Bytes written behind the contents become part of them. |
| `MsgBuffers.MsgBuffer.ReadInt64` | tmms/network/base/msgbuffer.cpp:183-188 | Reading an integer is the inverse of appending it: the old contents are its encoding followed by the new ones. |
| `Bytes.Read24Write24` | tmms/mmedia/base/bytes_writer.cpp:22-29 | Reading back a 24-bit integer gives its low 24 bits. |
| `Bytes.Read32Write32` | tmms/mmedia/base/bytes_writer.cpp:15-20 | Reading back a 32-bit integer gives it. |
| `Bytes.Write32Read32` | tmms/mmedia/base/bytes_reader.cpp:25-29 | Writing what was read gives the same bytes. |
| `Bytes.NetworkOrder` | tmms/mmedia/base/bytes_writer.cpp:15-36 | The writers put the most significant byte first; that of 24 bits takes the low ones. |
| `Bytes.HostOrder` | tmms/mmedia/rtmp/rtmp_context.cpp:598-599 | `memcpy` of an integer puts its least significant byte first. |
| `Doubles.RecodeTruncates` | tmms/mmedia/base/bytes_reader.cpp:15-23 | The detour through `uint64_t` cuts a double off towards zero, in terms of what its bits denote. |
| `Doubles.NumberSurvivesIff` | tmms/mmedia/base/bytes_reader.cpp:15-23 | A double is read as it was sent if and only if it is whole, not negative and below 2^64. |
| `Doubles.IntegersSurvive` | tmms/mmedia/rtmp/amf/amf_any.cpp:163-173 | Every integer below 2^53 has a double that denotes exactly it and survives. |
| `AmfRoundTrip.PropsRead` | tmms/mmedia/rtmp/amf/amf_object.cpp:21-205 | For any nested object with non-empty names under 64 KiB, strings, booleans, nulls, numbers, dates, long strings and ECMA arrays: decoding its encoding followed by 00 00 09 and any bytes yields its non-null properties in order and uses exactly its length. |
| `AmfRoundTrip.ValueReads` | tmms/mmedia/rtmp/amf/amf_object.cpp:44-187 | The same for one value after its type marker. |
| `AmfRoundTrip.ReadsBackIff` | tmms/mmedia/rtmp/amf/amf_object.cpp:21-205 | What is read of an object whose names all have at least one byte is the object written if and only if, at every depth, it has no nulls and no ECMA arrays and every number is whole. |
| `AmfRoundTrip.RoundTripIff` | tmms/mmedia/rtmp/amf/amf_object.cpp:21-205 | For any nested object, empty names included, and whatever bytes follow: it is read as it was written if and only if, at every depth, every name has at least one byte, nothing is null or an ECMA array, and every number is whole. |
| `AmfRoundTrip.LagsBehind` | tmms/mmedia/rtmp/amf/amf_object.cpp:36-46 | Why an empty name is fatal: its two length bytes are not skipped, so the reader lags behind and never reads the rest as it was written. |
| `AmfRoundTrip.StrictArrayReads` | tmms/mmedia/rtmp/amf/amf_object.cpp:137-157 | A strict array of any named values: one object per element, each under the name of the array, with the element inside; exactly its bytes are used. |
| `AmfRoundTrip.OtherMarkers` | tmms/mmedia/rtmp/amf/amf_object.cpp:108-136 | A null or a marker the reader has no use for is skipped with its name and nothing more; marker 9 behind a name ends the object. |
| `AmfRoundTrip.TruncatedFails` | tmms/mmedia/rtmp/amf/amf_object.cpp:51-187 | A boolean, number, date or string cut off at any byte makes decoding fail. |
| `AmfCommands.CommandReads` | tmms/mmedia/rtmp/amf/amf_object.cpp:27-205 | Values without names (and no empty names inside them), no end marker: what is read, and how many bytes are used, is exactly the longest part the loop still looks at, which ends in front of a number that begins with 00 09 or where fewer than three bytes are left. |
| `AmfCommands.TerminatedCommandReads` | tmms/mmedia/rtmp/amf/amf_object.cpp:27-33 | With an end marker, whatever follows: the values are read up to the first number that begins with 00 09, or all of them. |
| `AmfCommands.TerminatedLosesIff` | tmms/mmedia/rtmp/amf/amf_object.cpp:27-33 | With an end marker a property is lost if and only if one of the values is a number that begins with 00 09. |
| `AmfCommands.NothingLostIff` | tmms/mmedia/rtmp/amf/amf_object.cpp:27-33 | Without an end marker a command loses a property if and only if one of its values is a number that begins with 00 09, which is taken for the end marker, or ends in a boolean, whose two bytes are too few for the loop. |
| `AmfCommands.CommandRoundTripIff` | tmms/mmedia/rtmp/amf/amf_object.cpp:21-205 | A command without an end marker is read as it was written if and only if neither is the case and every value comes back: no null, no ECMA array, no fraction and no empty name, at any depth. |
| `AmfCommands.ConnectArrives` | tmms/mmedia/rtmp/rtmp_context.cpp:1045-1061 | The connect command decodes to its end; `HandleConnect` finds the `app` and `tcUrl` that were sent, and no `objectEncoding`. |
| `AmfCommands.ConnectFitsIff` | tmms/mmedia/rtmp/rtmp_context.cpp:1034-1064 | The 1024-byte packet has room for the connect command if and only if `app` and `tcUrl` have at most 884 bytes together. |
| `AmfObjects.AMFObject.Decode` | tmms/mmedia/rtmp/amf/amf_object.cpp:21-205 | The loop with its moving position and nested objects collects exactly the properties, length or error of the specification. |
| `AmfObjects.AMFObject.DecodeElements` | tmms/mmedia/rtmp/amf/amf_object.cpp:137-157 | Strict arrays: one object per element, each under the name of the array. |
| `AmfObjects.AMFObject.DecodeOnce` | tmms/mmedia/rtmp/amf/amf_object.cpp:217-391 | One named property, without the checks of the loop. |
| `AmfObjects.AMFObject.PropertyNamed` | tmms/mmedia/rtmp/amf/amf_object.cpp:395-414 | The lookup loop, recursing into objects, finds what `Lookup` finds (see `LookupIsFirst`). |
| `AmfCommands.LookupIsFirst` | tmms/mmedia/rtmp/amf/amf_object.cpp:395-414 | With all properties laid out in a row, those inside an object right behind it: what is found is the first one of the name, and nothing only if there is none. |
| `AmfWriters.WriteConnect` | tmms/mmedia/rtmp/rtmp_context.cpp:1040-1065 | Written call by call into the packet, the connect command is the encoding of its values. |
| `AmfWriters.EncodeNamed` | tmms/mmedia/rtmp/amf/amf_any.cpp:133-157 | Name and value are written at the position given, and nothing else changes. |
| `AmfWriters.EncodeName` | tmms/mmedia/rtmp/amf/amf_any.cpp:92-104 | The length, cut to 16 bits, then the name. |
| `TimeCorrection.Separately` | tmms/live/base/time_corrector.cpp:63-129 | However audio and video are mixed, from any state and over any run in which no time reaches 2^32: each output of a kind follows from the previous one of that kind and the gap in the input. |
| `TimeCorrection.TimesFollow` | tmms/live/base/time_corrector.cpp:63-129 | The same of the 64-bit times behind the outputs, over every run whatsoever from every state. |
| `TimeCorrection.NoWrapIff` | tmms/live/base/time_corrector.cpp:7-24 | The outputs are these times if and only if none of them reaches 2^32. |
| `TimeCorrection.CorrectedRun` | tmms/live/base/time_corrector.cpp:7-24 | Over any such run, however long: outputs are non-negative, consecutive outputs of a kind differ by at most 99, non-decreasing inputs give non-decreasing outputs, and a gap under 100 is kept exactly or ends at zero. |
| `TimeCorrection.WrapShows` | tmms/live/base/time_corrector.cpp:7-24 | In every run: two outputs in a row are 100 or more apart if and only if the time passes a multiple of 2^32 between them. |
| `TimeCorrection.ShortRunFits` | tmms/live/base/time_corrector.cpp:7-24 | From a fresh start, stamps below 2^31 cannot wrap within 21691754 packets, whatever they are. |
| `TimeCorrection.OffsetKept` | tmms/live/base/time_corrector.cpp:63-129 | Over any such run, output minus input stays constant over any stretch of gaps under 100 without a clamp at zero. |
| `TimeCorrection.LargeGap` | tmms/live/base/time_corrector.cpp:85-99 | In every run a gap of 100 or more, either way, adds 40 to the time of video and 20 to that of audio. |
| `TimeCorrection.HeadersInvisible` | tmms/live/base/time_corrector.cpp:7-24 | Codec headers are given out under time zero, and all other packets as if the headers had never been there. |
| `TimeCorrection.FirstAudioKept` | tmms/live/base/time_corrector.cpp:102-109 | In every stream the first audio packet is given out as it came, whatever video preceded it. |
| `TimeCorrection.FirstVideoIs` | tmms/live/base/time_corrector.cpp:63-84 | The first video packet is given out as it came, unless audio runs already and is 100 or more away: then it follows the audio by 40. |
| `TimeCorrectors.TimeCorrector.CorrectTimestamp` | tmms/live/base/time_corrector.cpp:7-24 | The fields move as the specification says, and the 32-bit result is the specified one. |
| `TimeCorrectors.TimeCorrector.CorrectVideoTimeStampByVideo` | tmms/live/base/time_corrector.cpp:63-99 | The first video packet may start from the audio; after that each adds its gap, or 40. |
| `TimeCorrectors.TimeCorrector.CorrectAudioTimeStampByAudio` | tmms/live/base/time_corrector.cpp:102-129 | The first audio packet is kept; after that each adds its gap, or 20. |
| `StringUtils.SplitString` | tmms/base/utils/stringutils.cpp:128-159 | The searching loop yields the specified pieces, for any delimiter string; none for an empty delimiter. |
| `StringUtils.SplitStringWithFSM` | tmms/base/utils/stringutils.cpp:161-202 | The state machine yields the same pieces as the search for the one-character string; it ends although one transition does not advance. |
| `StringUtils.JoinRestores` | tmms/base/utils/stringutils.cpp:128-159 | Joining the pieces restores the string, up to one delimiter that the scan found at its very end. |
| `StringUtils.JoinRestoresIff` | tmms/base/utils/stringutils.cpp:161-202 | For one character: restored exactly if and only if the string does not end in it. |
| `StringUtils.PiecesAreFree` | tmms/base/utils/stringutils.cpp:161-202 | No piece contains the delimiter. |
| `StringUtils.PiecesHoldNone` | tmms/base/utils/stringutils.cpp:128-159 | For a delimiter of any length: no piece holds it. |
| `StringUtils.SplitJoinIff` | tmms/base/utils/stringutils.cpp:161-202 | Pieces free of the delimiter come back from their join if and only if there are none or the last is not empty. |
| `Samples.ChunkSizeImage` | tmms/mmedia/rtmp/rtmp_context.cpp:744-767 | The first message on the wire, a chunk size of 4096, byte by byte. |
| `Samples.FourFormats` | tmms/mmedia/rtmp/rtmp_context.cpp:550-635 | Four messages that take the header formats 0, 2, 3 and 1, byte by byte. |
| `Samples.ChunksImage` | tmms/mmedia/rtmp/rtmp_context.cpp:637-711 | A body in three chunks, byte by byte. |
| `Samples.ExtendedImage` | tmms/mmedia/rtmp/rtmp_context.cpp:631-635 | A timestamp of 0x1020304 in two chunks: 0xFFFFFF, and four bytes with the lowest first in both. |
| `Samples.BasicImages` | tmms/mmedia/rtmp/rtmp_context.cpp:583-600 | The basic headers at the bounds of their three forms. |
| `Samples.ServerGreetingImage` | tmms/mmedia/rtmp/rtmp_context.cpp:1089-1103 | All a server sends in answer to a connect command, byte by byte, whatever the result is. |
| `Samples.ScalarImages` | tmms/mmedia/rtmp/amf/amf_any.h:7-28 | The markers and forms of null, boolean, number, strings and date in AMF0, byte by byte. |
| `Samples.ContainerImages` | tmms/mmedia/rtmp/amf/amf_object.cpp:93-131 | An object and an ECMA array with the same properties, byte by byte. |
| `Samples.DoubleImages` | tmms/mmedia/rtmp/amf/amf_any.cpp:163-173 | The bits of the numbers in a connect command. |

## Left out

- HandShakeProtocol.Enabled: excludes a delivery that leaves a client waiting for S0S1 with exactly 1536 bytes; `ShortTest` shows for all such clients that the code fails there.
- SendPipelines.RtmpSender.PushOutQueue: requires a header, a body that is not empty, and that any ten queued packets in a row fit in the arena in the worst case. A packet without a header is skipped by the code, and a batch of such packets alone leaves `sending_` set with nothing in flight to clear it; an empty body is staged as an empty range, and where that is the last one the loop around `writev` does not end (`tmms/network/net/tcpconnection.cpp:92-122`); a batch that does not fit is truncated or written past the arena (`ArenaIff`, `EncodeWithinIs`). Packets are not changed by their owner once queued.
- SendPipelines.RtmpSender.BuildChunk: requires that no header is written past the arena (the outcome `Overrun`), a body that is not empty and as long as the header says; truncation is modelled.
- SendPipelines.RtmpSender.StageChunks: requires that no header is written past the arena and a body that is not empty.
- RoundTrip.RoundTripAll: chunk stream ids outside 2..65599 and bodies of 2^24 bytes or more cannot be expressed on the wire and are out of scope (`BasicHeaderRoundTrip` is exact for the ids).
- TimeCorrection.CorrectedRun: runs in which some time reaches 2^32, where the outputs wrap; `TimesFollow` and `WrapShows` cover these.
- AmfWriters.WriteConnect: requires the names to fit in the packet, which the source does not check.
- AmfWriters.WriteNamedValues: a loop over the named values where the source has seven calls in a row.
- Amf.Decode: reads outside the message and conversions outside the range of `uint64_t` are the outcome `Undefined`; what the C++ does there is not modelled. The scalar decoders are modelled on values, not as objects with a field each.
- RtmpReceivers.RtmpReceiver.MessageComplete: handles Set Chunk Size and Window Acknowledgement Size; user control events, AMF dispatch, media handlers and the replies they send are not part of the receiver. Of the replies, acknowledgements are sent, in `RtmpContext`.
- RtmpReceivers.RtmpReceiver.BodyBytes: a negative chunk size, as a peer can announce, is modelled as a stall, which is what the code does: it compares an unsigned length with the negative one, which then counts as 2^31 or more (`tmms/mmedia/rtmp/rtmp_context.cpp:266`), and returns as if bytes were missing. `int32_t` overflow of `in_bytes_` is not modelled.
- RtmpContexts.AcksArrive: messages must leave room in the arena for acknowledgements (`Roomy`; `SmallMessagesRoomy` and `LargeMessageRoomy` say when they do). Apart from acknowledgements, which messages are sent in reply to which is not modelled: any may be queued at any time.
- Connection.ServerHears: that the sender's connection holds what the protocol's endpoint has sent is a condition on the last state; `Speaker` shows that every call of the sender keeps it. The sender takes over the connection when the handshake is done; that no message is queued earlier is the code's `SendConnect` on the client, and an assumption on the server.
- RtmpHandShakes.RtmpHandShake.HandShake: the byte beyond the receive buffer that the client's test may look at is a parameter. C2 and S2 are built (`SecondBlock`) but, as in the code, accepted unchecked.
- MsgBuffers.MsgBuffer.AddInFront: `std::copy` over overlapping ranges (`tmms/network/base/msgbuffer.cpp:200`) is taken as a move.
- TcpConnections.TcpConnection.OnWrite: `writev` may take any number of bytes, block or fail; its limit on the number of ranges is not modelled. In `SendBlock` a `write` takes any number of bytes, including none: its error result is kept in an unsigned variable (`tmms/network/net/tcpconnection.cpp:197-202`), so the source's own error branch cannot be entered, and what follows instead is not modelled.
- TimingWheels.TimingWheel.AddTimer: whole seconds only; a recurring timer of zero seconds or of 31 days and more is excluded, because there the code registers the timer anew without end (`RegistersAnewIff`); conditional timers and callbacks that insert other timers while a slot is dropped are not modelled, except the recurring timer's own re-insertion.
- The public `BuildChunk` overload that takes a shared packet, which duplicates the private one and bypasses the queue.
- `SendUserCtrlMessage`, play and publish arguments, `HandleResult` and the other commands: no further property of the codec.
- `CorrectAudioTimeStampByVideo`, which `CorrectTimestamp` never calls.
- HMAC-SHA256 (any function with 32-byte results), random numbers, clocks and sockets, which are parameters.
- Event loop, threads, epoll, addresses, configuration, logging, command line, codec header lookups, the text protocol, TCP and UDP wrappers.
