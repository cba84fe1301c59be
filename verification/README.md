# Verified model of ephemeral

A Dafny model of the parts of the `eph` networking and market-data stack whose correctness is
easiest to get wrong, with proofs about whole runs. `dafny verify dfyconfig.toml` checks all of it.

* **WebSocket.** The frame codec with word-at-a-time masking, the message codec with
  fragmentation and automatic replies, and the polled TCP stream over its reassembly buffer
  (`Bytes`, `WsFrame`, `WsVerdict`, `WsMask`, `WsCodec`, `WsStream`, `WsOutcomes`, `WsScript`,
  `WsReference`, `WsEndpoint`). The imperative
  classes in `WsEndpoint` are proved to compute the functions of `WsFrame`, `WsCodec` and
  `WsStream`; the theorems are about those functions.
* **Mock exchange.** The Python server's own framing, its reader loop, its batches, rotation,
  pacing and totals (`MockServer`, `MockSession`, `MockTotals`, `MockPacing`).
* **Lock-free queues.** The single-producer single-consumer ring with cached indices and the
  overwriting seqlock queue, as every interleaving of the threads' atomic steps
  (`WordIndex`, `BoundedQueue`, `EvictingQueue`), and the ring's methods on a real array
  (`BoundedRing`).
* **Order book.** The bounded sorted side updated in place, what it shows of the full aggregate,
  and the ITCH order-to-level builder (`ArrayBook`, `BookView`, `BookMoves`, `BookBest`,
  `ItchBook`, `ItchHistory`, `ItchDisplay`, `ItchBest`, `ItchBuilder`).
* **Probes.** The Internet checksum in both its forms, the packets carrying it, the selection of
  source ports per queue, and the redirection table (`Checksum`, `ProbePackets`,
  `QueueSelection`, `Reta`, `RoundRobin`).
* **Clients.** The URL parser, the exponential backoff and the two reconnect loops
  (`Url`, `Doubles`, `Backoff`, `Reconnect`).

Received bytes, packets, clock readings, random draws, masking keys and the answers of system
calls are parameters, arbitrary unless stated. The two queue models assume that loads and stores
interleave sequentially consistently, which is what their release and acquire pairs are for.

## Where the code does less than is said of it

* `try_consume_all` is described as consuming everything visible at the call. It trusts a cached
  tail that is stale but not used up, so it can leave elements behind even with no producer
  running. `BoundedRing.Ring.TryConsumeAll` gives the exact condition.
* A bounded book side forgets what falls off its end. When a displayed level is later removed the
  hidden one does not come back, so the side then shows fewer than the best levels.
  `BookView.RunTopIff` gives the exact condition for level updates, `ItchBest.FeedBestIff` for whole
  events of the order feed.
* The mock server adds a session's totals in a `finally` block that also runs when the handshake
  failed. The previous session is then counted again, and on the first connection the variables do
  not exist yet (`MockTotals.GrandTotalsExact`, `MockSession.RunServer`).
* The redirection benchmark rotates its table so that no update is a no-op. With one queue, and at
  the wrap of its 16-bit offset for any queue count dividing 65535, it is one
  (`Reta.EverySlotOrNone`).
* The two-step fold of the kernel probe's `checksum` is a complete fold up to 65538 words and not
  beyond (`Checksum.TwoStepChecksum`, `Checksum.TwoFoldsFailAt65539`); no packet is that long.
* The book's documentation says `process` returns whether the book was mutated. The code returns
  whether the event was acted on, also when the displayed book stays the same. `ItchDisplay.FlagExact`
  says when it is false, `ItchDisplay.DisplayUnchangedIff` when the displayed book is unchanged.
* The backoff's base delays are meant never to shrink. They shrink exactly when the factor is one
  and the initial delay is rounded down on its way to a double (`Backoff.BaseMonotone`,
  `Backoff.ConstantShrinks`).

## Model

| member | source | states |
|---|---|---|
| `WsStream.ChunkingIrrelevant` | eph-net-kernel/include/eph/net/kernel/tcp_stream.hpp:1086-1190 | For every byte stream, also one the codec closes, and every way `recv` may cut it: if no frame the stream gets to outgrows the buffer, then messages delivered, frames sent back, keys drawn, codec state, octets left and the error that closes the stream are those of draining all the bytes at once; and after one more readiness event this is so only then. |
| `WsStream.DrainAppend` | eph-net-kernel/include/eph/net/kernel/tcp_stream.hpp:1613-1808 | Draining some bytes and later the rest is draining them together; after a fatal error nothing later matters. |
| `WsStream.DrainEndsQuiet` | eph-net-kernel/include/eph/net/kernel/tcp_stream.hpp:1613-1808 | The drain loop stops only on a closed stream or on an incomplete frame. |
| `WsStream.OverflowExact` | eph-net-kernel/include/eph/net/kernel/tcp_stream.hpp:1086-1190 | For every cut the socket can make, the stream is dropped for overflow, or left with a full buffer that the next poll drops, if and only if it gets to a frame, finished or not, that outgrows the buffer; otherwise the buffer bound holds throughout. |
| `WsStream.NotStuck` | eph-net-kernel/include/eph/net/kernel/tcp_stream.hpp:1086-1190 | If the bytes buffered already hold a whole frame (good or bad), the head of the stream is not one that blocks the buffer. |
| `WsStream.DrainKeepsFit` | eph-net-kernel/include/eph/net/kernel/tcp_stream.hpp:1613-1808 | Draining neither creates nor removes an oversized frame ahead, never reports an overflow itself, and a stream that closes within the buffer fits whatever follows. |
| `WsScript.Reassembly` | eph-codec/include/eph/codec/ws_codec.hpp:183-524 | For every script of control frames, fragmented messages with pings and pongs between the fragments, masked or not, and perhaps a close: the stream delivers exactly each non-empty reassembled payload in order, answers each ping by one masked pong carrying its payload, acknowledges the close once after all that and then reads no further; without a close an unfinished frame stays buffered. |
| `WsScript.EndToEnd` | eph-net-kernel/include/eph/net/kernel/tcp_stream.hpp:1086-1190 | The same for every cut of those bytes, and whatever follows a close, into chunks no larger than the free space, whenever every frame fits the buffer. |
| `WsScript.AcceptMessage` | eph-codec/include/eph/codec/ws_codec.hpp:297-524 | One message, however fragmented and interrupted by control frames, is delivered once and leaves no fragment in flight. |
| `WsScript.AcceptClose` | eph-codec/include/eph/codec/ws_codec.hpp:258-283 | A close frame ends the stream at once, with one acknowledgement and nothing delivered. |
| `WsFrame.DecodeOfWire` | eph-net/include/eph/net/detail/websocket.hpp:528-684 | Decoding an encoded frame, at every length width, masked or not, followed by any bytes, gives back opcode, flag, mask, payload and exact length. |
| `WsFrame.PrefixIncomplete` | eph-net/include/eph/net/detail/websocket.hpp:528-684 | Every strict prefix of a legal frame decodes as incomplete, never as an error or a shorter frame. |
| `WsFrame.WireOfDecode` | eph-net/include/eph/net/detail/websocket.hpp:528-684 | Whatever the decoder accepts is exactly the encoding of what it returns: no second spelling of a frame is accepted. |
| `WsFrame.ReadLengthCanonical` | eph-net/include/eph/net/detail/websocket.hpp:568-625 | An accepted length field is the shortest one for its value and below 2^63. |
| `WsFrame.DecodeStable` | eph-net/include/eph/net/detail/websocket.hpp:528-684 | Once a verdict other than incomplete is reached, more bytes do not change it. |
| `WsVerdict.AcceptsIff` | eph-net/include/eph/net/detail/websocket.hpp:528-684 | The decoder accepts octets if and only if they begin with the spelling of a frame whose opcode is 0, 1, 2, 8, 9 or 10 and whose length is below 2^63, control frames being final, of at most 125 octets, and no close of one octet. |
| `WsVerdict.WaitsIff` | eph-net/include/eph/net/detail/websocket.hpp:528-684 | It asks for more if and only if a second octet, the rest of the length field, or the rest of a frame with the shortest length field is missing. |
| `WsVerdict.WaitEnds` | eph-net/include/eph/net/detail/websocket.hpp:573-587 | Whatever has arrived, some continuation ends the wait: the decoder cannot be pinned waiting for octets it would never take. |
| `WsVerdict.WireVerdict` | eph-net/include/eph/net/detail/websocket.hpp:640-680 | For every opcode, flag and payload, whatever follows: which of the four errors the spelling of that frame gets, or that it is accepted. |
| `WsVerdict.EarlyErrors` | eph-net/include/eph/net/detail/websocket.hpp:540-625 | Reserved bits are reported exactly for a first octet no opcode and flag spell, a bad length exactly for a field that is complete and no shortest spelling. |
| `WsVerdict.Rsv1Alone` | eph-net/include/eph/net/detail/websocket.hpp:540-564 | Where the first reserved bit is allowed it is reported, and the verdict is otherwise that on the octets without it. |
| `WsVerdict.EncoderRefuses` | eph-net/include/eph/net/detail/websocket.hpp:401-420 | The encoder writes nothing exactly for a payload of 2^63 octets or more, or a control payload above 125, and else the frame. |
| `WsVerdict.StandardExamples` | eph-net/include/eph/net/detail/websocket.hpp:326-420 | Section 5.7 of RFC 6455, octet for octet: the short frames, masked and not, whole and fragmented. |
| `WsVerdict.LongExamples` | eph-net/include/eph/net/detail/websocket.hpp:326-368 | Section 5.7 of RFC 6455, octet for octet: the 256-octet and the 64 KiB binary frames. |
| `WsMask.ApplyMask` | eph-net/include/eph/net/detail/websocket.hpp:195-210 | The word-at-a-time in-place XOR loop equals octet-by-octet masking, for every offset and length, and touches nothing before the offset. |
| `WsMask.MaskedCopy` | eph-net/include/eph/net/detail/websocket.hpp:215-243 | The loop of 64-bit exclusive ors with the key word repeated, then 32-bit, then octet steps writes the masked source and leaves the rest of the destination alone. |
| `Bytes.MaskedTwice` | eph-net/include/eph/net/detail/websocket.hpp:195-210 | Masking twice with one key restores the data. |
| `WsEndpoint.DecodeOctets` | eph-net/include/eph/net/detail/websocket.hpp:528-684 | The byte-scanning decoder computes the specified verdict on every input. |
| `WsEndpoint.ReadLengthOctets` | eph-net/include/eph/net/detail/websocket.hpp:568-625 | Reading the 7, 16 or 64-bit length with its shift loop gives the specified length or error. |
| `WsEndpoint.HeaderOctets` | eph-net/include/eph/net/detail/websocket.hpp:326-368 | The header writer produces the first octet and the shortest length field. |
| `WsEndpoint.EncodeInto` | eph-net/include/eph/net/detail/websocket.hpp:401-420 | The in-place encoder writes exactly the specified masked frame and reports its length. |
| `WsCodec.WaitsIffIncomplete` | eph-codec/include/eph/codec/ws_codec.hpp:183-524 | The codec consumes nothing and reports nothing if and only if the frame at the head is incomplete. |
| `WsCodec.DecodeStepStable` | eph-codec/include/eph/codec/ws_codec.hpp:183-524 | With a decidable frame at the head, the whole codec step is independent of what follows it. |
| `WsCodec.PongEchoesPing` | eph-codec/include/eph/codec/ws_codec.hpp:240-249 | With a reply buffer of at least 131 octets, every ping is answered by one frame that any decoder reads back as a masked pong with the same payload, and the fragment state is untouched. |
| `WsCodec.CloseAckIsSendable` | eph-codec/include/eph/codec/ws_codec.hpp:258-283 | Every close is acknowledged by a frame that decodes to a code RFC 6455 allows on the wire: the peer's when it is valid, else normal or protocol error. |
| `WsCodec.AckCode` | eph-codec/include/eph/codec/ws_codec.hpp:262-276 | The acknowledged code is always sendable: the peer's own whenever that was, 1000 for an empty close, 1002 otherwise. |
| `WsCodec.NeverBufferFull` | eph-net-kernel/include/eph/net/kernel/tcp_stream.hpp:94-98 | No input makes a reply overflow a buffer of 131 octets or more, so never the 1024 the stream supplies. |
| `WsOutcomes.MessageIff` | eph-codec/include/eph/codec/ws_codec.hpp:297-524 | A message is delivered if and only if a final data frame that may be taken completes it within the size limit, and it is the octets held and those of the frame. |
| `WsOutcomes.OverflowIff` | eph-codec/include/eph/codec/ws_codec.hpp:446-492 | `CodecOverflow` is reported if and only if a data frame that may be taken would make the octets held and its own exceed the limit. |
| `WsOutcomes.FrameBadIff` | eph-codec/include/eph/codec/ws_codec.hpp:183-355 | `WsFrameBad` is reported if and only if the decoder refuses the frame or it continues no fragmented message in flight. |
| `WsOutcomes.AnswersExact` | eph-codec/include/eph/codec/ws_codec.hpp:240-283 | Exactly when something is sent back, a key is drawn, a close ends the stream, and the output buffer is too small. |
| `WsOutcomes.AckExact` | eph-codec/include/eph/codec/ws_codec.hpp:258-283 | The acknowledgement on the wire is the masked close of eight octets with the code the peer's payload calls for. |
| `WsOutcomes.SendableCodes` | eph-net/include/eph/net/detail/websocket.hpp:134-141 | The close codes that may be sent, one by one. |
| `WsOutcomes.ConsumedExact` | eph-codec/include/eph/codec/ws_codec.hpp:183-524 | The frame leaves the view unless nothing was decided, it was bad, or there was no room to answer. |
| `WsOutcomes.FlightExact` | eph-codec/include/eph/codec/ws_codec.hpp:297-524 | A message is in flight from its first fragment that is not final to its final one; a new message drops an unfinished one; all other frames leave it alone. |
| `WsOutcomes.RunWithin` | eph-net-kernel/include/eph/net/kernel/tcp_stream.hpp:1086-1190 | Whatever octets arrive and however they are cut, no message delivered exceeds the limit or is empty. |
| `WsReference.AnyFrames` | eph-codec/include/eph/codec/ws_codec.hpp:183-524 | For every sequence of frames, legal or not, from any codec state: the messages delivered, the frames sent back, the error that closes the stream and the message left in flight are those of a reference that only hears frames. |
| `WsReference.AnyFramesAnyCut` | eph-net-kernel/include/eph/net/kernel/tcp_stream.hpp:1086-1190 | The same for every cut of their octets into socket reads. |
| `WsEndpoint.Codec.Decode` | eph-codec/include/eph/codec/ws_codec.hpp:183-524 | The codec with its mutable fragment buffer does what the specified step does, field by field. |
| `WsEndpoint.TcpStream.DrainCodec` | eph-net-kernel/include/eph/net/kernel/tcp_stream.hpp:1613-1808 | The drain loop over the real buffer leaves the stream as the specified drain does. |
| `WsEndpoint.TcpStream.PollOnce` | eph-net-kernel/include/eph/net/kernel/tcp_stream.hpp:1086-1190 | One poll takes no more than the free space and leaves the stream as the specified poll does. |
| `WsEndpoint.ReassemblyBuffer.CommitWrite` | eph-net-kernel/include/eph/net/kernel/detail/reassembly_buffer.hpp:69-72 | Received octets are appended, clamped to the free tail. |
| `WsEndpoint.ReassemblyBuffer.Consume` | eph-net-kernel/include/eph/net/kernel/detail/reassembly_buffer.hpp:75-83 | Exactly the first octets are dropped, clamped to what is buffered. |
| `WsEndpoint.ReassemblyBuffer.Compact` | eph-net-kernel/include/eph/net/kernel/detail/reassembly_buffer.hpp:92-103 | Compaction moves the window to the front and changes no content. |
| `MockServer.Reader` | tools/mock_binance_server.py:271-291 | For every cutting of the received bytes into chunks, the reader yields the payloads of all complete frames in order, once each, and keeps exactly the incomplete tail. |
| `MockServer.FramesAppend` | tools/mock_binance_server.py:271-291 | Reading some bytes and then the rest yields what reading them together yields. |
| `MockServer.TakeFrames` | tools/mock_binance_server.py:286-291 | The inner loop ends, because every success consumes at least two octets, with nothing decodable left. |
| `MockServer.ServerReadsClient` | tools/mock_binance_server.py:66-92 | Any frames the C++ client encodes, followed by any incomplete tail, are read by the Python server as their payloads in order. |
| `MockServer.ReadClient` | tools/mock_binance_server.py:271-291 | For every cutting of client frames and an unfinished tail into chunks, the reader thread yields the payloads in order, once each, and keeps exactly that tail. |
| `MockServer.RoundTrip` | tools/mock_binance_server.py:66-104 | For every payload below 2^64 octets and any trailing bytes, decoding an encoded frame gives the payload and the exact frame length. |
| `MockServer.DecodersAgree` | tools/mock_binance_server.py:66-92 | On every input the strict C++ decoder accepts, the Python decoder returns the same payload and length; where the strict one needs more, so does it. |
| `MockServer.LenientIff` | tools/mock_binance_server.py:66-92 | The Python decoder takes a payload from some octets if and only if they begin with a frame around it, whatever its first octet and whichever length form holds its length, and takes just that frame. |
| `MockServer.ClientAcceptsIff` | tools/mock_binance_server.py:95-104 | The C++ client accepts the Python server's frame if and only if the payload is below 2^63 octets. |
| `MockServer.EncodeIsWire` | tools/mock_binance_server.py:95-104 | The Python encoder produces the unmasked text frame of RFC 6455 at every length. |
| `MockServer.DecodeFrameBytes` | tools/mock_binance_server.py:66-92 | The scanning decoder with its in-place unmasking loop computes the specified result. |
| `MockServer.BuildServerText` | eph-codec/benchmarks/bench_ws_codec.cpp:57-80 | The C++ frame builder emits exactly what the Python encoder would for the same payload, at every length. |
| `MockSession.RecordLossless` | tools/mock_binance_server.py:352-358 | The client delivers from one sent record exactly the batch's payloads, all of them, in order, and sends nothing back. |
| `MockSession.BuildRecord` | tools/mock_binance_server.py:352-358 | A record holds the next `batch` messages, and symbol index and sequence number stay in step. |
| `MockSession.RunSession` | tools/mock_binance_server.py:320-364 | A session produces exactly the specified records, and the three totals are the messages, the octets of all records together and the records. |
| `MockSession.SessionBytes` | tools/mock_binance_server.py:320-364 | The records of a session one after the other are messages 0, 1, 2, ... up to the total, message k carrying symbol k mod n and sequence k, each encoded exactly once. |
| `MockSession.SessionLossless` | tools/mock_binance_server.py:320-364 | However the network cuts a whole session, the client delivers messages 0, 1, 2, ... up to the total, each once and in order, sends nothing and stays open, if each message and frame is within its limits. |
| `MockSession.RecordAt` | tools/mock_binance_server.py:352-358 | Record r carries the messages numbered from the total of the batches before it. |
| `MockSession.SymbolsEven` | tools/mock_binance_server.py:353-354 | Among the payloads of a session, with distinct symbols readable from them, no two symbols are carried more than once apart. |
| `MockPacing.RateBound` | tools/mock_binance_server.py:360-375 | At every time of every run with a monotone clock, messages sent are at most one batch plus rate times elapsed time; random batch sizes at most double that. |
| `MockPacing.RateAttained` | tools/mock_binance_server.py:360-375 | The bound is met: a run that is never late sends at the configured rate, one batch ahead of the clock. |
| `MockSession.RunServer` | tools/mock_binance_server.py:236-391 | The grand totals are what the sessions sent plus, for each refused connection, the totals of the session before it once more; a refused first connection ends the server. |
| `MockTotals.GrandTotalsExact` | tools/mock_binance_server.py:377-391 | The grand totals are the sum over the sessions if and only if no refused connection follows a session that sent something. |
| `MockTotals.RefusalCountsTwice` | tools/mock_binance_server.py:377-391 | A session of one message followed by a refused connection is reported as two messages. |
| `BoundedQueue.FifoSafety` | eph-containers/include/eph/containers/bounded_queue.hpp:203-279 | In every state of every interleaving, what was popped is a prefix of what was pushed, occupancy is within capacity, and the wrapped 64-bit index difference is the occupancy. |
| `BoundedQueue.NoSlotRace` | eph-containers/include/eph/containers/bounded_queue.hpp:203-279 | The slot being written is never one that holds an unread element nor the one being read. |
| `BoundedQueue.RefusalsExact` | eph-containers/include/eph/containers/bounded_queue.hpp:255-272 | After reloading the peer index, a push is refused exactly when it would not fit and a pop exactly when the queue is empty. |
| `BoundedQueue.FastPathSafe` | eph-containers/include/eph/containers/bounded_queue.hpp:505-527 | A decision made on a stale cached index is safe: the cache never overstates room or content. |
| `BoundedQueue.BatchesAtomic` | eph-containers/include/eph/containers/bounded_queue.hpp:255-279 | Publishing the tail makes the whole batch visible at once, publishing the head consumes what was copied unless it was a peek, and no other step changes what is pushed or popped. |
| `BoundedQueue.TakesExact` | eph-containers/include/eph/containers/bounded_queue.hpp:505-527 | How many elements a pop sets out to take, on the cached and on the reloaded tail, and when each side turns to the real index. |
| `BoundedQueue.PushPublishesItsBatch` | eph-containers/include/eph/containers/bounded_queue.hpp:255-279 | Over every interleaving, what a push publishes is the batch it was started with. |
| `BoundedQueue.PopTakesFirst` | eph-containers/include/eph/containers/bounded_queue.hpp:601-628 | Over every interleaving, what a pop hands over is the first unconsumed elements, at least one and at most as many as asked; a peek leaves them. |
| `BoundedQueue.WaitFree` | eph-containers/include/eph/containers/bounded_queue.hpp:203-279 | A thread in the middle of an operation always has a step to take, each brings it nearer the end, and the other thread never sets it back. |
| `BoundedQueue.ExecutionInv` | eph-containers/include/eph/containers/bounded_queue.hpp:203-279 | The inductive invariant holds in every state reachable from empty. |
| `BoundedRing.Ring.TryPushN` | eph-containers/include/eph/containers/bounded_queue.hpp:255-279 | All or nothing: succeeds exactly when the batch fits, and then appends it. |
| `BoundedRing.Ring.TryPopN` | eph-containers/include/eph/containers/bounded_queue.hpp:601-628 | Takes, from the front, the smaller of the request and what the cached or reloaded tail shows. |
| `BoundedRing.Ring.TryConsumeAll` | eph-containers/include/eph/containers/bounded_queue.hpp:829-831 | Takes exactly what the cached or reloaded tail shows, loses and reorders nothing, and leaves the queue empty if and only if the cached tail was used up or current beforehand. |
| `BoundedRing.DrainFallsShort` | eph-containers/include/eph/containers/bounded_queue.hpp:815-831 | A single-threaded run after which draining takes 2 and leaves 3 behind. |
| `WordIndex.SubOf` | eph-containers/include/eph/containers/bounded_queue.hpp:210-214 | The 64-bit difference of two wrapped indices is their true distance while that is below 2^64. |
| `WordIndex.SlotOf` | eph-containers/include/eph/containers/bounded_queue.hpp:219-220 | Masking a wrapped index with a power-of-two capacity picks the slot of the unwrapped index. |
| `EvictingQueue.NeverTorn` | eph-containers/include/eph/containers/evicting_queue.hpp:339-383 | Over every interleaving of word-by-word writes and reads, each accepted value is one value pushed as a whole, and consumed values come in strictly increasing push order. |
| `EvictingQueue.OddIffWriting` | eph-containers/include/eph/containers/evicting_queue.hpp:240-274 | A slot's sequence number is odd exactly while that slot is being written. |
| `EvictingQueue.NeverStale` | eph-containers/include/eph/containers/evicting_queue.hpp:339-383 | In every interleaving, a value accepted by a read is one pushed whole, no older than the newest value published when that read began, and newer than anything consumed before. |
| `EvictingQueue.UncontendedRead` | eph-containers/include/eph/containers/evicting_queue.hpp:339-383 | With no write in progress and something unread, a read succeeds and returns the newest value. |
| `EvictingQueue.LastIsConsumed` | eph-containers/include/eph/containers/evicting_queue.hpp:388-438 | In every reachable state the index counted as read is that of the last value consumed, peeks not counted. |
| `EvictingQueue.PeeksLeaveUnread` | eph-containers/include/eph/containers/evicting_queue.hpp:388-438 | While no push begins and nothing is consumed, every read goes through and hands over the same newest value, however often it was peeked at. |
| `EvictingQueue.HistoryIsBegun` | eph-containers/include/eph/containers/evicting_queue.hpp:240-274 | What counts as pushed is what the pushes were given, in order. |
| `EvictingQueue.NeverBlocked` | eph-containers/include/eph/containers/evicting_queue.hpp:240-383 | Neither thread ever waits: in every state it can take a step of its operation or begin one. |
| `EvictingQueue.WaitFree` | eph-containers/include/eph/containers/evicting_queue.hpp:240-383 | Every step of an operation brings it nearer the end, whatever the other thread does. |
| `EvictingQueue.ExecutionInv` | eph-containers/include/eph/containers/evicting_queue.hpp:240-274 | The inductive invariant holds in every reachable state. |
| `ItchBook.FeedAgrees` | eph-book/include/eph/book/itch_adapter.hpp:93-452 | After every event sequence, whatever its references, each per-price accumulator equals the remaining quantity of the live orders at that side and price, and every displayed level is sorted, positive and equal to its accumulator. |
| `ItchBook.ProcessKeeps` | eph-book/include/eph/book/itch_adapter.hpp:93-106 | Each event keeps that agreement, over-executions and duplicate references included. |
| `ItchBook.ShallowFeedShowsAll` | eph-book/include/eph/book/itch_adapter.hpp:93-452 | If distinct prices never exceed the depth, a level is displayed if and only if its quantity is the positive sum of the live orders there. |
| `ItchBook.CompleteFeed` | eph-book/include/eph/book/itch_adapter.hpp:93-452 | Within the depth, the displayed sides stay the full aggregate through the whole feed. |
| `ItchBook.EventEffect` | eph-book/include/eph/book/itch_adapter.hpp:214-452 | Every event, whatever its reference and side, moves the live quantity at a price by exactly its shares: added, the clamped reduction, the remainder deleted, or the remainder replaced; an order already live under the new reference goes with all it has left, and an unknown reference or bad side moves nothing. |
| `ItchDisplay.ProcessShows` | eph-book/include/eph/book/itch_adapter.hpp:93-452 | After every event each displayed side is the old one after the event's level updates, each carrying the quantity then live at its price. |
| `ItchDisplay.FlagExact` | eph-book/include/eph/book/itch_adapter.hpp:93-106 | `process` returns false exactly for a bad side, an unknown reference or another message, and then nothing changes. |
| `ItchHistory.LiveIsStanding` | eph-book/include/eph/book/itch_adapter.hpp:93-452 | After every feed, an order is live under a reference if and only if the events leave one standing there: the last one entered, less the reductions since, gone once used up, deleted or replaced; and it is that order, with its price, side and quantity. |
| `ItchHistory.FlagFromFeed` | eph-book/include/eph/book/itch_adapter.hpp:93-106 | Whether the next event is acted on, told from the events before it. |
| `ItchHistory.OrderLife` | eph-book/include/eph/book/itch_adapter.hpp:246-428 | From any book on, until another order is entered under its reference, an order is live if and only if it was neither deleted nor replaced and the reductions ask for less than it had, and it has what they left. |
| `ItchHistory.BestFirst` | eph-book/include/eph/book/itch_adapter.hpp:93-452 | After every feed the bids go down from the highest price and the asks up from the lowest, none twice, none empty, none beyond the depth. |
| `ItchDisplay.FlagWithoutChange` | eph-book/include/eph/book/itch_adapter.hpp:214-244 | An add of no shares returns true and leaves the displayed book as it was. |
| `ItchDisplay.DisplayUnchangedIff` | eph-book/include/eph/book/itch_adapter.hpp:93-452 | An event leaves the displayed book unchanged if and only if, on both sides, every price it touches is shown with its last total already or stays unshown for want of quantity or rank; a level brought in at the last one's expense and taken out again is the one exception, stated exactly. |
| `ItchBest.EventBestIff` | eph-book/include/eph/book/itch_adapter.hpp:93-452 | An event on a displayed book that is the best of the live orders leaves it so if and only if a condition on the book before holds: on each side no shown price loses its quantity, or nothing stays hidden, or what the event puts in is what had to come back. |
| `ItchBest.FeedBestIff` | eph-book/include/eph/book/itch_adapter.hpp:93-452 | Over a feed however deep, the displayed book is the best of the live orders after every event if and only if each event meets that condition on the book it finds. |
| `ItchBest.FeedShowsBest` | eph-book/include/eph/book/itch_adapter.hpp:93-452 | From the empty book on, while each event meets it, a price is shown exactly when live orders rest there, with all they hold, unless the side is full of better ones. |
| `ItchBest.PutBackKeeps` | eph-book/include/eph/book/itch_adapter.hpp:393-428 | Emptying a shown price and putting quantity back there within one event keeps the best shown, whatever is hidden. |
| `ItchBest.PushesEventlike` | eph-book/include/eph/book/itch_adapter.hpp:93-452 | On either side an event makes at most three updates; when there are several, all but the last take quantity off, and the last empties no price the others left with some. |
| `ItchBuilder.Builder.Process` | eph-book/include/eph/book/itch_adapter.hpp:93-106 | The builder with its maps and arrays updated in place does what the specified event step does, the returned flag included. |
| `ItchBuilder.Builder.Feed` | eph-book/include/eph/book/itch_adapter.hpp:93-452 | A whole feed through the builder ends in the specified book and keeps the agreement. |
| `ItchBuilder.Builder.SubQty` | eph-book/include/eph/book/itch_adapter.hpp:189-211 | Quantity is taken off a price, the accumulator erased at zero and the level updated. |
| `ItchBuilder.Builder.Enter` | eph-book/include/eph/book/itch_adapter.hpp:439-452 | An order entered under a live reference first evicts the old order and its quantity. |
| `ArrayBook.UpdateSide` | eph-book/include/eph/book/array_book.hpp:260-375 | The in-place search, shift and insert on the fixed array leaves the levels the specification gives: update, remove, insert in order, drop the worst when full, or ignore. |
| `ArrayBook.RemoveAt` | eph-book/include/eph/book/array_book.hpp:303-314 | Shifting down removes exactly one level. |
| `ArrayBook.InsertAt` | eph-book/include/eph/book/array_book.hpp:345-374 | Shifting up inserts exactly one level at its place. |
| `BookView.UpdateEffect` | eph-book/include/eph/book/array_book.hpp:260-375 | Which levels an update leaves, at which quantity, and that the side stays sorted and bounded. |
| `BookView.NothingLeftRemoves` | eph-book/include/eph/book/array_book.hpp:260-375 | An update with a quantity of zero or less takes the price off the side and changes nothing else. |
| `BookView.RunFaithful` | eph-book/include/eph/book/array_book.hpp:260-375 | Over every run of updates each displayed level carries its true total. |
| `BookView.UpdateTopIff` | eph-book/include/eph/book/array_book.hpp:260-375 | A side showing the best levels still does after an update if and only if the update does not remove a displayed level while another is hidden. |
| `BookView.RunTopIff` | eph-book/include/eph/book/array_book.hpp:260-375 | Over a whole run the side always shows the best levels if and only if no update uncovers a hidden one. |
| `BookBest.EventTopIff` | eph-book/include/eph/book/array_book.hpp:260-375 | The one to three updates of an event, composed, leave a side showing the best levels if and only if a condition on the side and aggregate before them holds. |
| `BookView.TopRank` | eph-book/include/eph/book/array_book.hpp:260-375 | While it does, level k has exactly k better prices in the full aggregate. |
| `BookView.TopIsAll` | eph-book/include/eph/book/array_book.hpp:260-375 | A side that shows the best levels of an aggregate no larger than its depth shows all of it. |
| `BookView.HiddenLevelLost` | eph-book/include/eph/book/array_book.hpp:260-375 | Three updates after which a side of depth one shows nothing while a level exists. |
| `BookMoves.StillIff` | eph-book/include/eph/book/array_book.hpp:260-375 | Up to three updates of one event together leave a side as it was if and only if each price keeps its place with its last total. |
| `BookMoves.TwoUpdates` | eph-book/include/eph/book/array_book.hpp:260-375 | Two updates at different prices never cancel out; at one price only the second counts. |
| `BookMoves.UpdateUnmovedIff` | eph-book/include/eph/book/array_book.hpp:260-375 | One update changes nothing if and only if the price is shown with that total, has no quantity and is not shown, or is no better than a full side's last. |
| `Checksum.ByteOrderIndependent` | tools/dpdk_rss_queue_probe.cpp:101-107 | The sum over host-order words is the octet swap of the sum over network-order words, and so for the checksums; data verifies in one order exactly when it does in the other. |
| `Checksum.FoldIsOnesSum` | tools/dpdk_rss_queue_probe.cpp:101-107 | Folding the plain sum at the end equals end-around carry at every addition. |
| `Checksum.StandardExample` | tools/dpdk_rss_queue_probe.cpp:101-107 | The worked example of section 3 of RFC 1071, in both byte orders. |
| `Checksum.Ipv4Csum` | tools/dpdk_rss_queue_probe.cpp:101-107 | The 32-bit loop yields the complement of the one's complement sum if and only if the wrapped accumulator lost no carry that counts, which is always so up to 65537 words; the folding loop ends. |
| `Checksum.OverflowAt65538` | tools/dpdk_rss_queue_probe.cpp:104-104 | The bound is sharp: 65538 words of all ones lose a carry. |
| `Checksum.TwoStepChecksum` | tools/kernel_rss_queue_probe.py:37-43 | Two folds and a truncation yield the checksum of the padded data if and only if they leave no carry that counts, which is always so up to 65538 words. |
| `Checksum.TwoFoldsFirstFailure` | tools/kernel_rss_queue_probe.py:40-43 | The smallest sum for which two folds are not enough is 0x1_0000_FFFF. |
| `Checksum.TwoFoldsFailAt65539` | tools/kernel_rss_queue_probe.py:37-43 | That length is sharp: 65538 words of all ones and a word of one leave a carry that two folds do not fold. |
| `Checksum.DropExact` | tools/dpdk_rss_queue_probe.cpp:101-107 | Dropping the bits above 2^16 or 2^32 keeps the folded sum if and only if the dropped part is a multiple of 65535 and nothing nonzero became zero. |
| `Checksum.InsertVerifies` | tools/kernel_rss_queue_probe.py:46-52 | Storing the complement of the sum at any even, zeroed offset makes the data verify for readers of both byte orders. |
| `ProbePackets.CraftIp` | tools/dpdk_rss_queue_probe.cpp:143-152 | The header written in place, summed and stored in host order verifies for a big-endian reader; no other octet changes. |
| `ProbePackets.Craft` | tools/dpdk_rss_queue_probe.cpp:129-166 | The frame is Ethernet, sealed IPv4, UDP and query in place; below 2^16 both length fields read back as what follows them; the rest of the buffer is untouched. |
| `ProbePackets.FrameReadsBack` | tools/dpdk_rss_queue_probe.cpp:129-166 | At the offsets the standards give, a crafted frame holds the addresses, protocol, ports and payload asked for. |
| `ProbePackets.SynFields` | tools/kernel_rss_queue_probe.py:46-52 | At those of RFC 9293 the segment holds the ports and sequence number asked for, SYN alone, no options and the full window. |
| `ProbePackets.PseudoFields` | tools/kernel_rss_queue_probe.py:46-52 | The pseudo-header holds both addresses, protocol 6 and the length. |
| `ProbePackets.BuildSyn` | tools/kernel_rss_queue_probe.py:46-52 | Packing fails exactly for a port above 65535; otherwise pseudo-header and segment verify, and only the checksum field was filled in. |
| `QueueSelection.OnePassRefinesGrouping` | tools/dpdk_rss_queue_probe.cpp:259-267 | For every reply trace, one pass over the scan emits for each queue exactly the list the grouping probe keeps after truncation. |
| `QueueSelection.ChosenIsTruncatedGroup` | tools/dpdk_rss_queue_probe.cpp:259-267 | Each queue gets the first `PER_QUEUE` ports, in ascending order, last seen on it. |
| `QueueSelection.GroupIs` | tools/kernel_rss_queue_probe.py:173-180 | A queue's group is the scanned ports seen on it and no others, once each, ascending. |
| `QueueSelection.ChosenIs` | tools/dpdk_rss_queue_probe.cpp:259-267 | The pairs come in ascending order of port, each with the queue its port was seen on, and only for queues there are. |
| `QueueSelection.CpuGroupIs` | tools/kernel_rss_queue_probe.py:173-180 | A processor's list is the ports seen on any queue it serves, ascending. |
| `QueueSelection.Observe` | tools/dpdk_rss_queue_probe.cpp:224-254 | The table entry of a port is the hash, flag and queue of the last matching reply to it. |
| `QueueSelection.ObservedIsLatest` | tools/dpdk_rss_queue_probe.cpp:224-254 | What is observed of a port is what the latest IPv4 UDP packet from the server to it showed, and nothing if there was none. |
| `QueueSelection.ScanPorts` | tools/dpdk_rss_queue_probe.cpp:212-213 | The scan is every port from low to high and ends even at 65535. |
| `QueueSelection.Select` | tools/dpdk_rss_queue_probe.cpp:259-269 | The emitted pairs are the specified choice and `filled` is the number of queues that reached the quota. |
| `QueueSelection.GroupPorts` | tools/kernel_rss_queue_probe.py:173-180 | Both dictionaries have a list for exactly the queues, and the processors, seen, each the first `count` ports of its group. |
| `QueueSelection.AscendingUnique` | tools/kernel_rss_queue_probe.py:174-174 | An ascending list is determined by its elements, so the order in which the dictionary was filled is irrelevant. |
| `Reta.BuildReta` | eph-net-dpdk/benchmarks/bench_reta_update_latency.cpp:147-164 | Mask bits are set for exactly the slots below the table size; each such slot rotates over the queues and every other is zero. |
| `Reta.FairTable` | eph-net-dpdk/benchmarks/bench_reta_update_latency.cpp:147-164 | For any offset every queue gets the floor or the ceiling of an even share of the slots. |
| `Reta.EverySlotOrNone` | eph-net-dpdk/benchmarks/bench_reta_update_latency.cpp:210-213 | Between consecutive iterations every slot changes if there are two or more queues and, at the wrap of the 16-bit offset, the queue count does not divide 65535; otherwise no slot changes. |
| `Reta.SameTable` | eph-net-dpdk/benchmarks/bench_reta_update_latency.cpp:210-213 | A step that does not rotate rewrites the table it found, marks and queues alike. |
| `Reta.WrapWithThreeQueues` | eph-net-dpdk/benchmarks/bench_reta_update_latency.cpp:210-213 | With three queues the tables at offsets 65535 and 0 are the same in every slot. |
| `Url.GrammarExact` | benchmarks/latency/core/endpoint.hpp:63-130 | A text parses to a URL if and only if it is a spelling of that URL: scheme, host without slash or colon, port written in digits or defaulted, path or nothing. |
| `Url.RoundTrip` | benchmarks/latency/core/endpoint.hpp:63-130 | Parsing the printed form of any well-formed URL returns its parts. |
| `Url.Canonical` | benchmarks/latency/core/endpoint.hpp:63-130 | Reprinting and reparsing what was parsed changes nothing, and two texts parse alike exactly when they print alike. |
| `Url.ParsePort` | benchmarks/latency/core/endpoint.hpp:95-124 | The 32-bit accumulator and the 16-bit cast never lose a bit, for texts of any length: the result is the numeral's value or the specified error. |
| `Url.PortExact` | benchmarks/latency/core/endpoint.hpp:95-124 | A port text is accepted if and only if it is a non-empty numeral with value 1 to 65535, leading zeros allowed. |
| `Url.ErrorExact` | benchmarks/latency/core/endpoint.hpp:63-130 | For every text with a scheme, taken apart into host, port and path: exactly which error it gets, the port being looked at before the host, or that it is accepted. |
| `Url.Taken` | benchmarks/latency/core/endpoint.hpp:63-93 | A bad scheme is reported exactly for texts with neither scheme, and every other text can be taken apart so. |
| `Url.ParseWsUrl` | benchmarks/latency/core/endpoint.hpp:63-130 | The parser computes the specified result, the first error included. |
| `Reconnect.RunSession` | examples/production_client.cpp:160-214 | For every sequence of session outcomes: each stream is attached at most once and detached before drain and destruction, the poller is empty at every loop head, each delay is the one drawn around the base of its place in the chain; the loop gives up exactly when the budget is spent, stops exactly when told to in a session or at the loop head, and otherwise waits and reconnects. |
| `Reconnect.RunOneSession` | examples/production_client.cpp:79-158 | A session leaves the poller empty, reports a connected, failed or stopped outcome exactly as its calls turned out, and drains only on shutdown. |
| `Reconnect.AttemptsForgetThePast` | examples/production_client.cpp:184-213 | The attempt count depends only on the failures since the last connected session, plus one for its drop. |
| `Reconnect.SessionDisciplined` | examples/production_client.cpp:79-158 | Every session's operations are accepted by an independent lifetime monitor and leave nothing alive. |
| `Reconnect.SessionCalls` | examples/production_client.cpp:79-158 | How often each call is made on which stream, for every way a session can turn out. |
| `Reconnect.RunLatency` | examples/binance_latency.cpp:529-629 | The same discipline for the latency client; a failed round waits its place in the chain, a connected one resets the chain and never waits; it gives up exactly when the budget is spent and stops exactly at the loop head; the session count is the number of connected rounds. |
| `Reconnect.RunRound` | examples/binance_latency.cpp:537-628 | A round registers, polls and removes its stream, or destroys it unregistered. |
| `Reconnect.Poller.Add` | eph-net-kernel/include/eph/net/kernel/poller.hpp:162-268 | The first reason to refuse is reported in order: closed, attached, registered, no memory, failed call; otherwise the stream is registered last. |
| `Reconnect.Poller.Remove` | eph-net-kernel/include/eph/net/kernel/poller.hpp:279-313 | Exactly one entry goes, or nothing when the stream is unknown. |
| `Backoff.ExponentialBackoff.NextDelay` | eph-utils/include/eph/utils/backoff.hpp:231-256 | Refused exactly when the budget is spent, and then nothing changes; otherwise the delay is the jittered base and the base advances. |
| `Backoff.ExponentialBackoff.Reset` | eph-utils/include/eph/utils/backoff.hpp:260-263 | Back to the initial base and no attempts. |
| `Backoff.BaseMonotone` | eph-utils/include/eph/utils/backoff.hpp:231-256 | Computed in doubles, under any rounding and at every cap, the base delays never shrink if and only if the factor is above one or the initial delay is not rounded down. |
| `Backoff.GrowthExact` | eph-utils/include/eph/utils/backoff.hpp:244-253 | Where nothing needs rounding a base grows by exactly the factor, the fraction dropped, up to the cap. |
| `Backoff.NeverShrinks` | eph-utils/include/eph/utils/backoff.hpp:231-256 | Then every base also stays between the initial delay and the cap. |
| `Backoff.ConstantShrinks` | eph-utils/include/eph/utils/backoff.hpp:244-253 | The failing input, with ties to even: a constant delay of 2^53 + 1 ms shrinks to 2^53 at the first advance. |
| `Backoff.DoublingExact` | eph-utils/include/eph/utils/backoff.hpp:245-253 | With factor two the base after n attempts is the initial delay times 2^n, cut at the cap, if and only if the initial delay is a double or the first doubling reaches the cap even so. |
| `Backoff.ConstantExact` | eph-utils/include/eph/utils/backoff.hpp:244-253 | With factor one the delay never changes if and only if it is a double, or is rounded up with no room below the cap. |
| `Backoff.ApplyJitter` | eph-utils/include/eph/utils/backoff.hpp:83-127 | The delay is the number drawn from the interval the code computes in doubles, truncated, the largest there is when that does not fit 64 bits, and the base without jitter; it lies in that interval and is never negative. |
| `Backoff.Interval` | eph-utils/include/eph/utils/backoff.hpp:83-127 | The jitter interval computed in doubles is in order, and contains the base when that is a double. |
| `Backoff.IntervalExact` | eph-utils/include/eph/utils/backoff.hpp:83-127 | Where nothing needs rounding the interval reaches exactly the jitter factor below and above the base. |
| `Doubles.GrowthWins` | eph-utils/include/eph/utils/backoff.hpp:244-253 | For every rounding, a factor above one outweighs what rounding a delay to a double takes off, both times it is rounded. |
| `Doubles.HalfEvenRounds` | eph-utils/include/eph/utils/backoff.hpp:244-253 | Round-half-even onto 53-bit significands keeps order, lands on doubles and fixes doubles, so the results about every rounding hold of it. |
| `Backoff.Sanitized` | eph-utils/include/eph/utils/backoff.hpp:200-220 | Every representable configuration becomes a usable one; a usable one is kept, and each setting out of range gets its default. |

## Left out

- permessage-deflate: compressed messages, the RSV1 path of the codec and the inflater.
- TLS records, handshakes and the HTTP upgrade: the stream model starts with plaintext after the upgrade.
- The hardware memory model of the two queues: sequentially consistent interleavings only.
- The capacity-one specialisation of the evicting queue, the byte-envelope queues, the ring buffer, and the blocking and timed variants built on the modelled operations.
- The wrap of the evicting queue's 63-bit index; the bounded queue's 64-bit wrap is modelled.
- Floating point: prices and quantities are whole ticks and shares, so tolerance comparison, quantisation and non-finite values are not in the model; the backoff's double arithmetic is any order-keeping rounding onto 53-bit significands with an unbounded exponent, so overflow, subnormals and non-finite settings are not represented.
- Reta.BuildReta: the 64-bit group mask is the set of its bits.
- MockPacing.RateBound: bounds the steady profile only, not the surge profile.
- MockSession.RunSession: a send that fails in the middle of a record is not modelled; such a record is not counted by the code either.
- The order replies the mock server sends: JSON is not modelled, only the frames the reader extracts.
- Reconnect.RunSession: metrics publishing and the duration of sleeps are not modelled.
- ProbePackets.Craft: the DNS query is a parameter; the loop that builds it from a constant name is not modelled.
- QueueSelection.GroupPorts: the count is not negative.
- `resolve_endpoint`, the FIX, JSON, HTTP, DNS and ARP code, the DPDK data path, statistics and logging: not modelled.
