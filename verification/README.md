# A verified model of the crpc framework

crpc is a coroutine-based RPC and HTTP framework in C++. This project models its algorithms and
protocols in Dafny and proves what they promise. It needs nothing but Dafny 4.11:
`dafny verify dfyconfig.toml` checks everything.

The model has the form of the code. Objects that change in place are classes whose methods are
proved against a specification: a byte queue for the buffer, a decoding function for the codecs, a
state machine for the time wheel, the pool and the timer. What the framework promises is then
proved about the specifications, for all inputs and all runs. Protocols between threads are
transition systems in which one step is what one thread does at a time.

| file | what it models |
|---|---|
| `Bytes.dfy`, `Decimals.dfy`, `Strings.dfy` | bytes, network integers, decimal numbers, searching and splitting |
| `TcpBuffer.dfy` | the growing, compacting buffer of a connection |
| `Streams.dfy` | what a read/execute loop makes of a stream in pieces, for any decoder with two laws |
| `RpcFrame.dfy`, `RpcCodec.dfy` | the RPC frame as a function, and encoding and decoding in place |
| `RpcStream.dfy` | fragmentation independence for RPC frames with stray bytes between them |
| `RpcDispatcher.dfy`, `TcpConnection.dfy` | replies, and the input/execute/output loop over a socket that reads and writes as it likes |
| `HttpHeaders.dfy`, `HttpCodec.dfy`, `HttpMessages.dfy` | HTTP framing (sections 3, 5 and 6 of RFC 9112), its round trips, and the codec at work |
| `AsyncChannel.dfy` | the asynchronous call between two threads |
| `TimeWheel.dfy`, `Timer.dfy` | idle connections and deadlines |
| `CoroutinePool.dfy` | the two-level allocator of coroutine stacks |
| `AsyncLogger.dfy`, `LogRotation.dfy`, `LogFiles.dfy` | the log queue, the log files, and both together |
| `MsgReq.dfy`, `IoThreads.dfy` | message numbers, and the choice of I/O threads |

## Main results

- **Streams.** `Streams` proves once, for every decoder that obeys two laws, that the cutting of a
  stream into reads is invisible on clean streams, that nothing is ever lost, duplicated or
  reordered on any stream, and exactly when the cutting can delay messages. Both codecs obey the
  laws (`RpcFrame.DecoderIsLawful`, `HttpCodecs.HttpIsLawful`), which gives `RpcStream.RpcDelivery`
  and `HttpCodecs.HttpDelivery`.
- **Codecs.** Encoding and decoding RPC messages are inverse in both directions
  (`RpcFrame.RoundTrip`, `RpcFrame.Canonicity`), and the code that works on indices does what the
  functions say (`RpcCodec.EncodePbData`, `RpcCodec.Decode`). A request is accepted by the HTTP
  decoder exactly if it is well-formed, and then it is decoded to what it means (`HttpCodecs.RequestRoundTrip`, `HttpCodecs.AcceptedIsWellFormed`).
- **Connections.** `TcpConnections.TcpConnection.MainServerLoop` refines the rounds of `Streams` for
  any sizes of reads and writes, on every stream, and says why it ends; `RpcDispatch.EndToEnd` follows
  a client's bytes to the server and the replies, right by `RpcDispatch.ReplyIsRight`, back into the
  client's map.
- **Asynchronous calls.** Hand-off safety over every interleaving, and no leak; completion exactly once
  and no lost wakeup for a caller that stays on its thread, which is exactly what they need (`AsyncChannel`).
- **Time.** The wheel is a map of last refreshes (`TimeWheel.AliveExactly`, `TimeWheel.DeathExactly`)
  and shuts down exactly the idle connections (`TimeWheel.ShutExactly`, `TimeWheel.IdleIsShut`);
  the timer fires what is due and misses no deadline under exact conditions (`Timers`).
- **Resources.** Stacks never overlap (`CoroutinePools.StacksApart`); log messages are conserved
  (`AsyncLogger.Conservation`) up to what the files hold (`LogFiles.FilesHoldThePushes`), flush and
  stop come to their end (`AsyncLogger.FlushReturns`, `AsyncLogger.StopDrains`), and files stay bounded
  under an exact condition (`LogRotation.BoundExactly`).

## What does not hold

Where a natural property fails, the model keeps the code as it is, shows an input or states the
exact condition.

- A method name with a dot, or an empty number, does not survive the wire (`RpcFrame.RoundTrip`).
- Messages behind malformed bytes may wait for the next read, depending on the cutting
  (`RpcStream.CuttingDelays` gives such streams, `Streams.FragmentationMatters` the exact condition).
- The smallest accepted RPC frame has 30 bytes (`RpcFrame.DecodeProgress`), four more than
  `kMinPacketLen` suggests.
- A read that exactly fills the buffer makes the connection read again before executing, so a
  complete request can wait for more bytes. A loop that waits has executed exactly the bytes up to the
  last read that left space (`TcpConnections.TcpConnection.MainServerLoop`,
  `TcpConnections.ServedClean`); for any message whose frame just fills the buffer, the loop parks with
  the request unexecuted (`TcpConnections.CompleteRequestWaits`).
- A rejected HTTP head is never consumed and blocks its connection (`HttpCodecs.RejectionBlocks`).
- A timer goes dead when its head is due in the millisecond of its adding or overdue when the alarm is
  re-armed: nothing fires any more until a head still ahead is added (`Timers.DueNowIsLost`,
  `Timers.OverdueIsLost`, `Timers.DeadTimer`; `Timers.OffStays` says exactly what revives it). A
  cancelled head holds back due events (`Timers.PassedOver`); deleting an event that is not pending
  erases the next later one (`Timers.DeletionExact`).
- A coroutine that is returned while running keeps its stack if and only if it is a pooled one
  (`CoroutinePools.ReturnExposes`, `CoroutinePools.PooledKept`); the stack of any other is handed out
  again (`CoroutinePools.CoroutinePool.LoseStack`).
- A log directory that already holds files, or a date that goes back, can spoil the size bound
  (`LogRotation.RestartOverfills`); `LogRotation.BoundSurvives` and `LogRotation.BoundExactly` say
  exactly when it survives.
- If the calling coroutine of an asynchronous call may be moved to another thread before it waits,
  `wait` races with the completion from every initial state (`AsyncChannel.MigrationBreaks`); it is safe
  exactly if the caller cannot leave its thread (`AsyncChannel.StayingIsNecessary`).

## Assumptions

- Sockets, the clock, the random device, the heap, protobuf messages and user services are
  parameters or unconstrained choices. File operations succeed.
- Indices and sizes are mathematical integers. The 16 MiB packet limit keeps frame arithmetic in
  range; buffers near 2 GiB are not covered.
- One `CallMethod` per channel, made by the coroutine that constructed it. That coroutine may be
  moved while parked outside `wait` (`src/net/reactor.cc:254-257`), and the results say which of them
  need it to stay.
- The wheel, the timer and the pool are each used from one thread at a time, or under their locks.
- The 64-bit clamping of `strtoll` needs no model: clamped values are beyond the body limit anyway.

## Model

| member | source | states |
|---|---|---|
| `Streams.FragmentationIndependence` | src/net/tcp/tcp_connection.cc:85-203 | For any decoder with the two laws: on a stream without malformed bytes, every cutting into reads delivers the messages of the one-piece parse and leaves exactly its undecoded tail |
| `Streams.FragmentationMatters` | src/net/tcp/tcp_connection.cc:176-203 | The exact limit of that: the delivered messages are the same for every cutting of a stream if and only if no message is left behind by a single execute over the whole stream (no message follows malformed bytes) |
| `Streams.RoundsConserve` | src/net/tcp/tcp_connection.cc:85-203 | On every stream and cutting, delivered messages plus what the buffer still parses to are the messages of the one-piece parse: delay is possible, loss, duplication and reordering are not |
| `Streams.DrainConserves` | src/net/tcp/tcp_connection.cc:176-193 | One execute loop delivers a first part of the messages of the buffered bytes and leaves the bytes that parse to the others |
| `Streams.ScanAppend` | src/net/tcp/tcp_connection.cc:176-203 | A stream can be cut anywhere: parsing the first part and then its rest with the second part gives the parse of the whole |
| `Streams.OneRoundIsLeast` | src/net/tcp/tcp_connection.cc:176-203 | Executing once over everything never delivers more than executing after every piece |
| `Streams.WireScan` | src/net/tcp/tcp_connection.cc:176-203 | A sequence of packets that each decode by themselves parses to exactly their messages |
| `Streams.WireDelivery` | src/net/tcp/tcp_connection.cc:85-203 | After every round exactly the complete packets have been delivered, in order, and the buffer holds what is left of the next one |
| `RpcFrame.RoundTrip` | src/rpc/rpc_codec.cc:94-150 | Decoding an encoded message gives it back and consumes exactly its frame, whatever follows, if and only if the number is not empty and the method has no dot |
| `RpcFrame.Canonicity` | src/rpc/rpc_codec.cc:152-277 | The bytes of any accepted frame are, byte for byte, the encoding of the message they decoded to; that message satisfies the condition of the round trip |
| `RpcFrame.DecodeProgress` | src/rpc/rpc_codec.cc:169-211 | A success removes at least 30 bytes and a failure on bad bytes at least one; an attempt that waits leaves nothing, or a start byte with fewer bytes than the packet limit, on which the next attempt waits too |
| `RpcFrame.StepAppend` | src/rpc/rpc_codec.cc:152-277 | An accepting or rejecting attempt is unchanged by appended bytes; a waiting one can be repeated on what it left with the new bytes behind |
| `RpcFrame.DecoderIsLawful` | src/rpc/rpc_codec.cc:152-277 | The resynchronising decoder obeys the laws under which the stream results hold |
| `RpcFrame.FrameStable` | src/rpc/rpc_codec.cc:186-277 | From a start byte on, a decision about a frame does not depend on the bytes behind it |
| `RpcFrame.SplitJoin` | src/rpc/rpc_codec.cc:250-269 | Splitting a full name at its last dot gives service and method back if and only if the service is not empty and the method is not empty and free of dots |
| `RpcFrame.FrameExample` | src/rpc/rpc_codec.cc:94-150 | All bytes of one frame: start, length, number, full name, error code, error text, payload, checksum, end |
| `RpcFrame.LengthWord` | src/rpc/rpc_codec.cc:186-204 | A start byte and a length word alone are refused if and only if the length is below 26 or above 16 MiB, and then one byte goes |
| `RpcFrame.RefusalDrops` | src/rpc/rpc_codec.cc:196-248 | A refusal drops a whole packet if and only if its length is possible and its end byte in place, and otherwise only the start byte |
| `RpcStream.RpcDelivery` | src/net/tcp/tcp_connection.cc:97-203 | Fragmentation independence for RPC: canonical messages with start-free bytes between and behind the frames, any cutting; after every round exactly the complete messages are delivered and the buffer is empty or holds the beginning of the next frame; in the end all are delivered and the buffer is empty |
| `RpcStream.PacketsDecode` | src/rpc/rpc_codec.cc:169-184 | Bytes without a start byte in front of a frame are skipped and the frame decoded in the same attempt |
| `RpcStream.CuttingDelays` | src/net/tcp/tcp_connection.cc:176-203 | Streams on which the cutting matters: behind a start byte with a length no packet has, any canonical message is not delivered when all arrives at once, and is when its frame arrives by itself |
| `Bytes.Int32RoundTrip` | src/rpc/rpc_codec.cc:25-29 | Every signed 32-bit value survives the network byte order, negative error codes included |
| `Bytes.Int32Canonical` | src/rpc/rpc_codec.cc:38-49 | Four wire bytes are the encoding of the number they are read as |
| `Bytes.NetworkOrder` | src/rpc/rpc_codec.cc:25-49 | The most significant byte comes first: comparing wire bytes one by one compares the numbers |
| `RpcCodec.EncodePbData` | src/rpc/rpc_codec.cc:94-150 | The write cursor through the frame produces exactly the specified frame; it fails exactly for an empty service or method and for oversized packets; an empty number is replaced first |
| `RpcCodec.NumberArrives` | src/rpc/rpc_codec.cc:101-106 | Whoever receives an encoded message reads the sender's number, or the generated one if the sender gave none, and everything else as sent |
| `RpcCodec.WriteField` | src/rpc/rpc_codec.cc:25-36 | A length and a string are laid down behind the cursor and nothing before it changes |
| `RpcCodec.Encode` | src/rpc/rpc_codec.cc:73-92 | A successful encoding appends the frame to the buffer; a failing one leaves the buffer unchanged |
| `RpcCodec.Decode` | src/rpc/rpc_codec.cc:152-277 | Decoding in place on the buffer indices does what the specified decoder says: the same bytes are removed, the same outcome, the same message |
| `RpcCodec.DecodePacket` | src/rpc/rpc_codec.cc:206-276 | One complete packet, from its end byte to the checksum, is accepted or refused as specified |
| `RpcCodec.FindLastDot` | src/rpc/rpc_codec.cc:250-257 | The search from the right finds the last dot |
| `RpcCodec.FindStart` | src/rpc/rpc_codec.cc:169-172 | The search stops at the first start byte, or at the end |
| `TcpBuffers.TcpBuffer.WriteToBuffer` | src/net/tcp/tcp_buffer.cc:40-47 | Appends at the end of the byte queue; without room the capacity becomes one and a half times what is needed |
| `TcpBuffers.TcpBuffer.ResizeBuffer` | src/net/tcp/tcp_buffer.cc:30-38 | Keeps the readable bytes, or as many as fit |
| `TcpBuffers.TcpBuffer.AdjustBuffer` | src/net/tcp/tcp_buffer.cc:63-75 | Compaction keeps the readable bytes; it happens exactly when the read index is past a third of the capacity, and then it is zero |
| `TcpBuffers.TcpBuffer.ReadFromBuffer` | src/net/tcp/tcp_buffer.cc:49-61 | Takes bytes off the front of the queue: result and remaining contents make up the old contents |
| `TcpBuffers.TcpBuffer.RecycleRead` | src/net/tcp/tcp_buffer.cc:87-95 | Drops bytes from the front; a count beyond the capacity changes nothing; one between the two, where no bytes are moved, crosses the indices |
| `TcpBuffers.TcpBuffer.RecycleWrite` | src/net/tcp/tcp_buffer.cc:97-105 | Makes the bytes a read put behind the write index readable |
| `TcpBuffers.TcpBuffer.GetBufferString` | src/net/tcp/tcp_buffer.cc:107-111 | A copy of the readable bytes |
| `TcpConnections.TcpConnection.Input` | src/net/tcp/tcp_connection.cc:97-174 | Every byte taken from the socket is in the buffer, in order, and is what the recorded reads got; without a time-out and connected, the coroutine goes on exactly when its last read left space, and parks exactly when nothing is left and every read filled its space |
| `TcpConnections.TcpConnection.ReadNext` | src/net/tcp/tcp_connection.cc:110-135 | One read: blocked exactly when it takes nothing, else recorded with the space it was offered and the bytes it got |
| `TcpConnections.TcpConnection.ReadOnce` | src/net/tcp/tcp_connection.cc:110-121 | One read, after growth if there is no room, appends what it read to the buffer |
| `TcpConnections.TcpConnection.Execute` | src/net/tcp/tcp_connection.cc:176-203 | Delivers exactly the messages of one drain of the buffer and leaves its rest; a server has appended one reply per message, a client has filed each |
| `TcpConnections.TcpConnection.ExecuteOne` | src/net/tcp/tcp_connection.cc:178-201 | One turn of the loop takes the first message of the drain and shortens the buffer, or ends the drain |
| `TcpConnections.TcpConnection.Output` | src/net/tcp/tcp_connection.cc:205-255 | For any partial writes, what was sent and what is still buffered make up all bytes ever encoded; it returns only with nothing left to send, over time, or when the connection is not live, and parks only in a write that blocks with something left; the state changes exactly if a shutdown was reported during a write |
| `TcpConnections.TcpConnection.WriteOnce` | src/net/tcp/tcp_connection.cc:222-244 | One write moves a prefix of the buffer to the socket; it blocks if and only if the socket takes nothing more |
| `TcpConnections.TcpConnection.MainServerLoop` | src/net/tcp/tcp_connection.cc:85-95 | On every stream and for any sizes of reads and writes: the loop ends only by parking, in a read with all input read, or in a write with the socket full and something left to send; the delivered requests and the bytes left over are those of the rounds model run on the turns of the recorded reads, a prefix of the parse of the received bytes; what was sent is a prefix of their replies; when a live loop waits for input, all replies are out, and on a clean stream the delivered requests are exactly those of all received bytes but the ones of the reads behind the last that left space |
| `TcpConnections.TcpConnection.ServeOnce` | src/net/tcp/tcp_connection.cc:85-95 | One turn of input, execute and output keeps the loop in step with the turns of its reads and a live connection without unsent bytes, or parks in the read or the write under exactly those conditions |
| `TcpConnections.TcpConnection.InputTurn` | src/net/tcp/tcp_connection.cc:97-174 | The reads of one turn are added to those that wait, or complete the next round |
| `TcpConnections.CompleteRequestWaits` | src/net/tcp/tcp_connection.cc:107-151 | A request that waits: for any canonical message whose frame just fills the buffer, the loop parks behind a read that filled its space, with the complete frame received, in the buffer, and not executed |
| `TcpConnections.ServedClean` | src/net/tcp/tcp_connection.cc:107-203 | On a clean stream, reads behind the last that left space are exactly what is not yet executed |
| `TcpConnections.LeftByFilling` | src/net/tcp/tcp_connection.cc:107-203 | A waiting loop has left a message of a clean stream behind if and only if its last read filled the space it was offered and a drain of the buffer yields a message |
| `TcpConnections.TurnsAccount` | src/net/tcp/tcp_connection.cc:107-151 | The bytes of the completed turns and those that wait are all bytes read |
| `TcpConnections.TcpConnection.ShutdownConnection` | src/net/tcp/tcp_connection.cc:271-282 | Half-closes a live connection, leaves others as they are |
| `TcpConnections.TcpConnection.GetResPackageData` | src/net/tcp/tcp_connection.cc:292-302 | Hands the reply with a number over, once |
| `TcpConnections.ReadKeepsAccount` | src/net/tcp/tcp_connection.cc:110-159 | Bytes read into the buffer keep the account: delivered messages and the parse of the buffer are the parse of everything received |
| `TcpConnections.DrainKeepsAccount` | src/net/tcp/tcp_connection.cc:176-203 | Executing keeps the account; on a clean stream nothing decodable stays behind |
| `TcpConnections.LeftBehind` | src/net/tcp/tcp_connection.cc:176-203 | On a clean stream the delivered messages fall short of the parse of everything received if and only if a drain of the buffer yields one |
| `RpcDispatch.RpcDispatcher.Dispatch` | src/rpc/rpc_dispatcher.cc:14-120 | Appends the frame of the specified reply to the out buffer, or nothing when it does not fit a packet |
| `RpcDispatch.RpcDispatcher.BuildReply` | src/rpc/rpc_dispatcher.cc:38-110 | The reply filled in field by field carries the number and names of the request, and the response of the method without an error if and only if service and method are registered, the request parses and the response serializes; otherwise no payload, and the code and text of the first step that fails |
| `RpcDispatch.ReplyIsRight` | src/rpc/rpc_dispatcher.cc:38-110 | The same of the reply that the streams and the client's map speak of |
| `RpcDispatch.ReplyIsCanonical` | src/rpc/rpc_dispatcher.cc:38-41 | A reply carries the number, service and method of its request, and encodes unless it is oversized |
| `RpcDispatch.ReplyStreamIsWire` | src/rpc/rpc_dispatcher.cc:38-120 | The bytes appended for any requests are exactly the frames of those replies that fit |
| `RpcDispatch.Correspondence` | src/net/tcp/tcp_connection.cc:194-200 | For requests with distinct numbers, the replies cut in any way decode to exactly those that fit a packet, in the order of the requests, one per request if all fit; the reply map holds each under the number of its request and nothing under any other |
| `RpcDispatch.EndToEnd` | src/net/tcp/tcp_connection.cc:176-203 | From the client's bytes to the client's map: requests with stray bytes between them, cut in any way on their way to the server, and its replies cut in any way on their way back; the map then holds, for each request whose reply fits, under its number, the response of its method or the error it met, and nothing else |
| `RpcDispatch.FitsExactly` | src/rpc/rpc_dispatcher.cc:38-120 | A reply is encoded if and only if it fits a packet |
| `RpcDispatch.CollectDistinct` | src/net/tcp/tcp_connection.cc:196-200 | With distinct numbers every reply is filed under its own; map insertion drops none |
| `RpcDispatch.FirstStays` | src/net/tcp/tcp_connection.cc:196-200 | A number that waits already keeps its reply, else the first reply with it stays, and no other number is filed |
| `AsyncChannel.HandOffSafety` | src/rpc/rpcasyncchannel.cc:20-24 | In every interleaving, wherever the caller runs, when the destructor has run and returned the worker coroutine, that coroutine is out of its callback and has yielded, and it is returned if and only if one was obtained |
| `AsyncChannel.CompletionOnce` | src/rpc/rpcasyncchannel.cc:120-135 | In every interleaving with a caller that stays on its thread, the closure runs at most once, and once when the completion is through; the caller is resumed at most once, only while parked in wait; wait never comes back from its park unfinished |
| `AsyncChannel.NoUseAfterDestruction` | src/rpc/rpcasyncchannel.cc:112-159 | No step that uses a member of the channel, failing and returning calls included, runs on a destroyed one |
| `AsyncChannel.LastReference` | src/rpc/rpcasyncchannel.cc:112-140 | The last reference is dropped by the user, at the end of the worker reactor's job or at the end of the completion, never by the worker coroutine |
| `AsyncChannel.Wakes` | src/rpc/rpcasyncchannel.cc:146-159 | No lost wakeup: from every state of the invariant with a caller that stays parked in wait, steps of the worker, of the two tasks and of the reactors alone lead to its being resumed once, with the call finished |
| `AsyncChannel.Arrives` | src/rpc/rpcasyncchannel.cc:112-135 | From every state of the invariant with the caller parked anywhere or ended, steps of the worker, of the two tasks and of the reactors alone lead to the start of the completion, through whatever else the queues hold |
| `AsyncChannel.NoLeak` | src/rpc/rpcasyncchannel.cc:20-24 | No leak: once the caller has ended and the user's pointer is gone, steps of the worker, of the two tasks and of the reactors alone lead to the destruction of the channel, wherever the caller has run |
| `AsyncChannel.WholeCall` | src/rpc/rpcasyncchannel.cc:25-159 | From every initial state with a caller that stays, some run makes the call, parks the caller in wait, resumes it, ends it and destroys the channel, with the completion through and the closure run once |
| `AsyncChannel.RefusedCall` | src/rpc/rpcasyncchannel.cc:25-110 | A refused call is finished at once, has no worker, and its channel goes with the user's pointer |
| `AsyncChannel.RunKeeps` | src/rpc/rpcasyncchannel.cc:112-159 | The invariant (control, queues, references and stages; with a caller that stays, the handshake of wait) holds along every run from a state where it holds |
| `AsyncChannel.NextKeeps` | src/rpc/rpcasyncchannel.cc:112-159 | Every step of every thread keeps the invariant |
| `AsyncChannel.NextKeepsCore` | src/rpc/rpcasyncchannel.cc:112-159 | Every step of every thread keeps the part of the invariant that holds wherever the caller runs |
| `AsyncChannel.NextKeepsWait` | src/rpc/rpcasyncchannel.cc:120-159 | Every step of every thread keeps the handshake of wait with a caller that stays |
| `AsyncChannel.InitInv` | src/rpc/rpcasyncchannel.cc:15-18 | Every initial state, for any number of threads and any queued foreign jobs, satisfies the invariant |
| `AsyncChannel.MigrationBreaks` | src/net/reactor.cc:254-257 | From every initial state with more than one thread and a caller that may be moved, for any queued foreign jobs, some run resumes a caller that is not parked in wait |
| `AsyncChannel.StayingIsNecessary` | src/net/reactor.cc:254-257 | From an initial state no run resumes a caller that is not parked in wait if and only if the caller cannot leave its thread: it may not be moved or there is one thread |
| `AsyncChannel.RunTaskKeeps` | src/net/reactor.cc:213-223 | Running the next queued job keeps the invariant, whichever job it is |
| `AsyncChannel.SwapKeeps` | src/net/reactor.cc:213-217 | Swapping the pending jobs out keeps the invariant |
| `AsyncChannel.CallSubmitKeeps` | src/net/tcp/io_thread.cc:143-161 | Handing the worker to any other thread keeps the invariant |
| `AsyncChannel.SubmitsElsewhere` | src/net/tcp/io_thread.cc:143-161 | The worker is handed to another thread whenever there is one |
| `AsyncChannel.WorkerPostKeeps` | src/rpc/rpcasyncchannel.cc:138-139 | Posting from the worker coroutine keeps the invariant |
| `AsyncChannel.PostAddKeeps` | src/rpc/rpcasyncchannel.cc:134-135 | Posting the completion to the origin keeps the invariant |
| `TimeWheel.AliveExactly` | src/net/tcp/tcp_connection_time_wheel.cc:25-34 | After any run a slot is alive exactly while a reference to it is in flight or its last refresh is less than N ticks ago, N being the bucket count |
| `TimeWheel.DeathExactly` | src/net/tcp/abstract_slot.h:17-22 | A slot dies exactly on the N-th tick after its last refresh with nothing in flight, or with the last local reference once the wheel has let go |
| `TimeWheel.BucketsAreTicks` | src/net/tcp/tcp_connection_time_wheel.cc:25-34 | Each bucket holds exactly the refreshes made during its own tick, in order, repetitions included |
| `TimeWheel.WheelIsWindow` | src/net/tcp/tcp_connection_time_wheel.cc:25-34 | The wheel holds a reference to a slot if and only if its last refresh is less than N ticks ago |
| `TimeWheel.IdleLifetime` | src/net/tcp/tcp_connection.cc:168-173 | A connection that sends nothing more lives through N - 1 ticks and dies on the N-th, whatever the others do |
| `TimeWheel.IdleIsShut` | src/net/tcp/tcp_connection_time_wheel.cc:25-29 | A connection that sends nothing more and is not disconnected is shut down, once, on the N-th tick and not earlier |
| `TimeWheel.ShutdownOnce` | src/net/tcp/abstract_slot.h:17-22 | In every run a connection is shut down at most once, and only when its slot is dead |
| `TimeWheel.ShutExactly` | src/net/tcp/abstract_slot.h:17-22 | Over every run, from the history alone: a connection is shut down, and then once, if and only if some step took its slot's last reference after the connection was registered and with no disconnection since |
| `TimeWheel.ConnsAreConnected` | src/net/tcp/abstract_slot.h:17-22 | A slot finds its connection if and only if that was registered and has not been disconnected since |
| `TimeWheel.TasksArePosts` | src/net/tcp/tcp_server.cc:234-240 | The main reactor's queue holds exactly the refreshes posted and not run, first come, first served |
| `TimeWheel.HeldIsHolds` | src/net/tcp/tcp_connection.cc:168-173 | The local references to a slot are its registration and the locks that found it alive, less the releases |
| `TimeWheel.ShutByDeath` | src/net/tcp/abstract_slot.h:17-22 | A step runs the shutdown action for a slot if and only if it takes its last reference while the connection exists, and then once |
| `TimeWheel.NoRevival` | src/net/tcp/tcp_connection.cc:169-172 | A dead slot can never be refreshed again |
| `TimeWheel.FarewellsExact` | src/net/tcp/tcp_connection_time_wheel.cc:26 | Destroying a bucket shuts down exactly the slots all of whose references it held, each once |
| `TimeWheel.SlotTable.DropAll` | src/net/tcp/tcp_connection_time_wheel.cc:26 | The element-by-element destruction does what the specification says to counts and shutdowns |
| `TimeWheel.SlotTable.Drop` | src/net/tcp/abstract_slot.h:17-22 | Dropping a reference lowers the count; the last one runs the action if the connection exists |
| `TimeWheel.TcpTimeWheel.constructor` | src/net/tcp/tcp_connection_time_wheel.cc:10-19 | As many empty buckets as configured |
| `TimeWheel.TcpTimeWheel.LoopFunc` | src/net/tcp/tcp_connection_time_wheel.cc:25-29 | Pops the oldest bucket with its references and pushes an empty one |
| `TimeWheel.TcpTimeWheel.Fresh` | src/net/tcp/tcp_connection_time_wheel.cc:31-34 | One more reference in the newest bucket |
| `TimeWheel.TcpServer.RunTask` | src/net/tcp/tcp_server.cc:234-240 | The queued lambda moves its reference from the queue into the wheel; the reset never drops the last one |
| `TimeWheel.TcpServer.FreshTcpConnection` | src/net/tcp/tcp_server.cc:234-240 | The queue takes its own reference, so the slot stays alive until the refresh has run |
| `TimeWheel.TcpServer.Lock` | src/net/tcp/tcp_connection.cc:169 | The weak pointer yields a reference if and only if one exists |
| `TimeWheel.TcpServer.Register` | src/net/tcp/tcp_connection.cc:58-65 | A new slot starts with one reference |
| `TimeWheel.TcpServer.Release` | src/net/tcp/tcp_connection.cc:169-172 | A local pointer going out of scope may be the last reference |
| `TimeWheel.TcpServer.Tick` | src/net/tcp/tcp_connection_time_wheel.cc:25-29 | The tick on the objects is the tick of the state machine; counts stay the number of references |
| `Timers.FiringExact` | src/net/timer.cc:128-137 | The fired entries are exactly those due if and only if no due entry is cancelled |
| `Timers.PassedOver` | src/net/timer.cc:128-135 | A due, live event is passed over if and only if a cancelled entry stands before it |
| `Timers.Timer.OnTimer` | src/net/timer.cc:115-152 | Fires the due prefix once each in deadline order, keeps the other entries, puts repeated events back at reading + interval, re-arms, and keeps the discipline (key = deadline, no event twice, none cancelled) |
| `Timers.Timer.Requeue` | src/net/timer.cc:140-145 | Exactly the repeated events go back in, each at a reading made during the call plus its interval |
| `Timers.Timer.TakeDue` | src/net/timer.cc:124-138 | The due entries leave the map, the others stay; without repetitions none fires twice |
| `Timers.DeletionExact` | src/net/timer.cc:61-79 | Deleting removes the event and nothing else if and only if it was pending or no deadline is later; otherwise the next later one is lost |
| `Timers.Timer.DelTimerEvent` | src/net/timer.cc:61-79 | Cancels the event and erases where the search stops; a pending event is gone afterwards and the discipline is kept |
| `Timers.Timer.Find` | src/net/timer.cc:65-73 | The search through the equal range finds the event's first entry, or ends behind the range |
| `Timers.Timer.AddTimerEvent` | src/net/timer.cc:41-59 | Inserts behind equal deadlines; re-arms exactly when the event becomes the head |
| `Timers.Timer.ResetArriveTime` | src/net/timer.cc:81-113 | Arms for the first deadline if it is ahead, disarms if it is now, does nothing if it is past |
| `Timers.NoMissedDeadline` | src/net/timer.cc:81-113 | In every run whose arming readings come before the head deadline, an armed deadline is never later than the earliest pending one, although adds behind the head and deletes do not arm |
| `Timers.HeadFires` | src/net/timer.cc:115-147 | A guarded deadline is met: the alarm can ring, and the call it makes once the deadline has come fires the head and exactly the live entries due in front of the first that is not |
| `Timers.AlarmIsADeadline` | src/net/timer.cc:81-113 | In any run at all, the alarm is never set to anything but the deadline of an event that was pending |
| `Timers.RearmGuards` | src/net/timer.cc:91-97 | After re-arming the first deadline is guarded if and only if it is ahead, and then the alarm is set to exactly that deadline, or past but guarded already |
| `Timers.FireGuards` | src/net/timer.cc:147 | After firing the next deadline is guarded if and only if the clock had not reached it |
| `Timers.AddGuards` | src/net/timer.cc:43-58 | A new head is guarded if and only if it was armed in time or an earlier alarm is set |
| `Timers.OffStays` | src/net/timer.cc:81-113 | With the alarm off, a step that can happen leaves it off unless it adds a new head that is still ahead when armed |
| `Timers.DeadTimer` | src/net/timer.cc:81-152 | Once the alarm is off with events pending, nothing ever fires: in every run without such a new head the alarm stays off and each event not deleted stays pending for ever |
| `Timers.DueNowIsLost` | src/net/timer.cc:97-108 | A head due in the millisecond of its adding disarms the alarm and is never fired, nor is any event behind it, in every run without a new head armed in time |
| `Timers.OverdueIsLost` | src/net/timer.cc:93-96 | A call of the timer leaves the alarm off if and only if it re-arms after its next head is due; from then on no event fires in any run without a new head armed in time |
| `Timers.StaysWakeful` | src/net/timer.cc:41-152 | Each call with readings in time keeps order and guard |
| `Timers.InsertKeeps` | src/net/timer.cc:52 | Insertion keeps the order and adds exactly the one entry |
| `Timers.InsertsBehind` | src/net/timer.cc:52 | A new entry stands behind all that are due no later and in front of all that are due later, so equal deadlines keep their order |
| `Timers.TimerEvent.ResetTime` | src/net/timer.h:25-28 | A new deadline one interval from now, and no longer cancelled |
| `CoroutinePools.StacksApart` | src/coroutine/coroutine_pool.cc:37-71 | No two coroutines share a byte of stack: not among those handed out, nor with pooled ones returned while still running |
| `CoroutinePools.CoroutinePool.GetCoroutineInstanse` | src/coroutine/coroutine_pool.cc:37-58 | The result is not handed out already and accepts a callback; the lowest pooled coroutine neither taken nor running is preferred, then the first free block of the first further arena that has one; a new arena, and its first block, if and only if there is neither |
| `CoroutinePools.CoroutinePool.ReturnCoroutine` | src/coroutine/coroutine_pool.cc:60-71 | Exactly the returned coroutine stops being outstanding: a pooled one is no longer taken, the block of another is free |
| `CoroutinePools.CoroutinePool.constructor` | src/coroutine/coroutine_pool.cc:19-33 | The pooled coroutines sit on the blocks of the first arena, all of them taken |
| `CoroutinePools.CoroutinePool.TakePooled` | src/coroutine/coroutine_pool.cc:40-47 | The first coroutine that is neither taken nor running |
| `CoroutinePools.CoroutinePool.TakeBlock` | src/coroutine/coroutine_pool.cc:49-55 | A coroutine on the first free block of the first further arena that has one, or none when all are taken |
| `CoroutinePools.CoroutinePool.AddArena` | src/coroutine/coroutine_pool.cc:56 | A new arena lies apart from all others |
| `CoroutinePools.Memory.GetBlock` | src/coroutine/memory.cc:44-60 | The first free block is taken and counted; nothing if and only if all are taken |
| `CoroutinePools.Memory.BackBlock` | src/coroutine/memory.cc:62-72 | Frees the block the address lies in; the count stays right if and only if that block was taken |
| `CoroutinePools.HomeArena` | src/coroutine/memory.cc:74-76 | A stack starts in its own arena and in no other, so only that one takes it back |
| `CoroutinePools.ReturnExposes` | src/coroutine/coroutine_pool.cc:60-71 | After its return, running or not, a free block covers a coroutine's stack if and only if its index is -1; the pool still knows it if and only if it is pooled |
| `CoroutinePools.CoroutinePool.LoseStackAtOnce` | src/coroutine/coroutine_pool.cc:37-71 | With the pool busy and no free block before its own, the very next coroutine handed out after the return of an overflow coroutine has its stack |
| `CoroutinePools.CoroutinePool.LoseStack` | src/coroutine/coroutine_pool.cc:37-71 | From every state of the pool, handing out coroutines leads to one with the stack of the returned overflow coroutine |
| `CoroutinePools.PooledKept` | src/coroutine/coroutine_pool.cc:41-63 | A pooled coroutine returned while running keeps its stack: in every later state of the pool all other coroutines handed out are apart from it |
| `CoroutinePools.Newcomer` | src/coroutine/coroutine_pool.cc:49-57 | A coroutine made on a free block is none of those known |
| `CoroutinePools.Coroutine.SetCallBack` | src/coroutine/coroutine.cc:81-107 | Refused exactly inside the callback; the stack pointer becomes the highest multiple of 16 within the stack |
| `CoroutinePools.Heap.Malloc` | src/coroutine/memory.cc:11 | A range apart from all handed out before |
| `CoroutinePools.Memory.constructor` | src/coroutine/memory.cc:9-20 | All blocks free, none counted |
| `Strings.SplitStrToVector` | src/comm/string_util.cc:26-47 | The loop yields the non-empty stretches between the separators, in order |
| `Strings.PiecesAreFree` | src/comm/string_util.cc:33-46 | No piece is empty or contains the separator |
| `Strings.SplitJoin` | src/comm/string_util.cc:26-47 | Splitting undoes joining, for pieces that are not empty and free of a separator that cannot overlap itself |
| `Strings.SplitStrToMap` | src/comm/string_util.cc:7-24 | The loop assigns the pair of each item with a key, later ones overwriting |
| `Strings.MapRoundTrip` | src/comm/string_util.cc:7-24 | Printing pairs and splitting the text gives the map of the assignments |
| `Strings.PairExactly` | src/comm/string_util.cc:13-22 | An item without a joiner or a key is no pair; any other is what stands around its first joiner |
| `Strings.AssignedLast` | src/comm/string_util.cc:7-24 | The last pair with a key decides, and keys without a pair keep what they had |
| `Strings.FindAppend` | src/net/http/http_codec.cc:104-111 | What is found stays where it is when bytes are appended |
| `Strings.TrimPads` | src/net/http/http_codec.cc:18-25 | Blanks on either side are removed, and nothing else |
| `Strings.CaseTables` | src/net/http/http_codec.cc:27-43 | The letters change case and no other byte changes |
| `Strings.SameInBothCases` | src/net/http/http_codec.cc:27-43 | Two texts agree in lower case if and only if they agree in upper case |
| `HttpHeaders.HeaderRoundTrip` | src/net/http/http_codec.cc:247-272 | Parsing a printed header gives the same map, in whichever order it was printed, for lower-case trimmed keys without colon and trimmed values, both without line breaks |
| `HttpHeaders.LineRoundTrip` | src/net/http/http_codec.cc:255-270 | One printed line is read back as its key and value |
| `HttpHeaders.LineParses` | src/net/http/http_codec.cc:255-270 | A name in any case before the first colon and a value with any padding are read back, the value trimmed |
| `HttpHeaders.LineExactly` | src/net/http/http_codec.cc:255-270 | Every line: refused without a colon or with a blank name in front of the first one; else the name and the value around it, trimmed |
| `HttpHeaders.LastLineDecides` | src/net/http/http_codec.cc:254-271 | Names in any case denote the same entry, the last line with a name decides, and there is no other entry |
| `HttpHeaders.PrintedLength` | src/net/http/http_define.cc:47-53 | All ways of printing a map are equally long |
| `HttpHeaders.HttpHeaderComm.ToHttpString` | src/net/http/http_define.cc:60-66 | Prints every entry of the map once, keys ascending |
| `HttpHeaders.OneListing` | src/net/http/http_define.cc:60-66 | Printing is a function of the map: its entries have one ascending order |
| `HttpHeaders.HttpHeaderComm.GetHeaderTotalLength` | src/net/http/http_define.cc:47-53 | The length of what printing yields |
| `HttpHeaders.HttpHeaderComm.SetKeyValue` | src/net/http/http_define.cc:55-58 | Afterwards every spelling of the key finds the value, and other keys what they found before |
| `HttpCodecs.HttpDelivery` | src/net/tcp/tcp_connection.cc:176-203 | HTTP pipelining: well-formed requests, with header names in any case and values padded in any way, cut into reads in any way, are delivered exactly, in order, each as soon as it is complete, and the buffer holds the beginning of the next |
| `HttpCodecs.RequestRoundTrip` | src/net/http/http_codec.cc:90-183 | A well-formed request (a first line of three words, header lines with a name each, a framed body) decodes to what it means and exactly its bytes are consumed, whatever follows |
| `HttpCodecs.AcceptedIsWellFormed` | src/net/http/http_codec.cc:90-183 | The converse: whatever the decoder accepts is, byte for byte, a well-formed request and means what was decoded, so the round trip covers every request that is accepted |
| `HttpCodecs.OutcomeStays` | src/net/http/http_codec.cc:90-183 | Neither a decoded request nor a rejection is changed by appended bytes |
| `HttpCodecs.RejectedExactly` | src/net/http/http_codec.cc:97-165 | A complete head is rejected if and only if no continuation makes a request of it |
| `HttpCodecs.HttpIsLawful` | src/net/http/http_codec.cc:90-183 | The decoder takes nothing or exactly one request and obeys the laws under which the stream results hold |
| `HttpCodecs.RejectionBlocks` | src/net/http/http_codec.cc:118-156 | A rejected head blocks the connection for good: no later byte yields a request and nothing is consumed |
| `HttpCodecs.HeadEnd` | src/net/http/http_codec.cc:111-116 | The first empty line is the one behind the joined lines |
| `HttpCodecs.FirstLineParses` | src/net/http/http_codec.cc:185-245 | A first line of three words is read back as verb, target and version |
| `HttpCodecs.RequestLineExactly` | src/net/http/http_codec.cc:185-215 | A first line is accepted if and only if it has exactly three words, a known method and a known version, in any case of letters |
| `HttpCodecs.VerbExactly` | src/net/http/http_codec.cc:196-215 | Exactly GET and POST, and versions 1.0 and 1.1, are known, in any case of letters |
| `HttpCodecs.SpaceExactly` | src/net/http/http_codec.cc:187-195 | Words are separated by exactly the six bytes of white space |
| `HttpCodecs.TokensOf` | src/net/http/http_codec.cc:187-195 | White space in front of a word is skipped, the word goes up to the next white space, and nothing is left of white space alone |
| `HttpCodecs.LengthRoundTrip` | src/net/http/http_codec.cc:146-155 | A printed length is accepted if and only if it is at most 16 MiB |
| `HttpCodecs.LengthExactly` | src/net/http/http_codec.cc:143-160 | A Content-Length is read as a number if and only if it is white space, an optional sign and the digits of a number within 16 MiB, up to a zero byte; an empty text is no body |
| `HttpCodecs.FramedExactly` | src/net/http/http_codec.cc:132-160 | The header frames a body if and only if it has no transfer coding but identity and its Content-Length announces the length, or there is none and no body |
| `HttpCodecs.NoLengthNoBody` | src/net/http/http_codec.cc:143-172 | A request with neither a transfer coding nor a Content-Length has an empty body and ends with its head, whatever follows |
| `HttpCodecs.TargetRoundTrip` | src/net/http/http_codec.cc:217-243 | Path and query of a target come back as they were put together, with a slash in front of the path |
| `HttpCodecs.PathRoundTrip` | src/net/http/http_codec.cc:229-243 | Without a query the whole target is the path, with a slash in front, and there are no parameters |
| `HttpCodecs.FragmentDropped` | src/net/http/http_codec.cc:217-243 | A fragment behind the target changes nothing |
| `HttpCodecs.AuthorityDropped` | src/net/http/http_codec.cc:217-243 | An absolute target means what its path and query mean |
| `HttpCodecs.QueryRoundTrip` | src/net/http/http_codec.cc:239-243 | Query parameters come back as a map |
| `HttpMessages.HttpCodec.Decode` | src/net/http/http_codec.cc:90-183 | Decoding into a fresh request object does what the specified decoder says: outcome, fields, and bytes removed |
| `HttpMessages.HttpCodec.DecodeInto` | src/net/http/http_codec.cc:103-172 | The stages of decoding, from the line end to the body, decide as specified |
| `HttpMessages.HttpCodec.ParseHttpRequestLine` | src/net/http/http_codec.cc:185-245 | Accepts exactly the specified lines and fills verb, version, path, query and parameters |
| `HttpMessages.HttpCodec.ParseHttpRequestHeader` | src/net/http/http_codec.cc:247-272 | Accepts exactly the specified header blocks and adds their entries to the map |
| `HttpMessages.HttpCodec.Encode` | src/net/http/http_codec.cc:46-88 | Completes version, reason, length and connection option and appends the response |
| `HttpMessages.ResponseFraming` | src/net/http/http_codec.cc:65-79 | From an encoded response a client that reads to the empty line and then as many bytes as Content-Length says recovers the header and exactly the body |
| `HttpMessages.ReasonPhrases` | src/net/http/http_define.cc:25-40 | The phrase for each code the framework uses, and Unknown for every other |
| `HttpMessages.StatusLineReads` | src/net/http/http_codec.cc:73-76 | A status line is read back as version, code and phrase |
| `HttpMessages.CompletedMeans` | src/net/http/http_codec.cc:65-70 | The header that is sent has the true length, a connection option that is kept if one was set, and all other entries unchanged |
| `HttpMessages.PlainResponse` | src/net/http/http_codec.cc:65-79 | All bytes of a response without a header of its own, for any body |
| `AsyncLogger.Conservation` | src/comm/log.cc:103-191 | In every interleaving, the messages accepted are those written, followed by the rest of the batch in hand and the queue, in push order |
| `AsyncLogger.FlushIsComplete` | src/comm/log.cc:120-128 | When a thread returns from flush, everything accepted so far has been written |
| `AsyncLogger.ExitIsComplete` | src/comm/log.cc:153-158 | The writer ends only after stop, with everything ever accepted written |
| `AsyncLogger.NoLostWakeup` | src/comm/log.cc:117-190 | A writer asleep with work or an order to stop has a notification coming; a flusher asleep has unwritten batches to wait for |
| `AsyncLogger.StopDrains` | src/comm/log.cc:130-143 | From every stopped state the writer's own steps lead to its end with everything accepted written |
| `AsyncLogger.FlushReturns` | src/comm/log.cc:120-128 | From every reachable state with a thread in flush, asleep or not, the writer's own steps and then that thread's test lead to its return with everything accepted written |
| `AsyncLogger.PushThenFlush` | src/comm/log.cc:103-128 | What is pushed before stop can be flushed at once: the flush returns with the batch written behind everything accepted before it |
| `AsyncLogger.AlwaysInv` | src/comm/log.cc:145-201 | The invariant holds in every run; the logger is stopping if and only if stop was called |
| `LogRotation.FilesBounded` | src/comm/log.cc:203-248 | From an empty directory with dates that never go back, every file is within the limit or holds a single message |
| `LogRotation.FilesHoldWhatWasSent` | src/comm/log.cc:164-179 | Every file is what it was, with the messages sent to it behind, in order, for any directory and any dates |
| `LogRotation.FilesInOrder` | src/comm/log.cc:203-248 | From an empty directory with dates that never go back, and for any limit, later messages go to files with later names |
| `LogRotation.FilesReadBack` | src/comm/log.cc:164-248 | Under the same conditions, reading all files in the order of date and number gives the messages written, in order, each once |
| `LogRotation.NoLimitOneFile` | src/comm/log.cc:225-241 | Without a limit there is one file per date, from any directory and with any dates |
| `LogRotation.RoomIsFirst` | src/comm/log.cc:213-233 | The number found is the first from the start on whose file is missing or below the limit |
| `LogRotation.LoggedAtEnd` | src/comm/log.cc:203-248 | With a date that does not go back, the writer stays at the last file and makes at most one new file, behind all others |
| `LogRotation.BoundSurvives` | src/comm/log.cc:203-248 | For any bounded directory and any date, one message leaves the directory bounded if and only if the file rotation starts from, or the next one with room, takes the message |
| `LogRotation.BoundExactly` | src/comm/log.cc:203-248 | Over whole runs, with any dates: the directory is bounded at the end if and only if that held at every message |
| `LogRotation.LoggedWhere` | src/comm/log.cc:203-248 | The file a message goes to takes it if and only if that condition holds |
| `LogRotation.RestartOverfills` | src/comm/log.cc:236-248 | A directory with two partly filled files where it fails: rotation opens the second without looking at its size again |
| `LogRotation.LoggedFine` | src/comm/log.cc:164-174 | Writing at the end of the files keeps the bound |
| `LogRotation.LogWriter.OpenLogFile` | src/comm/log.cc:203-234 | The loop ends at the first number whose file is missing or below the limit |
| `LogRotation.LogWriter.RotateIfNeeded` | src/comm/log.cc:236-248 | Goes on to the next number exactly when the message does not fit a file that is not empty |
| `LogRotation.LogWriter.Write` | src/comm/log.cc:164-179 | One message: empty ones are skipped, others go to the file the specification names |
| `LogFiles.FilesHoldThePushes` | src/comm/log.cc:103-248 | From the producers to the files: in every interleaving, with dates that never go back, the files of a directory that was empty, read in the order of date and number, hold the accepted messages in push order, but for those of the batch in hand and the queue; none is missing when a flush returns or the writer has ended |
| `MsgReq.MsgReqUtil.GenMsgNumber` | src/comm/msg_req.cc:17-52 | Without a draw the number grows by one in place; a failed draw answers nothing and keeps the old number; a drawn one has random digits of the configured length |
| `MsgReq.DigitOf` | src/comm/msg_req.cc:33-34 | A random byte becomes the last decimal digit of its value |
| `MsgReq.MsgReqUtil.Increment` | src/comm/msg_req.cc:40-49 | The carry loop stays inside the string and yields the successor |
| `MsgReq.NextIsSuccessor` | src/comm/msg_req.cc:40-49 | The successor has the same length and a value greater by one |
| `MsgReq.CarryIsNext` | src/comm/msg_req.cc:40-49 | Raising the last digit that is not a nine and clearing the nines behind it is the successor |
| `MsgReq.NumbersDistinct` | src/comm/msg_req.cc:17-52 | All numbers between two draws differ and have the same length, and there are no more than that length allows |
| `Decimals.DecimalValue` | src/net/http/http_codec.cc:65-66 | A printed number has the value it was printed from |
| `IoThreads.FairTurns` | src/net/tcp/io_thread.cc:120-125 | Among any N connections in a row each of the N threads gets exactly one |
| `IoThreads.IOThreadPool.GetIOThread` | src/net/tcp/io_thread.cc:120-125 | The k-th call answers the thread of the k-th turn |
| `IoThreads.IOThreadPool.PickOther` | src/net/tcp/io_thread.cc:143-160 | A thread that exists and, with self false and more than one thread, is not the calling one |
| `IoThreads.PickThread` | src/net/tcp/io_thread.cc:151-158 | The chosen thread exists and, with more than one, is not the caller's |

## Left out

- TcpConnections.TcpConnection.Input: does not model the end of the stream and read errors, because
  the code then parks its coroutine for good on a closed descriptor.
- TcpConnections.TcpConnection.MainServerLoop: covers RPC connections; for HTTP the loop is covered by
  the stream results alone, since servlets are not part of this model.
- TcpConnections.TcpConnection.Execute: files replies as values, not as shared pointers.
- RpcDispatch.RpcDispatcher.Dispatch: does not model null service pointers and the run-time record of
  the current coroutine.
- Timers.Timer.OnTimer: returns the callbacks to run instead of running them; what they do to the
  timer are further calls.
- Timers.NoMissedDeadline: takes the expiry of the operating-system timer as a step that may come at
  any time, because the kernel is not part of this model.
- TcpBuffers.TcpBuffer.RecycleRead: does not cover a count behind the readable bytes after which the code
  would copy a negative number of bytes, which is undefined; no caller passes one.
- HttpMessages.HttpCodec.Decode: says nothing about the fields of a request that was not decoded.
- LogRotation.LogWriter.OpenLogFile: does not model failing file operations.
- AsyncChannel.CompletionOnce: leaves out the early return of `wait` in a main coroutine, which
  `CallMethod` has already refused.
- `CoroutineMutex` (`src/net/mutex.cc`): unused by the framework; hand-off leaves the lock free, so
  mutual exclusion does not hold.
- Registration of descriptors with the reactor across threads (`src/net/reactor.cc:81-107`).
- `clearClient` and concurrent shutdowns: checking and setting the state are separate steps there.
- `TcpClient::sendAndRecv` with its reconnects, ZooKeeper, system call hooks and the register switch of
  coroutines.
- The dispatch loop of `Logger` in front of `AsyncLogger` (`src/comm/log.cc:315-346`).
- Configuration, signals, addresses, servlets, the generator and its templates: plumbing with easy
  properties only.
- TcpConnections.TcpConnection.Output: bounds by a parameter of the socket how many writes return before
  one blocks, since the code retries writes that take nothing without limit; and the over-time flag is
  constant during a call.
