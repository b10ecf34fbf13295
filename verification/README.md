# HyperMuduo: a verified model of its core

HyperMuduo is a reactor network library in C++: event loops, one per thread, poll channels, run timers and
exchange tasks; a server hands connections to worker loops; a codec frames protobuf messages. This project
models the parts of it whose behaviour is hardest to see from the code and proves what they keep. Kernel calls
(`write`, `readv`, `poll`, `epoll_wait`, `timerfd`, `eventfd`) are arbitrary answers within their contracts.
`dafny verify dfyconfig.toml` checks everything.

The main results:

- **Framing** (`Handler.ChunkedDelivery`, `Handler.WholeStream`, `Streams.EveryFrameOnce`). However an encoded
  stream is cut into chunks, exactly the messages of its complete frames are dispatched, once and in order, and
  the buffer holds exactly the bytes of the unfinished frame. `Codec.RoundTrip` and `Codec.DecodeIsSound` are
  inverse to each other.
- **Faults in a stream** (`Handler.OneFrameCorrupted`, `Streams.NoneWaiting`, `Streams.CatchesUp`). `OnMessage`
  stops at every error, so "exactly the complete frames are dispatched" fails once a frame does not decode: complete
  frames behind it wait in the buffer for another read, and at end of file they are never dispatched
  (`Streams.GoodBehindBad`). After a read none is left waiting if and only if all the frames that waited for it, but
  the last, decode. None is lost or reordered, and each fault costs at most one further read. A length out of
  range is worse: it throws away whatever has arrived, so what is dispatched depends on the cutting
  (`Handler.CuttingMatters`, `Handler.OversizedMessage`).
- **Error detection** (`Codec.OneByteCorrupted`, `Codec.TwoBytesCorrupted`). One changed byte is always
  noticed. Two changed bytes escape if and only if the changes are opposite and a multiple of 65521 positions
  apart. This rests on the primality of 65521 and the closed form of Adler-32 (sections 2.2 and 8.2 of RFC 1950).
- **Buffer** (`Buffers.PerformAll`, `Buffers.MakeSpaceStaysInside`). Every sequence of calls on two buffers, `swap`
  included, is a sequence of operations on two byte strings. The unsigned `read_index_ - CHEAP_PREPEND` in
  `makeSpace` wraps once a `prepend` has used the reserve; the cursors then stay inside the vector if and only if
  writable + read index is at least 8. `Buffers.BoundaryIsReachable` gets there from default buffers, and `swap`
  carries it on to another one; `Buffers.SafeWithoutPrepend` shows that it takes a `prepend`.
- **Timers** (`TimerQueue.TimerQueue.ExecuteAll`, `EagerTimers.PassIsExact`, `EagerTimers.PassRestarts`,
  `EagerTimers.CancelIsFinal`). The heap with lazy deletion, its map and its timerfd refine a set of live timers from
  which a cancelled timer is gone at once, whatever callbacks add or cancel. A due timer fires in a pass if and only
  if no earlier callback of the pass cancels it, and lives on if and only if it is repeated and neither its own
  callback nor a later one cancels it. A cancel is final if and only if it does not overtake the queued insertion of
  its timer. A timer at or before the clock's epoch can silence a queue for good
  (`TimerQueue.TimerQueue.ExecuteTimed`).
- **Task queue** (`TaskQueue.TasksConserved`, `TaskQueue.NoLostWakeup`). In every interleaving tasks are executed in
  lock order, none lost or doubled, and no wakeup is lost, except for tasks the loop thread queued before it
  entered `loop()`; `TaskQueue.EarlyTaskSleeps` shows that exception. From every state all tasks pushed can get
  run (`TaskQueue.AllTasksRun`).
- **Life cycle** (`Server.LifeCycle`, `Server.ReadCallbackOnlyWhenOpen`, `Progress.LifeCanComplete`). Over every
  interleaving of a base loop and any worker loops, with either poller, each connection is established, closed,
  removed and destroyed, in this order, each at most once and on the right loop, and no `abort` is reached. And from
  every state every life can be completed: end of file closes a connection, and no loop is ever stuck.
- **Output** (`Connection.Conservation`, `Connection.TcpConnection.PerformAll`). For any mix of sends, caller's buffers in
  any state, writable events, direct encoding and closing: what the socket took, followed by the send buffer, is
  everything submitted, in order, if and only if the send buffer was never sent to itself while it had contents.
  Every run fits as long as callers leave the reserve of their buffers alone (`Connection.AlwaysFits`); a caller who
  prepends a header to a full buffer and sends it breaks the connection's next send (`Connection.HeaderBreaks`).
- **End to end** (`EndToEnd.Delivered`, `EndToEnd.MessagesDelivered`). Whatever mix of work submits the frames of some
  messages, and however what the socket took is cut into reads, the peer dispatches exactly the messages whose
  frames have arrived; all others are, byte for byte, in its buffer, on the way or in the send buffer.
- **Shutdown** (`Shutdown.HalfClosedIff`). The socket is half-closed if and only if `shutdownInLoop` was called
  directly on a connected connection with no write pending.

Where the code and the repository's own notes disagree, the model follows the code. `README.md:689` lists the
half-close of `shutdown()` as done, but `shutdown()` sets `Disconnecting` before `shutdownInLoop` tests for
`Connected`, so it never half-closes (`Shutdown.ShutdownNeverHalfCloses`). `README.md:690` lists all four channel
callbacks of a connection as bound, but the constructor binds only the read callback
(`net/TcpConnection.cpp:30-32`); so `handleWritable` is a step that may happen, and nothing is claimed about when.

## Files

| file | contents |
|---|---|
| Bytes, Adler | words in network order; the checksum and what it detects |
| Buffers | cursor arithmetic and the buffer class |
| Streams, Codec, Handler | chunked delivery for any framing decoder; the codec; the dispatch loop |
| Connection, States, Shutdown | the output side of a connection; its states; half-close |
| EndToEnd | from sends to dispatched messages |
| Events, Poller | event bits and their translation; the `poll` array |
| Server, Progress, TaskQueue, LoopPool | connection life cycle, safety and progress; loop tasks and wakeups; round robin |
| Entries, EagerTimers, TimerQueue | heap entries; the timers as users see them; the queue that refines them |

## Model

| member | source | states |
|---|---|---|
| `Bytes.WordRoundTrip` | net/protobuf/Codec.cpp:88-88 | A word written in network order reads back as itself. |
| `Bytes.BytesRoundTrip` | net/protobuf/Codec.cpp:26-28 | Four bytes read as a word are the bytes that word is written as, so a changed header or trailer is a changed number. |
| `Bytes.NetworkOrder` | net/protobuf/Codec.cpp:88-88 | Words compare as their bytes do, the first byte most significant: network order, and no other bijection. |
| `Adler.ClosedForm` | net/protobuf/Codec.cpp:110-112 | The two rolling sums, reduced at every byte, equal the plain and the position-weighted sum of RFC 1950 reduced once. |
| `Adler.ChecksumWord` | net/protobuf/Codec.cpp:110-112 | The checksum word has the weighted sum modulo 65521 in its upper half and the plain one in its lower. |
| `Adler.KnownValues` | net/protobuf/Codec.cpp:110-112 | The checksums of nothing, of "a" and of "abc" are 1, 0x00620062 and 0x024d0127. |
| `Adler.Euclid` | net/protobuf/Codec.cpp:110-112 | A multiple of 65521 stays one when a factor below 256 is cancelled: 65521 is prime. |
| `Adler.SingleByteDetected` | net/protobuf/Codec.cpp:110-112 | Changing any one byte of any string changes its checksum. |
| `Adler.TwoBytesDetected` | net/protobuf/Codec.cpp:110-112 | Changing two bytes leaves the checksum the same if and only if the changes are opposite and a multiple of 65521 positions apart. |
| `Adler.NearbyPairDetected` | net/protobuf/Codec.cpp:110-112 | No two changes less than 65521 positions apart escape. |
| `Buffers.MakeSpaceStaysInside` | net/Buffer.cpp:80-90 | With the wrapping subtraction as written, `makeSpace` leaves its cursors inside the vector if and only if writable + read index is at least 8; then there is room and nothing readable is lost. |
| `Buffers.GrowsWhenNeeded` | net/Buffer.cpp:73-90 | With the reserve intact the vector grows exactly when contents, new bytes and reserve do not fit, and then to just behind the new bytes. |
| `Buffers.DrainedHeals` | net/Buffer.cpp:39-49 | A drained buffer has its reserve back, whatever used it before: anything fits again. |
| `Buffers.PrependUndone` | net/Buffer.cpp:92-100 | A prepend within the reserve puts its bytes in front, and retrieving them undoes it; beyond the reserve nothing happens. |
| `Buffers.FirstInFirstOut` | net/Buffer.cpp:39-67 | Appended bytes come out behind what was there; retrieving drops just a prefix. |
| `Buffers.ScatterRead` | net/Buffer.cpp:123-130 | A read may bring up to the writable bytes and 65536 more. |
| `Buffers.BoundaryIsReachable` | net/Buffer.cpp:80-120 | Filling a default buffer and prepending one to eight bytes leads, through a swap, to another buffer on which the next append leaves the vector. |
| `Buffers.SafeWithoutPrepend` | net/Buffer.cpp:39-157 | Over two buffers with swaps, without a prepend the condition holds through every run, so no operation can leave either vector. |
| `Buffers.StepConserved` | net/Buffer.cpp:63-157 | One operation that adds, makes room or writes out: bytes sent followed by the new contents are the old contents followed by the bytes added. |
| `Buffers.StreamConserved` | net/Buffer.cpp:63-157 | Over any run of those on two buffers with any short counts and any swaps, each of the two streams is conserved and follows its storage. |
| `Buffers.Buffer.constructor` | net/Buffer.cpp:10-13 | A new buffer is empty, with eight bytes in reserve. |
| `Buffers.Buffer.Retrieve` | net/Buffer.cpp:39-45 | Drops a prefix of the contents, or everything when asked for more than there is. |
| `Buffers.Buffer.RetrieveAll` | net/Buffer.cpp:47-49 | Empties the buffer and restores the reserve. |
| `Buffers.Buffer.RetrieveAsString` | net/Buffer.cpp:51-55 | The string returned and the remaining contents are the old contents; asked for more, the buffer is empty and the string goes on behind the contents. |
| `Buffers.Buffer.Append` | net/Buffer.cpp:63-67 | The contents grow by exactly the given bytes, through compaction or growth. |
| `Buffers.Buffer.EnsureWritable` | net/Buffer.cpp:73-78 | Room for the length, contents unchanged. |
| `Buffers.Buffer.MakeSpace` | net/Buffer.cpp:80-90 | Compaction or growth, decided by the wrapping expression, keeps the contents. |
| `Buffers.Buffer.MoveDown` | net/Buffer.cpp:83-84 | The overlapping ascending move puts the readable bytes at the start of the payload area. |
| `Buffers.Buffer.Prepend` | net/Buffer.cpp:92-100 | Puts bytes in front of the contents when the reserve is large enough, otherwise changes nothing. |
| `Buffers.Buffer.HasWritten` | net/Buffer.cpp:110-112 | Publishes the bytes written behind the cursor; the buffer stays valid if and only if there was room for them. |
| `Buffers.Buffer.Swap` | net/Buffer.cpp:114-120 | Exchanges contents and cursors of two buffers. |
| `Buffers.Buffer.ReadFd` | net/Buffer.cpp:122-144 | Any number of bytes up to writable + 65536, split over two regions, ends up behind the old contents in order; an error changes nothing. |
| `Buffers.Buffer.WriteFd` | net/Buffer.cpp:146-157 | What was written, followed by the remaining contents, is the old contents. |
| `Buffers.Buffer.Perform` | net/Buffer.cpp:39-157 | Each call has on the contents the effect of the same call on a plain byte string. |
| `Buffers.PerformAll` | net/Buffer.cpp:39-157 | Every sequence of calls on two buffers, swaps included, has the effect of the same calls on two byte strings. |
| `Streams.HandleTurn` | net/protobuf/ProtobufHandler.cpp:11-23 | One turn of the decode loop: dispatch and go on after a success, stop otherwise. |
| `Streams.HandleFirst` | net/protobuf/ProtobufHandler.cpp:11-23 | With a complete frame in front, its message is dispatched before the rest is handled, or the frame alone is dropped. |
| `Streams.ReachIsAll` | net/protobuf/ProtobufHandler.cpp:11-23 | A call leaves no complete frame waiting if and only if all of them but the last decode; where it stops short it stops behind one that does not. |
| `Streams.HandleFrames` | net/protobuf/ProtobufHandler.cpp:8-24 | One call on the start of a frame stream handles exactly the complete frames up to and including the first that does not decode, and leaves exactly the bytes behind them. |
| `Streams.FeedMore` | net/protobuf/ProtobufHandler.cpp:8-24 | A further chunk continues where the earlier ones stopped. |
| `Streams.EveryFrameOnce` | net/protobuf/ProtobufHandler.cpp:8-24 | For any cutting of any frame stream, corrupt frames included, exactly the frames each call reaches are handled, once and in order, and exactly the bytes behind them stay. |
| `Streams.NoneWaiting` | net/protobuf/ProtobufHandler.cpp:17-21 | After a read no complete frame is left waiting if and only if every frame that waited for it, but the last, decodes. |
| `Streams.CatchesUp` | net/protobuf/ProtobufHandler.cpp:17-21 | Complete frames are all handled by as many further reads as there are faults among them, and one. |
| `Streams.SingleFault` | net/protobuf/ProtobufHandler.cpp:17-21 | With one faulty frame, nothing complete is left waiting if and only if that frame was complete before the last read or is the last complete one. |
| `Streams.GoodBehindBad` | net/protobuf/ProtobufHandler.cpp:17-21 | A complete good frame behind a bad one in the same read stays undispatched; read separately it is dispatched. |
| `Streams.Deliver` | net/protobuf/ProtobufHandler.cpp:8-24 | If all frames decode, exactly the complete ones are done after any cutting. |
| `Codec.DecodeConsumes` | net/protobuf/Codec.cpp:21-81 | On arbitrary bytes: nothing consumed if and only if INCOMPLETE, everything on a length out of range, the frame otherwise, at least 13 bytes on success. |
| `Codec.DecodeFrame` | net/protobuf/Codec.cpp:38-81 | The verdict on a complete frame does not depend on what follows it. |
| `Codec.DecodePrefix` | net/protobuf/Codec.cpp:22-40 | Every strict prefix of a frame is INCOMPLETE and consumes nothing. |
| `Codec.FrameLayout` | net/protobuf/Codec.cpp:83-108 | The encoded frame by offsets: length of what follows, length of the name, name, payload, and the checksum of all between the first and the last word. |
| `Codec.LengthLimits` | net/protobuf/Codec.cpp:26-40 | Frames of 13 to 67108868 bytes whose header says so are judged; headers below 9 or above 67108864, negative ones included, discard everything. |
| `Codec.NameOutside` | net/protobuf/Codec.cpp:55-62 | An intact frame whose name would not lie inside it is a DECODE_ERROR that consumes this frame alone. |
| `Codec.SealedVerdict` | net/protobuf/Codec.cpp:31-80 | The outcome for every name and payload in an intact frame, each with its cause. |
| `Codec.RoundTrip` | net/protobuf/Codec.cpp:21-108 | Decoding what was encoded, followed by anything, gives the message back if and only if its name is not empty and its length at most 64 MiB; otherwise DECODE_ERROR. |
| `Codec.DecodeIsSound` | net/protobuf/Codec.cpp:21-81 | Whatever decodes is, byte for byte, a frame as the encoder writes it around a known name and a payload that parses. |
| `Codec.ChecksumErrorIff` | net/protobuf/Codec.cpp:44-53 | CHECKSUM_ERROR if and only if body and trailer of a frame disagree; either way the next decode starts at the following frame. |
| `Codec.OneByteCorrupted` | net/protobuf/Codec.cpp:44-53 | Any one changed byte behind the length header, trailer included, is a CHECKSUM_ERROR that consumes this frame alone. |
| `Codec.TwoBytesCorrupted` | net/protobuf/Codec.cpp:44-53 | Two changed bytes of the checksummed region pass the checksum test if and only if they are opposite and a multiple of 65521 apart; this frame alone is consumed. |
| `Codec.NearbyPairCorrupted` | net/protobuf/Codec.cpp:44-53 | Any two changes less than 65521 positions apart are a CHECKSUM_ERROR. |
| `Codec.CheckFrame` | net/protobuf/Codec.cpp:44-80 | The checks on a complete frame, read from the buffer, give the verdict on its bytes. |
| `Codec.ParseBody` | net/protobuf/Codec.cpp:55-80 | Name and payload are the right slices of the buffer, and stay inside it. |
| `Codec.Decode` | net/protobuf/Codec.cpp:21-81 | State, message and remaining contents are those of decoding the readable bytes. |
| `Codec.Encode` | net/protobuf/Codec.cpp:83-108 | Appends exactly the frame of the message, or nothing when it does not serialize. |
| `Codec.WriteFrame` | net/protobuf/Codec.cpp:90-107 | The copies at the moving position produce header, body and the checksum of that body. |
| `Handler.CodecFrames` | net/protobuf/Codec.cpp:21-81 | The codec cuts any stream at the ends of its frames, so the results on streams apply to it. |
| `Handler.FramesDecode` | net/protobuf/Codec.cpp:21-108 | The frames of encodable messages decode to those messages, in order. |
| `Handler.ChunkedDelivery` | net/protobuf/ProtobufHandler.cpp:8-24 | Any prefix of an encoded stream in any chunks: exactly the messages of the complete frames are dispatched, and the buffer holds exactly the bytes of the unfinished one. |
| `Handler.WholeStream` | net/protobuf/ProtobufHandler.cpp:8-24 | The whole stream in any chunks: every message once, in order, and an empty buffer. |
| `Handler.AnyFrames` | net/protobuf/ProtobufHandler.cpp:8-24 | The same for any frames with consistent length headers, whatever is behind them, as far as they are handled. |
| `Handler.OneFrameCorrupted` | net/protobuf/ProtobufHandler.cpp:8-24 | A message stream with one changed byte behind a length header, in any chunks: all other messages are dispatched if and only if the changed frame is the last or was complete before the last read; otherwise those behind it wait, unchanged, in the buffer. |
| `Handler.OutOfRangeDiscards` | net/protobuf/Codec.cpp:31-36 | A length out of range throws away all that has arrived, and the next read starts afresh. |
| `Handler.NoFrameNoMessage` | net/protobuf/ProtobufHandler.cpp:8-24 | Bytes in which no decodable frame begins anywhere dispatch nothing, in any chunks. |
| `Handler.CuttingMatters` | net/protobuf/Codec.cpp:31-36 | Behind such a header the single read dispatches nothing, and some cutting dispatches something if and only if a frame that decodes begins anywhere behind the header. |
| `Handler.OversizedMessage` | net/protobuf/Codec.cpp:83-108 | A message longer than the decoder accepts takes the next message with it when both arrive in one read, and not when they arrive in two. |
| `Handler.HandleShrinks` | net/protobuf/ProtobufHandler.cpp:11-23 | A call loses at least 13 bytes for each message it dispatches. |
| `Handler.OnMessage` | net/protobuf/ProtobufHandler.cpp:8-24 | The loop terminates, dispatches and leaves what the byte-string loop does. |
| `Handler.OnChunk` | net/TcpConnection.cpp:231-239 | A chunk that arrived is appended to the buffer and handled with what was left over. |
| `Handler.Receive` | net/TcpConnection.cpp:231-239 | Chunk after chunk, the buffer and the messages are those of the byte-string stream. |
| `Connection.StepConserves` | net/TcpConnection.cpp:97-168 | One piece of work adds exactly what it submits to the stream, if and only if it is not a send of the non-empty send buffer to itself; that loses all that was pending. |
| `Connection.Conservation` | net/TcpConnection.cpp:97-168 | Over any run, with any partial or failed writes: socket bytes followed by the send buffer are everything submitted, in order, if and only if that never happened. |
| `Connection.SendWrites` | net/TcpConnection.cpp:97-118 | A send writes exactly when nothing is pending and no interest is on; exactly what the kernel takes reaches the socket and the rest is pending. |
| `Connection.SendBufferWrites` | net/TcpConnection.cpp:131-157 | The same for the overload that drains a buffer. |
| `Connection.WritableWrites` | net/TcpConnection.cpp:249-274 | A writable event writes exactly while interest is on, from the front of what is pending; interest goes off exactly when nothing is left. |
| `Connection.SocketGets` | net/TcpConnection.cpp:97-274 | Over every run the socket gets exactly as many bytes as the kernel took by the writes issued. |
| `Connection.SocketGetsFirst` | net/TcpConnection.cpp:97-274 | Without a loss these are exactly the first bytes of what was submitted, and the rest is pending. |
| `Connection.StepWatches` | net/TcpConnection.cpp:116-167 | From a state where write interest is on exactly when bytes are pending, work leads to another such state if and only if it is no direct encoding on an idle connection, no close over pending bytes and no such self-send. |
| `Connection.InterestKept` | net/TcpConnection.cpp:97-168 | So interest equals pending bytes in every state of a run if and only if the run does none of these. |
| `Connection.StepFits` | net/TcpConnection.cpp:97-168 | Work with callers' buffers whose reserve is intact fits, and keeps the send buffer's reserve intact. |
| `Connection.AlwaysFits` | net/TcpConnection.cpp:97-168 | So does every run of such work. |
| `Connection.TakenOver` | net/TcpConnection.cpp:148-157 | When the socket takes nothing, an idle connection's send buffer becomes the caller's, cursors included, and the next send fits if and only if that buffer has the room, or 8 bytes together with what is in front of its contents. |
| `Connection.HeaderBreaks` | net/TcpConnection.cpp:148-157 | A full buffer with a header prepended, sent while the socket takes nothing, becomes the send buffer; after that no send of any bytes fits, whatever the kernel answers. |
| `Connection.TcpConnection.CheckHighWater` | net/TcpConnection.cpp:122-127 | The high-water callback is posted if and only if it is set and the mark is reached. |
| `Connection.TcpConnection.Keep` | net/TcpConnection.cpp:117-128 | What was not written goes behind the send buffer, write interest is on, the mark is checked afterwards. |
| `Connection.TcpConnection.SendInLoop` | net/TcpConnection.cpp:97-129 | For every answer of the kernel: send buffer, bytes on the socket and write interest are those the stream lemmas speak about; says which callbacks are posted. |
| `Connection.TcpConnection.WriteDirectly` | net/TcpConnection.cpp:134-146 | What the socket takes at once, and nothing else, leaves the argument. |
| `Connection.TcpConnection.KeepBuffer` | net/TcpConnection.cpp:149-167 | The rest of the argument is taken over by swap, with its storage and cursors, or by copy; the argument is empty afterwards. |
| `Connection.TcpConnection.SendBufferInLoop` | net/TcpConnection.cpp:131-168 | The overload that drains a buffer, for a caller's buffer in any state and for the send buffer itself. |
| `Connection.LeftToKeep` | net/TcpConnection.cpp:131-168 | Its two halves together do what the stream lemmas speak about, in all cases. |
| `Connection.TcpConnection.HandleWritable` | net/TcpConnection.cpp:249-274 | Moves a prefix of the send buffer to the socket; interest goes off and completion is posted exactly when that empties it. |
| `Connection.TcpConnection.SendMessage` | net/protobuf/ProtobufHandler.cpp:26-28 | A frame goes behind the send buffer while write interest stays as it is. |
| `Connection.TcpConnection.IgnoreAll` | net/TcpConnection.cpp:284-285 | Closing drops the write interest and no bytes. |
| `Connection.TcpConnection.PerformAll` | net/TcpConnection.cpp:53-168 | Any run of sends, caller's buffers in any state, self-sends, writable events, directly encoded messages and closing, that fits: the socket gets exactly as many bytes as the kernel took; the stream is everything submitted, in order, if and only if no self-send lost it; and write interest equals pending bytes all the way if and only if nothing took it from them. |
| `EndToEnd.Delivered` | net/protobuf/ProtobufHandler.cpp:8-28 | Any work that submits the frames of some messages without a losing self-send, and any cutting of any part of what the socket took: exactly the messages of the complete frames are dispatched, and receive buffer, bytes on the way and send buffer are exactly the frames of the others. |
| `EndToEnd.EncodedSubmits` | net/protobuf/ProtobufHandler.cpp:26-28 | Messages sent through the handler, mixed with writable events and closing, submit exactly their frames in order. |
| `EndToEnd.MessagesDelivered` | net/protobuf/ProtobufHandler.cpp:8-28 | So they arrive in order and once each, as far as their bytes have arrived. |
| `Events.InterestOperations` | net/Channel.hpp:62-95 | The bit operations on the interest mask set, clear and test exactly the read and the write group. |
| `Events.MaskBits` | net/Channel.hpp:117-119 | Read interest is POLLIN and POLLPRI, write interest POLLOUT, and nothing else is asked for. |
| `Events.AskedExactly` | net/Epoller.cpp:15-34 | Epoll is asked for the five shared bits and always for RDHUP. |
| `Events.TranslatedExactly` | net/Epoller.cpp:36-57 | A report comes back with the five shared bits, and HUP for RDHUP. |
| `Events.TranslationRoundTrip` | net/Epoller.cpp:15-57 | From poll to epoll events and back the five shared events survive, and the implicit RDHUP comes back as HUP. |
| `Events.ReadNeedsInterest` | net/Channel.cpp:19-23 | With either backend, whatever the kernel may report, the read callback runs only while read interest is set. |
| `Events.PollRuns` | net/Channel.cpp:9-30 | With poll, each callback runs exactly for its bits: read for readable or urgent data, write for writability, error for an error or an invalid descriptor. |
| `Events.EpollRuns` | net/Channel.cpp:9-30 | With epoll the same, for any report. |
| `Events.ReadIff` | net/Channel.cpp:19-23 | With either backend the read callback runs if and only if readable or urgent data is reported. |
| `Events.ReadableMayBeReported` | net/Poller.cpp:28-46 | The kernel may report readability exactly while read interest is set, writability exactly while write interest is, hang-ups and errors always. |
| `Events.RdhupMustBecomeHup` | net/Epoller.cpp:53-55 | On epoll that rests on RDHUP being translated to HUP. |
| `Server.AdvanceKeeps` | net/TcpConnection.cpp:189-212 | A connection living its next event uses up the task it awaited and awaits the next; all other connections, tasks and ready lists stay right. |
| `Server.PushKeeps` | net/EventLoop.cpp:193-203 | A task put on the loop where it is due is there once. |
| `Server.TakeKeeps` | net/EventLoop.cpp:219-233 | A task taken from a loop is due there, and nowhere else. |
| `Server.NewKeeps` | net/TcpServer.cpp:17-38 | A new connection is fresh, in `connections_` and awaits its establishment. |
| `Server.AcceptKeeps` | net/TcpServer.cpp:17-45 | The new-connection callback keeps the invariant, on the base loop and on a worker. |
| `Server.EstablishKeeps` | net/TcpConnection.cpp:189-202 | Establishing a connection when it is due does not abort and keeps the invariant. |
| `Server.CloseKeeps` | net/TcpConnection.cpp:276-287 | Closing an open connection on its loop does not abort, and removal follows directly or by a task on the base loop. |
| `Server.RemoveKeeps` | net/TcpServer.cpp:62-79 | Removal when due takes the connection out of `connections_` and leaves its destruction to its own loop. |
| `Server.DestroyKeeps` | net/TcpConnection.cpp:204-212 | Destruction when due completes the life. |
| `Server.PollKeeps` | net/EventLoop.cpp:115-126 | Whatever the kernel may report, the ready list names open connections wherever a read callback will run. |
| `Server.HandleKeeps` | net/TcpConnection.cpp:231-247 | Handling a ready channel, closing it on end of file, keeps the rest of the ready list true. |
| `Server.RunTaskKeeps` | net/EventLoop.cpp:230-233 | Whatever task comes next is due and keeps the invariant. |
| `Server.StepKeeps` | net/TcpServer.cpp:17-79 | Every step of every loop and thread keeps the invariant. |
| `Server.RunKeeps` | net/TcpServer.cpp:17-79 | So does every run; every state reached is well-formed. |
| `Server.RunContinues` | net/TcpServer.cpp:17-79 | Any step enabled behind a run continues it: the conditions on runs shut out none. |
| `Server.MapMeaning` | net/TcpServer.cpp:38-73 | `connections_` is exactly the accepted connections not yet removed. |
| `Server.TaskMeaning` | net/TcpServer.cpp:41-78 | What a connection still waits for is queued exactly once, on the loop where it belongs, and nothing else is queued for it. |
| `Server.LifeCycle` | net/TcpServer.cpp:17-79 | Over every interleaving with either poller: no abort; every history is a prefix of established, closed, removed, destroyed on the right loops, and state and read interest agree with it; the map and the queues are as above. |
| `Server.ReadCallbackOnlyWhenOpen` | net/TcpConnection.cpp:231-287 | In every reachable state a read callback about to run belongs to an established, unclosed, interested connection of that loop. |
| `Server.Quiescent` | net/TcpServer.cpp:62-79 | With no task left anywhere every connection is open or completely destroyed: no removal is forgotten. |
| `Progress.PollExact` | net/EventLoop.cpp:119-126 | A poll hands over exactly the channels reported, and a read callback will run for exactly those with readable or urgent data. |
| `Progress.HandleCloses` | net/TcpConnection.cpp:231-245 | A read callback that reads end of file closes its connection: it is disconnected, asks for nothing, and its removal is done or the next task of the base loop; no other connection changes. |
| `Progress.HandleQuiet` | net/TcpConnection.cpp:231-247 | In every other case, a read error included, no connection changes and no task is added. |
| `Progress.AcceptExact` | net/TcpServer.cpp:17-45 | An accepted connection is new, belongs to the loop chosen and is in the map; it is established at once or by the last task of its loop. |
| `Progress.TaskExact` | net/EventLoop.cpp:230-233 | The next task makes its connection live exactly one event, with the state, interest and registration that go with it; no other connection changes. |
| `Progress.OutsideExact` | net/TcpConnection.cpp:36-43 | Write interest and `shutdown()` from outside change just that of a connection. |
| `Progress.RunsTask` | net/EventLoop.cpp:115-126 | From every state a loop left to itself runs any task that waits on it. |
| `Progress.EndOfFileCloses` | net/TcpConnection.cpp:231-287 | From every state, when the peer of an open connection closes, the kernel may report it and its loop closes it. |
| `Progress.CanAccept` | net/TcpServer.cpp:17-45 | From every state a new connection can be accepted on any loop. |
| `Progress.LifeCanComplete` | net/TcpServer.cpp:17-79 | From every state of every interleaving, with either poller, the life of every connection can be completed: established, closed, removed, destroyed. |
| `TaskQueue.StepConserves` | net/EventLoop.cpp:219-235 | Every step keeps executed, batch and queue the pushes in lock order. |
| `TaskQueue.StepControls` | net/EventLoop.cpp:193-217 | Every step keeps the wakeup invariant. |
| `TaskQueue.RunKeeps` | net/EventLoop.cpp:115-131 | Every run keeps both. |
| `TaskQueue.TasksConserved` | net/EventLoop.cpp:193-235 | In every interleaving executed tasks, the rest of the batch and the queue are the pushes in lock order. |
| `TaskQueue.NoLostWakeup` | net/EventLoop.cpp:115-217 | A loop about to poll with tasks waiting finds its eventfd readable or a thread about to write it, but for tasks its own thread queued before `loop()`, and then only before its first swap. |
| `TaskQueue.EarlyTaskSleeps` | net/EventLoop.cpp:193-203 | The exception happens: such a task waits with nothing to wake the loop. |
| `TaskQueue.NoLostQuit` | net/EventLoop.cpp:133-138 | A loop about to poll that was told to quit finds its eventfd readable or a thread about to write it. |
| `TaskQueue.PushExact` | net/EventLoop.cpp:193-199 | Any thread can push at any time, and the loop thread in user code; the task is the last of the queue. |
| `TaskQueue.TurnExact` | net/EventLoop.cpp:219-235 | Running a task takes the oldest one not yet run; reading the eventfd uses up its wakeups. |
| `TaskQueue.AllTasksRun` | net/EventLoop.cpp:115-131 | From every state of every interleaving the loop thread, left to itself, runs all tasks pushed so far, in their order. |
| `TaskQueue.QuitLeaves` | net/EventLoop.cpp:115-138 | After `quit()` the loop is left at the next test, unless `loop()` is entered anew before it. |
| `TaskQueue.OnlyQuitLeaves` | net/EventLoop.cpp:115-131 | And it is left by no other step. |
| `Entries.InsertSorted` | net/TimerQueue.hpp:46-48 | `emplace` keeps the order of the pops. |
| `Entries.SortedUnique` | net/TimerQueue.hpp:47-48 | A heap pops its elements in one possible order only. |
| `EagerTimers.StepLater` | net/TimerQueue.cpp:25-77 | Nothing brings a dead timer back, and none fires. |
| `EagerTimers.DeadNeverFires` | net/TimerQueue.cpp:40-48 | A dead timer fires in no run. |
| `EagerTimers.CancelIsFinal` | net/TimerQueue.cpp:25-48 | After a cancel the timer fires in no run, if and only if its insertion was not still queued. |
| `EagerTimers.OvertakenCancel` | net/TimerQueue.cpp:30-41 | A timer whose insertion is still queued will be inserted and fire. |
| `EagerTimers.TurnExact` | net/TimerQueue.cpp:62-75 | One firing: an inserted timer survives if and only if it was alive, the callback does not cancel it and, if it is the one fired, it is repeated; otherwise it is dead. |
| `EagerTimers.DueExact` | net/TimerQueue.cpp:62-75 | A live timer whose turn comes after i callbacks fires if and only if none of them cancels it, and then lives on, restarted, if and only if it is repeated and neither its own callback nor a later one cancels it. |
| `EagerTimers.CancelInPassIsFinal` | net/TimerQueue.cpp:40-75 | After a callback of the pass that cancels a timer, that timer fires neither in the rest of the pass nor in any run that follows. |
| `EagerTimers.PassIsExact` | net/TimerQueue.cpp:54-87 | A pass fires in strictly increasing order of deadline and sequence, only timers live and due at the snapshot; of those it fires exactly the ones no earlier callback of the pass cancelled, and the others are dead afterwards. |
| `EagerTimers.NotDueUntouched` | net/TimerQueue.cpp:62-75 | A timer without an entry in the pass is afterwards as before if and only if no callback that ran cancels it; otherwise it is dead. |
| `EagerTimers.FiredIsRestarted` | net/Timer.cpp:13-18 | A timer that fired is alive after the pass if and only if it is repeated and neither its own callback nor a later one cancels it; its deadline is then one interval after the clock read behind its callback. |
| `EagerTimers.PassRestarts` | net/TimerQueue.cpp:54-77 | After a pass every timer that was alive before it is as it was, restarted or dead, each with its exact condition. |
| `EagerTimers.PlainPass` | net/TimerQueue.cpp:54-87 | In a pass without actions a timer fires exactly when due; repeated, it is due again that many milliseconds later, otherwise gone. |
| `EagerTimers.JustAdded` | net/TimerQueue.cpp:25-38 | A timer just added is alive with the deadline and interval given, under a new number, and no other timer changes. |
| `EagerTimers.AddedElsewhere` | net/TimerQueue.cpp:25-38 | Constructed by another thread and then inserted, it is as if added on the loop thread. |
| `EagerTimers.AddedFires` | net/TimerQueue.cpp:25-87 | A new timer fires in the next pass exactly when due; with an interval it is then due again, without one it is dead. |
| `EagerTimers.AddedInPass` | net/TimerQueue.cpp:54-87 | A timer added by a callback does not fire in the same pass, whatever its deadline, and is there after it as added, exactly when nothing of the pass cancels it. |
| `EagerTimers.PeriodicFires` | net/Timer.cpp:13-18 | A periodic timer fires in every one of any number of passes at least its interval apart. |
| `EagerTimers.StaleEntriesIgnored` | net/TimerQueue.cpp:62-64 | Entries of cancelled timers change nothing. |
| `TimerQueue.SplitArms` | net/TimerQueue.cpp:89-102 | The split in seconds and nanoseconds loses nothing, is valid from the epoch on, and arms the fd at the given time if and only if that is after the epoch. |
| `TimerQueue.ResetArms` | net/TimerQueue.cpp:89-102 | With deadlines after the epoch `resetTimerFd_` arms at the earliest entry or disarms. |
| `TimerQueue.InsertArms` | net/TimerQueue.cpp:32-35 | Resetting only when the new entry is among the earliest keeps an fd armed at the top there, with deadlines after the epoch. |
| `TimerQueue.EpochStrands` | net/TimerQueue.cpp:32-35 | While an entry at or before the epoch is on top, no insertion arms the fd: it stays as it was or is disarmed. |
| `TimerQueue.ArmedIff` | net/TimerQueue.cpp:89-102 | Outside a pass the fd is armed at the top if and only if all entries are after the epoch; disarmed with entries, it has one at or before the epoch on top. |
| `TimerQueue.NotStranded` | net/TimerQueue.cpp:89-102 | No live timer lies before the time the fd is armed at. |
| `TimerQueue.InsertKeeps` | net/TimerQueue.cpp:30-32 | Insertion keeps one entry per sequence number over heap and batch, and one at its deadline for each live timer. |
| `TimerQueue.TakeKeeps` | net/TimerQueue.cpp:62-63 | So does taking the next entry of the batch. |
| `TimerQueue.FinishKeeps` | net/TimerQueue.cpp:66-73 | So do restarting and erasing the fired timer. |
| `TimerQueue.PopKeeps` | net/TimerQueue.cpp:79-87 | So does splitting off the due entries. |
| `TimerQueue.DueEntries` | net/TimerQueue.cpp:79-87 | The popped entries without the stale ones are exactly the live timers due. |
| `TimerQueue.PassOverDue` | net/TimerQueue.cpp:54-77 | A pass over all popped entries is the pass over the set of live timers due. |
| `TimerQueue.TimerQueue.ResetTimerFd` | net/TimerQueue.cpp:89-102 | Sets the fd by the split of the top entry, or to the zero time. |
| `TimerQueue.TimerQueue.InsertInLoop` | net/TimerQueue.cpp:30-36 | Keeps heap and map consistent, during a pass too, and an fd that was armed at the top armed there; inside a pass the expired fd is disarmed, and the end of the pass arms it. |
| `TimerQueue.TimerQueue.Enqueue` | net/TimerQueue.cpp:32-35 | The heap part of that: the entry is in, and the fd is reset exactly when it is among the earliest. |
| `TimerQueue.TimerQueue.AddTimer` | net/TimerQueue.cpp:25-38 | On the loop thread the timer is live at once, with a number never used before. |
| `TimerQueue.TimerQueue.AddTimerElsewhere` | net/TimerQueue.cpp:25-38 | On another thread it is numbered now and live when its insertion runs. |
| `TimerQueue.TimerQueue.InsertQueued` | net/TimerQueue.cpp:30-36 | The queued insertion makes it live. |
| `TimerQueue.TimerQueue.CancelTimer` | net/TimerQueue.cpp:40-48 | Takes the timer from the map and leaves the heap alone: to users it is gone. |
| `TimerQueue.TimerQueue.GetExpiredTimers` | net/TimerQueue.cpp:79-87 | Pops exactly the entries due, in order. |
| `TimerQueue.TimerQueue.FireOne` | net/TimerQueue.cpp:65-73 | Runs a callback with arbitrary adds and cancels, then finishes its timer if it is still there. |
| `TimerQueue.TimerQueue.Conclude` | net/TimerQueue.cpp:66-73 | The timer is restarted with a new entry, erased, or already gone. |
| `TimerQueue.TimerQueue.FireBatch` | net/TimerQueue.cpp:62-75 | The loop over the batch fires what the eager pass fires. |
| `TimerQueue.TimerQueue.HandleExpiredTimers` | net/TimerQueue.cpp:54-77 | One call is one eager expiry step; the expired fd is disarmed until it is set at the end, at the top for deadlines after the epoch; nothing if the fd could not be read. |
| `TimerQueue.TimerQueue.ExecuteAll` | net/TimerQueue.cpp:25-102 | Every run of the queue is a run of the eager timers; it ends armed at the earliest entry if and only if all entries are after the epoch, as they are when all deadlines given are. |
| `TimerQueue.TimerQueue.ExecuteTimed` | net/TimerQueue.cpp:25-102 | In runs where a pass begins only when the time set has come, a queue disarmed behind an entry at or before the epoch, or whose first timer is one, never fires anything. |
| `Poller.EarlyExit` | net/Poller.cpp:72-85 | The counted scan reports the first n ready slots: all of them if and only if n is no less than their number. |
| `Poller.AllReadyExact` | net/Poller.cpp:72-85 | The ready slots are those with events, each as often as it is there. |
| `Poller.TwosComplement` | net/Poller.cpp:40-44 | A descriptor and its hidden form add up to -1; hiding is its own inverse. |
| `Poller.AddedOk` | net/Poller.cpp:31-35 | Adding a slot keeps slots and indices consistent and every other registration. |
| `Poller.ChangedOk` | net/Poller.cpp:36-45 | So does changing one, hidden or shown again. |
| `Poller.RemovedOk` | net/Poller.cpp:48-69 | Swap with last keeps slots and indices consistent and loses exactly the one registration. |
| `Poller.Poller.UpdateChannel` | net/Poller.cpp:28-46 | The channel's slot holds its events, hidden if and only if it has none and is not new; all else stays. |
| `Poller.Poller.RemoveChannel` | net/Poller.cpp:48-69 | The channel is gone from slots and map, all others can still be found; an unregistered one changes nothing. |
| `Poller.Poller.PerformAll` | net/Poller.cpp:28-69 | Any sequence of updates and removals of channels with distinct descriptors keeps slots, map and stored indices consistent, and leaves exactly the registrations asked for. |
| `Poller.LastRequest` | net/Poller.cpp:28-46 | After any such sequence an update leaves its interest in its slot, shown to the kernel if and only if there is interest or the channel is new, and no other slot changed. |
| `Poller.LastRemoval` | net/Poller.cpp:48-69 | After any such sequence a removal takes just its slot away. |
| `Poller.Poller.FillActiveChannels` | net/Poller.cpp:72-85 | The channels of the first n ready slots are reported in order with their events. |
| `Poller.Poller.PollReturned` | net/Poller.cpp:13-26 | When the kernel's count is the number of ready slots, all of them are reported; after a failure, none. |
| `LoopPool.Index` | net/EventLoopThreadPool.cpp:27-27 | The index is valid for every counter value, negative ones included. |
| `LoopPool.LoadShare` | net/EventLoopThreadPool.cpp:25-31 | Exact load of each loop after up to 2^31 assignments. |
| `LoopPool.Balanced` | net/EventLoopThreadPool.cpp:25-31 | Over that many no two loads differ by more than one. |
| `LoopPool.Rotation` | net/EventLoopThreadPool.cpp:27-27 | Away from the two jumps of the counter each call goes to the following loop. |
| `LoopPool.RotationAtJumps` | net/EventLoopThreadPool.cpp:27-27 | At the jump to the negative half this holds if and only if the number of loops divides 2^64 - 2^32, at the return to zero if and only if it divides 2^64. |
| `LoopPool.EventLoopThreadPool.GetNextLoop` | net/EventLoopThreadPool.cpp:25-31 | A valid worker by that index while the counter moves on, or the base loop when there are no workers. |
| `Shutdown.RunKeeps` | net/TcpConnection.cpp:36-43 | Once `shutdown()` has handed over its task the connection is no longer Connected. |
| `Shutdown.HalfClosedIff` | net/TcpConnection.cpp:170-179 | In every run the socket is half-closed if and only if `shutdownInLoop` was called directly while Connected and not writing. |
| `Shutdown.HalfClosedOnce` | net/TcpConnection.cpp:170-179 | The socket is half-closed at most once. |
| `Shutdown.DirectCallHalfCloses` | net/TcpConnection.cpp:170-179 | A direct call on an established connection half-closes and leaves it disconnecting. |
| `Shutdown.StepStates` | net/TcpConnection.cpp:170-287 | What establishing, shutting down, writing, draining, closing and destroying do to state and write interest. |
| `Shutdown.ShutdownNeverHalfCloses` | net/TcpConnection.cpp:36-43 | `shutdown()`, and the call in `handleWritable`, never half-close. |

## Left out

- `Socket`, `InetAddress`, `Acceptor` internals, logging and socket options: system-call plumbing. Accepting is a step.
- `Connector` and `TcpClient`: retries after `stop()` are not prevented by the code, and the rest is easy.
- Protobuf itself: descriptor lookup, serialization and parsing are functions about which only the round trip and the announced size are taken for granted. The map from names to handlers is left out; dispatching appends to the list of messages.
- `Epoller`'s channel map and `epoll_ctl` calls; only its translations and the kernel's contract are modelled.
- Object lifetime: `tie`, callbacks that destroy their own timer or channel, raw pointers in a cross-thread `send(const char*, size_t)`.
- When or whether the send buffer drains: no write callback is registered, so only safety is stated.
- `EventLoopThread`, nested `loop()` calls, poll timeouts; clocks are arbitrary numbers.
- The event loop's tasks, the server's life cycle and shutdown are state machines over values, since their subject is the interleaving of threads; updates of fields in place are not captured there.
- The heap behind `std::priority_queue` is the sorted sequence of its pops.
- Overflow of the 64-bit timer sequence and of the connection number.
- Vectors longer than `max_size()`: operations that would make `resize` throw are excluded by preconditions.
- Buffers.Buffer.RetrieveAsString: a length that reaches beyond the end of the vector, where the source reads foreign memory, is excluded.
- Codec.Encode: messages whose length overflows `int32_t`, or whose serialized size differs from the announced one, are excluded.
- Connection.TcpConnection.SendBufferInLoop: what `append` reads through the pointer into its own storage when the send buffer is sent to itself; all of it is dropped directly afterwards. Another thread sending the connection's own send buffer is a data race and not modelled.
- Handler.OnChunk: a chunk enters by `append`; that `readFd` has the same effect on the contents is `Buffers.Buffer.ReadFd`.
