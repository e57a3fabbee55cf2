# javanetperf in Dafny

This project is a model of the networking and buffering code of javanetperf, a set of Java,
C++ and Python benchmarks of network I/O. Its centre is the non-blocking message path of
`edu.mit.net`:

- `NIOReadStream` reads a socket channel into recyclable 4096-byte chunks. It keeps a FIFO
  of readable chunks, at most one partly filled write chunk and a LIFO pool of cleared
  chunks. It hands out exact byte counts across chunk boundaries.
- `NIOMessageConnection` frames messages as a 4-byte little-endian length followed by the
  bytes. It reads them back with a two-state machine on `nextLength`.
- `NIOMessageListener` turns selector readiness into a FIFO queue of events. Each event is
  a new connection, a complete message or a closed connection. Two ghost histories, the
  events ever queued and those already returned, state the FIFO order: the queue is always
  the first with the second removed from its front.

Around it, the project models these helpers:

- the C++ `FifoBuffer` of the thread server;
- the little-endian `int` codec of `ServerBase`;
- the growable buffer of `StringDecoder`;
- the block-list `LatencyRecord` of the latency client;
- the staging byte streams of `ByteStreamTest`;
- the fill benchmarks of `ByteBufferTest`;
- the table helpers of `dataextract.py`.

Modelling conventions:

- A Java `byte` is the subset type `i8` and an `int` is `i32`. Java's wrap-around, `>>`
  and `& 0xff` are written out (`ToByte`, `ToInt32`, floor division, `% 0x100`).
- An exception is a result value: `Option`, `false`, or a dedicated datatype
  (`ReadResult`, `WriteResult`, `ReserveResult`, `Polled`). An enabled Java `assert` that
  fails is also a result value.
- The socket is a script of read outcomes: bytes, would-block (0) or end-of-stream (-1).
  Like the unit tests' mock channel, a read takes as much of the next delivery as the
  buffer has room for. End-of-stream is sticky. A write accepts at most the send buffer's
  free room.
- The selector and `accept` are an oracle. It lists the keys each `select` will report
  and the connections `accept` will return.
- Native byte order is taken to be little-endian. This is the one assumption under which
  the writer's prefix (`putInt` in native order) matches the reader's explicit
  little-endian `getInt`.

Files, one module each:

- `java_types.dfy` (`JavaTypes`)
- `channel.dfy` (`Channels`)
- `nio_read_stream.dfy` (`NIOReadStream`)
- `nio_message_connection.dfy` (`NIOMessageConnection`)
- `nio_message_listener.dfy` (`NIOMessageListener`)
- `fifo_buffer.dfy` (`FifoBuffers`)
- `server_base.dfy` (`ServerBase`)
- `string_decoder.dfy` (`StringDecoders`)
- `latency_record.dfy` (`LatencyRecords`)
- `byte_buffer.dfy` (`ByteBuffers`, the part of `java.nio.ByteBuffer` the benchmarks use)
- `byte_stream.dfy` (`ByteStreams`)
- `byte_buffer_test.dfy` (`ByteBufferBench`)
- `data_extract.dfy` (`DataExtract`)

## Model

| member | source | states |
|---|---|---|
| JavaTypes.ToByte | src/ByteBufferTest.java:51-56 | `(byte) x` keeps the low eight bits of `x`: its unsigned value is `x mod 256` |
| JavaTypes.ToInt32 | src/ServerBase.java:9-13 | Java int wrap-around: values below 2^31 are unchanged, values in [2^31, 2^32) lose 2^32 |
| JavaTypes.LittleEndian | src/ServerBase.java:16-24 | the four bytes of a value, least significant first: the first is `(byte) v` and the last `(byte) (v >> 24)` |
| JavaTypes.BigEndian | src/ByteBufferTest.java:148-153 | the same four bytes in reverse order |
| JavaTypes.DecodeLESignAndLowByte | src/edu/mit/net/NIOReadStream.java:53-56 | a little-endian int is negative exactly when its last byte is, and its low byte is the first byte |
| JavaTypes.LittleEndianRoundTrip | src/ServerBase.java:8-24 | the four little-endian bytes of every 32-bit value read back as that value, negatives included |
| JavaTypes.BigEndianRoundTrip | src/ByteBufferTest.java:148-153 | the big-endian bytes, read most significant first, give the value back |
| Channels.Channel.constructor | test/edu/mit/net/NIOReadStreamTest.java:71-73 | a channel starts open, with its read script, its send room and nothing sent |
| Channels.Channel.Read | test/edu/mit/net/NIOReadStreamTest.java:39-61 | a read returns the bytes it transfers and never more than the room; it returns 0 when it would block and -1 at a sticky end-of-stream; no byte is lost (`Bytes(old) == data + Bytes(new)`) |
| Channels.BytesAtStop | test/edu/mit/net/NIOReadStreamTest.java:40-61 | the bytes the script delivers are those ready before the next stop, then those after it |
| Channels.Channel.Write | src/edu/mit/net/NIOMessageConnection.java:121-147 | a non-blocking write accepts `min(room, length)` bytes and appends exactly those to what was sent; a closed channel fails and changes nothing |
| Channels.Channel.Close | src/edu/mit/net/NIOReadStream.java:95-98 | closing only clears `open` |
| NIOReadStream.Filled | src/edu/mit/net/NIOReadStream.java:118 | a read stores its bytes at the chunk's position and advances the position by their count |
| NIOReadStream.Advance | src/edu/mit/net/NIOReadStream.java:82 | a bulk `get` advances the chunk's position by the count and leaves its bytes and limit |
| NIOReadStream.ConcatAppend | src/edu/mit/net/NIOReadStream.java:124 | appending a chunk to the read queue appends its unconsumed bytes |
| NIOReadStream.FillStep | src/edu/mit/net/NIOReadStream.java:118-126 | bytes read into the write chunk extend its filled bytes; once the chunk is full it joins the queue flipped, with the same bytes, after the queue's bytes |
| NIOReadStream.StealStep | src/edu/mit/net/NIOReadStream.java:68-75 | the stolen write chunk, flipped, is a valid one-chunk queue holding exactly its filled bytes |
| NIOReadStream.HeadBytes | src/edu/mit/net/NIOReadStream.java:79-82 | the first bytes of the stream come from the head chunk |
| NIOReadStream.HeadSource | src/edu/mit/net/NIOReadStream.java:82 | the first `took` bytes are the head chunk's bytes at its position |
| NIOReadStream.DrainWhole | src/edu/mit/net/NIOReadStream.java:86-91 | dropping a drained head chunk keeps the queue valid, adds a cleared chunk to the pool and leaves exactly the bytes after it |
| NIOReadStream.DrainPart | src/edu/mit/net/NIOReadStream.java:79-84 | advancing the head chunk part-way keeps the queue valid and leaves exactly the bytes after the consumed ones |
| NIOReadStream.ReplaceHeadValid | src/edu/mit/net/NIOReadStream.java:76 | a queue whose head still holds a byte stays a valid queue |
| NIOReadStream.CopyOut | src/edu/mit/net/NIOReadStream.java:82 | the copied bytes land at the offset and every other byte of the output is unchanged |
| NIOReadStream.ReadStream.constructor | src/edu/mit/net/NIOReadStream.java:39-41 | a new stream has no chunks, no unread bytes, and a byte count equal to its unread bytes |
| NIOReadStream.ReadStream.DataAvailable | src/edu/mit/net/NIOReadStream.java:44-46 | `dataAvailable()` is the number of unread bytes across the read queue and the write chunk |
| NIOReadStream.ReadStream.GetEmptyBuffer | src/edu/mit/net/NIOReadStream.java:136-147 | the last pooled chunk is reused (LIFO) and only an empty pool allocates a new cleared 4096-byte chunk |
| NIOReadStream.ReadStream.TryRead | src/edu/mit/net/NIOReadStream.java:108-134 | the byte count stays exact and no byte is lost or reordered. With `desired` bytes already buffered it reads nothing and changes nothing. From fewer, it stops at the first read that reaches `desired`, so it buffers fewer than `desired + 4096` bytes. When enough bytes are obtainable, it returns the count with at least `desired` buffered and the stop untouched. Otherwise it buffers everything obtainable and consumes the stop. It returns -1 exactly when that stop is end-of-stream; after a would-block it returns the count. A chunk is allocated only when the pool is empty |
| NIOReadStream.ReadStream.ReadOnce | src/edu/mit/net/NIOReadStream.java:112-127 | one loop pass: a positive read appends exactly its bytes to the unread ones; a 0 or -1 read changes no buffered byte and consumes the stop |
| NIOReadStream.ReadStream.EnsureWriteBuffer | src/edu/mit/net/NIOReadStream.java:112-114 | afterwards there is a write chunk, and the unread bytes are unchanged |
| NIOReadStream.ReadStream.Store | src/edu/mit/net/NIOReadStream.java:120-127 | bytes just read are appended to the unread bytes, and the count grows by their number |
| NIOReadStream.ReadStream.GetBytes | src/edu/mit/net/NIOReadStream.java:60-93 | it fails, changing nothing, exactly when fewer bytes are buffered than requested. Otherwise `output` receives the next `output.length` bytes in channel order, across chunks, and exactly those bytes are consumed. No chunk is allocated or lost |
| NIOReadStream.ReadStream.CopyStep | src/edu/mit/net/NIOReadStream.java:67-92 | one loop pass moves at least one next byte to `output` and consumes it |
| NIOReadStream.ReadStream.StealWriteBuffer | src/edu/mit/net/NIOReadStream.java:68-75 | with an empty queue, the write chunk becomes the queue, and the unread bytes are unchanged |
| NIOReadStream.ReadStream.TakeFromHead | src/edu/mit/net/NIOReadStream.java:79-82 | it copies `min(needed, head remaining)` bytes, which are the next unread bytes |
| NIOReadStream.ReadStream.AdvanceHead | src/edu/mit/net/NIOReadStream.java:83-91 | it consumes exactly `took` bytes; a drained head chunk goes to the pool cleared |
| NIOReadStream.ReadStream.GetInt | src/edu/mit/net/NIOReadStream.java:48-58 | with four bytes buffered it consumes them and returns their little-endian value; otherwise it fails and changes nothing |
| NIOReadStream.CombineBytes | src/edu/mit/net/NIOReadStream.java:52-57 | the shift-and-or loop over the four bytes computes their little-endian value |
| NIOReadStream.ShiftedInBound | src/edu/mit/net/NIOReadStream.java:53-56 | the shifts never push a bit out of 32 bits |
| NIOReadStream.ShiftedInLE | src/edu/mit/net/NIOReadStream.java:53-56 | bytes shifted in from the last down give the little-endian combination |
| NIOReadStream.ReadStream.Close | src/edu/mit/net/NIOReadStream.java:95-102 | the channel is closed and every chunk list is emptied |
| NIOMessageConnection.Decide | src/edu/mit/net/NIOMessageConnection.java:51-73 | one `tryRead` never consumes more than is obtainable, and a message always consumes bytes |
| NIOMessageConnection.DecideSpec | src/edu/mit/net/NIOMessageConnection.java:51-73 | A message is exactly the announced number of bytes following the prefix (or, with a length already parsed, following the start) and resets the state. Closed happens only at end-of-stream, and null only before it. An incomplete frame consumes at most its prefix and keeps the parsed length. A prefix that is not positive is the assertion failure |
| NIOMessageConnection.Body | src/edu/mit/net/NIOMessageConnection.java:64-72 | with `len` bytes available the message is those bytes and the state resets; otherwise nothing is consumed and the length is kept |
| NIOMessageConnection.BodyShift | src/edu/mit/net/NIOMessageConnection.java:62-64 | waiting for a body after the prefix is waiting for it at the start of what follows |
| NIOMessageConnection.Frame | src/edu/mit/net/NIOMessageConnection.java:82-100 | a frame is 4 bytes longer than its message and ends with the message |
| NIOMessageConnection.FrameRoundTrip | src/edu/mit/net/NIOMessageConnection.java:51-100 | a framed message, whatever follows, is read back whole by one `tryRead`, which consumes exactly the frame |
| NIOMessageConnection.Reassembly | src/edu/mit/net/NIOMessageConnection.java:52-67 | a frame cut at any point gives null; the next call, from the state and bytes the first left, gives the whole message |
| NIOMessageConnection.PartialStep | src/edu/mit/net/NIOMessageConnection.java:51-66 | a delivery that still leaves the frame incomplete gives null. The state is then the one for the longer prefix: awaiting a prefix and holding the frame's first bytes, or awaiting the body and holding its first bytes |
| NIOMessageConnection.PartialFinish | src/edu/mit/net/NIOMessageConnection.java:51-72 | the delivery that completes the frame, from any partial state, gives the whole message and leaves exactly what follows the frame |
| NIOMessageConnection.ReassemblyFrom | src/edu/mit/net/NIOMessageConnection.java:51-72 | when a frame, read from any point, arrives in any number of pieces and only the last completes it, every call but the last gives null. The last gives the message, leaving exactly what followed the frame |
| NIOMessageConnection.Reassemble | src/edu/mit/net/NIOMessageConnection.java:51-72 | partial-delivery reassembly from a fresh connection: `n` pieces of a frame give `n - 1` nulls, then the message |
| NIOMessageConnection.Drain | src/edu/mit/net/NIOMessageListener.java:119-128 | repeated `tryRead` calls end with a result that is not a message and consume no more than is available |
| NIOMessageConnection.DrainFrames | src/edu/mit/net/NIOMessageListener.java:119-128 | back-to-back frames drain as exactly the messages sent, in order; the last call returns closed at end-of-stream, null otherwise |
| NIOMessageConnection.WireExample | test/edu/mit/net/NIOMessageListenerTest.java:105-119 | the wire bytes 1,0,0,0,42,2,0,0,0,1,2 drain as the messages [42] and [1, 2] |
| NIOMessageConnection.FrameCall | src/edu/mit/net/NIOMessageConnection.java:85-100 | the bytes handed to the channel in one call are exactly the frame; a gather write is used when the message exceeds 4092 bytes |
| NIOMessageConnection.Connection.constructor | src/edu/mit/net/NIOMessageConnection.java:36-48 | a new connection awaits a prefix over a new, empty read stream |
| NIOMessageConnection.Connection.TryRead | src/edu/mit/net/NIOMessageConnection.java:51-73 | the result and new `nextLength` are those of `Decide` on every obtainable byte. A message or a bad prefix leaves unread exactly what follows it. Null or closed keeps every obtainable byte buffered |
| NIOMessageConnection.Connection.ReadLength | src/edu/mit/net/NIOMessageConnection.java:52-61 | the prefix half: it returns closed, null or bad prefix as `Decide` does, or parses a positive length and consumes exactly the prefix |
| NIOMessageConnection.Connection.ReadBody | src/edu/mit/net/NIOMessageConnection.java:64-72 | the body half follows `Body`: it consumes exactly `nextLength` bytes for a message and otherwise consumes nothing |
| NIOMessageConnection.Connection.Write | src/edu/mit/net/NIOMessageConnection.java:76-101 | An empty message fails and sends nothing. Otherwise the prefix is the little-endian length, followed in the scratch buffer by a message that fits. Exactly one write call, of the frame, is made. The result is written exactly when the channel took the whole frame, and failure otherwise, with no retry |
| NIOMessageConnection.Connection.Close | src/edu/mit/net/NIOMessageConnection.java:113-119 | the channel is closed and nothing is sent |
| NIOMessageListener.MessageEvents | src/edu/mit/net/NIOMessageListener.java:125-127 | one message event per message, in order |
| NIOMessageListener.MessageEventsAppend | src/edu/mit/net/NIOMessageListener.java:126 | one more message adds its event at the end |
| NIOMessageListener.DisjointAppend | src/edu/mit/net/NIOMessageListener.java:109-113 | a connection whose objects are all new keeps the connections disjoint |
| NIOMessageListener.Open | src/edu/mit/net/NIOMessageListener.java:109-111 | an accepted connection is new, plays the incoming script and awaits a prefix |
| NIOMessageListener.DrainUnfold | src/edu/mit/net/NIOMessageListener.java:119-128 | a drain is one `tryRead` step followed, after a message, by the drain of the rest |
| NIOMessageListener.Listener.constructor | src/edu/mit/net/NIOMessageListener.java:38-45 | a new listener is open, with an empty queue and no connections |
| NIOMessageListener.Listener.Select | src/edu/mit/net/NIOMessageListener.java:62-67 | a select adds the next ready keys to the selected set and returns how many; an exhausted oracle reports 0 |
| NIOMessageListener.Listener.Accept | src/edu/mit/net/NIOMessageListener.java:107-114 | the server key adds exactly one new connection and exactly one event, for that connection, with no message; with nothing to accept the assertion fails |
| NIOMessageListener.Listener.Enqueue | src/edu/mit/net/NIOMessageListener.java:114 | an added event goes to the back of the queue and to the end of the history of queued events, keeping the queue FIFO |
| NIOMessageListener.Listener.TakeHead | src/edu/mit/net/NIOMessageListener.java:60 | `poll` on a non-empty queue removes and returns the oldest event, which joins the delivered history |
| NIOMessageListener.Listener.HistoryAppend | src/edu/mit/net/NIOMessageListener.java:123-126 | the events a drain appended to the queue, added to the history, keep the history equal to the delivered events followed by the queue |
| NIOMessageListener.Listener.HistoryGrows | src/edu/mit/net/NIOMessageListener.java:135 | a queue that only grew at the back means the history of queued events only grew at the end |
| NIOMessageListener.Listener.AddConnection | src/edu/mit/net/NIOMessageListener.java:112-113 | the new connection is registered under the next key |
| NIOMessageListener.Listener.DrainConnection | src/edu/mit/net/NIOMessageListener.java:115-129 | a readable connection adds one message event per complete frame, in the order `Drain` predicts. At end-of-stream it adds exactly one closed event and closes the connection. A bad prefix ends in failure |
| NIOMessageListener.Listener.DrainLoop | src/edu/mit/net/NIOMessageListener.java:119-128 | the `while ((data = tryRead()) != null)` loop adds `DrainEvents` of `Drain` |
| NIOMessageListener.Listener.DrainOnce | src/edu/mit/net/NIOMessageListener.java:119-127 | one loop pass: the `Decide` step, its message event, or its closed event with the channel closed |
| NIOMessageListener.Listener.HandleSelectedKeys | src/edu/mit/net/NIOMessageListener.java:102-131 | every selected key is removed and handled, and events and connections are only appended. No event is delivered while keys are handled. Each selected server key accepts exactly one connection, taken from the backlog in order |
| NIOMessageListener.Listener.HandleKey | src/edu/mit/net/NIOMessageListener.java:104-130 | No event is delivered while a key is handled. The server key accepts exactly one connection and queues its event, or fails the assertion when none is pending. The key of an open connection queues exactly the events `Drain` predicts for it. A cancelled or unknown key changes nothing |
| NIOMessageListener.Listener.GetNextEvent | src/edu/mit/net/NIOMessageListener.java:58-69 | An event returned is always the oldest queued event not yet returned, and the others stay queued in order (the queue is the history of queued events less the delivered ones). The head of a non-empty queue is returned without polling. With an empty queue and nothing ready it returns null. Null always leaves an empty queue |
| NIOMessageListener.Listener.BlockForNextEvent | src/edu/mit/net/NIOMessageListener.java:72-86 | An event returned is always the oldest queued event not yet returned, and the others stay queued in order. The head of a non-empty queue is returned at once. Null comes only with an empty queue, and only when the last select reported no key (an empty answer, or none left) while every earlier select reported some. An event after an empty queue means every select reported keys. The selects consume the oracle's answers in order |
| NIOMessageListener.Listener.Close | src/edu/mit/net/NIOMessageListener.java:88-100 | every accepted connection is closed and the event queue is emptied |
| FifoBuffers.NewBlock | fifobuffer.h:47-49 | a block holds 4096 bytes |
| FifoBuffers.Written | fifobuffer.h:10-12 | the bytes written are all blocks but the last in full, then the last up to the write position |
| FifoBuffers.WrittenNewBlock | fifobuffer.cc:23-27 | appending a fresh block after a full one adds no written byte |
| FifoBuffers.WrittenExtend | fifobuffer.cc:35-38 | writing at the write position extends the written bytes by exactly those bytes |
| FifoBuffers.AvailableCountsReadBytes | fifobuffer.h:35-38 | `available()` as written counts the unread bytes plus the bytes already read from the front block, so it is exact only when the read position is 0 |
| FifoBuffers.AvailableCorrectedCountsUnread | fifobuffer.h:34-38 | subtracting the read position gives exactly the number of unread bytes |
| FifoBuffers.AvailableOvercounts | fifobuffer.h:35-38 | ten bytes written and four read leave six unread, yet `available()` reports ten |
| FifoBuffers.DrainedMeansReset | fifobuffer.cc:62-75 | nothing is left to read exactly when one block remains with both positions at 0 |
| FifoBuffers.FrontBlock | fifobuffer.cc:46-57 | the unread bytes start with the unread part of the front block |
| FifoBuffers.Advanced | fifobuffer.cc:57-60 | copying the next bytes after those already copied extends the copied prefix |
| FifoBuffers.FifoBuffer.constructor | fifobuffer.cc:9-11 | one zeroed block, both positions at 0, nothing to read |
| FifoBuffers.FifoBuffer.Available | fifobuffer.h:35-38 | `available()` is the unread count plus the read position |
| FifoBuffers.FifoBuffer.HasBytesAvailable | fifobuffer.h:40-42 | true exactly when a written byte is unread |
| FifoBuffers.FifoBuffer.GetWritePosition | fifobuffer.cc:19-33 | the room returned is never 0; a fresh block is appended and the write position reset only when the last block is full; no unread byte changes |
| FifoBuffers.FifoBuffer.AdvanceWritePosition | fifobuffer.cc:35-38 | the bytes the caller copied in are appended to the unread bytes, and the write position stays within the block |
| FifoBuffers.FifoBuffer.Read | fifobuffer.cc:40-80 | it copies `min(length, unread)` bytes, which are the oldest unread bytes in write order, consumes exactly those and leaves the rest of `buffer` |
| FifoBuffers.FifoBuffer.ConsumeFront | fifobuffer.cc:55-75 | one pass copies the front block's next bytes and consumes them |
| FifoBuffers.FifoBuffer.CopyFront | fifobuffer.cc:57 | the front block's next bytes, which are the next unread bytes, are copied to `buffer` |
| FifoBuffers.FifoBuffer.DropFront | fifobuffer.cc:58-75 | exactly `toCopy` bytes are consumed, and a consumed block is removed or reset while the buffer stays valid |
| ServerBase.BytesToInt | src/ServerBase.java:8-14 | defined exactly when the four bytes exist, and then it is their little-endian value |
| ServerBase.IntToBytes | src/ServerBase.java:16-24 | the four little-endian bytes of the value go to `offset..offset+3` and no other byte changes; an index out of bounds stops the writes there |
| ServerBase.IntBytesRoundTrip | src/ServerBase.java:8-24 | bytes written by `intToBytes` read back by `bytesToInt` give the value, negatives included |
| ServerBase.Client.constructor | src/ServerBase.java:93-95 | a client starts with a 4-byte length array and an empty message |
| ServerBase.Client.SetMessage | src/ServerBase.java:85-88 | the length array holds the little-endian length of `m`, which reads back as that length, and the message is `m` itself |
| StringDecoders.AlignedSizeRoundsUp | src/edu/mit/net/StringDecoder.java:41-46 | for every length that does not overflow, the size allocated is the smallest multiple of 1024 not below it |
| StringDecoders.AlignedSizeWraps | src/edu/mit/net/StringDecoder.java:44 | above 2^31 - 1024, a length that is not a multiple of 1024 wraps to a negative size |
| StringDecoders.StringDecoder.constructor | src/edu/mit/net/StringDecoder.java:12-25 | a decoder starts with a 1024-character buffer and nothing decoded |
| StringDecoders.StringDecoder.Reserve | src/edu/mit/net/StringDecoder.java:29-52 | A negative length throws IllegalArgumentException and a string still in progress throws IllegalStateException; both change nothing. On success the position is 0 and the capacity is at least the length. A capacity that is already enough is kept; otherwise a new buffer of the aligned size is allocated, and a wrapped negative size makes the allocation fail |
| StringDecoders.StringDecoder.Decode | src/edu/mit/net/StringDecoder.java:58-83 | the decoded characters are appended to the string in progress. The capacity only ever doubles, and only as often as needed: before the last doubling the room was too small. A buffer with room is kept |
| StringDecoders.StringDecoder.Put | src/edu/mit/net/StringDecoder.java:64 | one decoder call appends as many characters as fit |
| StringDecoders.StringDecoder.Grow | src/edu/mit/net/StringDecoder.java:67-73 | on overflow the capacity doubles while the decoded characters and the position are kept |
| StringDecoders.StringDecoder.Finish | src/edu/mit/net/StringDecoder.java:85-104 | it returns every character decoded for the string and resets the position to 0, so `reserve` is legal again |
| LatencyRecords.FlattenAppend | src/ThreadClient.java:137 | appending a block appends its values |
| LatencyRecords.FlattenLength | src/ThreadClient.java:144-146 | full blocks hold `BLOCK_SIZE` values each |
| LatencyRecords.FlattenAt | src/ThreadClient.java:166-173 | value `k * BLOCK_SIZE + i` is slot `i` of block `k` |
| LatencyRecords.LatencyRecord.constructor | src/ThreadClient.java:123-125 | a new record has one block and no values |
| LatencyRecords.LatencyRecord.Add | src/ThreadClient.java:127-133 | the value is appended; a new block is opened only when the current one is full, keeping `0 <= nextIndex <= BLOCK_SIZE` |
| LatencyRecords.LatencyRecord.NewBlock | src/ThreadClient.java:135-139 | a fresh block becomes the current one and no value changes |
| LatencyRecords.LatencyRecord.ValueAt | src/ThreadClient.java:166-177 | every filled slot of every block is the value at its position in insertion order |
| LatencyRecords.LatencyRecord.Size | src/ThreadClient.java:141-152 | `size()` is the number of values added |
| LatencyRecords.LatencyIterator.constructor | src/ThreadClient.java:183-185 | a new iterator starts before the first value |
| LatencyRecords.LatencyIterator.HasNext | src/ThreadClient.java:156-164 | true exactly while some added value has not been stepped over |
| LatencyRecords.LatencyIterator.Next | src/ThreadClient.java:166-177 | it returns the next value in insertion order and steps over it; past the end it reads 0 from an unwritten slot, or fails on a full last block |
| LatencyRecords.LatencyIterator.Remove | src/ThreadClient.java:179-181 | `remove()` always throws and removes nothing |
| LatencyRecords.SumRecord | src/ThreadClient.java:101-104 | iterating a record yields exactly its values: the running sum is their sum |
| LatencyRecords.SumLatencies | src/ThreadClient.java:100-105 | a record's report adds up its values and counts them with `size()` |
| ByteBuffers.IntBytes | src/ByteBufferTest.java:42 | `putInt` writes four bytes |
| ByteBuffers.ByteBuffer.Remaining | src/ByteBufferTest.java:41 | `remaining()` is the distance from the position to the limit |
| ByteBuffers.ByteBuffer.constructor | src/ByteStreamTest.java:35 | a new buffer has the given capacity, position 0 and the limit at capacity |
| ByteBuffers.ByteBuffer.Clear | src/ByteBufferTest.java:38 | position 0, limit at capacity |
| ByteBuffers.ByteBuffer.Flip | src/ByteStreamTest.java:46 | the limit moves to the position and the position to 0 |
| ByteBuffers.ByteBuffer.Rewind | src/ByteBufferTest.java:78-79 | position 0, limit at capacity |
| ByteBuffers.ByteBuffer.PutByte | src/ByteBufferTest.java:53 | one byte is stored at the position, or, with nothing remaining, it overflows and nothing changes |
| ByteBuffers.ByteBuffer.PutInt | src/ByteBufferTest.java:42 | the four bytes of the value in the buffer's order are stored at the position, or it overflows and neither the contents nor the position change |
| ByteBuffers.ByteBuffer.Put | src/ByteBufferTest.java:72 | the array's bytes are stored at the position, or it overflows and neither the contents nor the position change |
| ByteStreams.Sink.constructor | src/ByteStreamTest.java:167 | a sink starts with nothing written |
| ByteStreams.Sink.Write | src/ByteStreamTest.java:184 | an output stream takes every byte it is given |
| ByteStreams.Sink.WriteFrom | src/ByteStreamTest.java:61-62 | a blocking channel takes everything between position and limit |
| ByteStreams.ByteArrayStream.constructor | src/ByteStreamTest.java:169-172 | a new stream stages nothing |
| ByteStreams.ByteArrayStream.Put | src/ByteStreamTest.java:174-181 | Everything emitted, followed by the staged bytes, is the sequence of values put. A full buffer is emitted first, exactly `buffer.length` bytes, so the staging array never overflows. A zero-length buffer throws |
| ByteStreams.ByteArrayStream.Flush | src/ByteStreamTest.java:183-186 | the staged bytes are emitted and `offset` returns to 0 |
| ByteStreams.ByteBufferArrayStream.constructor | src/ByteStreamTest.java:34-38 | a new stream stages nothing, with a direct buffer as large as the staging array |
| ByteStreams.ByteBufferArrayStream.Put | src/ByteStreamTest.java:40-53 | as for the plain stream: put values come out in order, and a full buffer sends exactly `buffer.length` bytes |
| ByteStreams.ByteBufferArrayStream.Flush | src/ByteStreamTest.java:55-64 | exactly `offset` bytes are staged in the ByteBuffer and the channel takes all of them; the Java assertions hold |
| ByteBufferBench.IntFillWord | src/ByteBufferTest.java:96-104 | the bytes of word `i` of the fill are the bytes of `i` |
| ByteBufferBench.IntFillSlice | src/ByteBufferTest.java:96-104 | the four bytes at offset `4i` are the bytes of `i` in the tester's order |
| ByteBufferBench.IntFillWords | src/ByteBufferTest.java:96-104 | the word at offset `4i` reads back as `i` in the order it was written |
| ByteBufferBench.IntFillFrom | src/ByteBufferTest.java:96-104 | a buffer with the fill byte at every index is the int fill |
| ByteBufferBench.Repeat | src/ByteBufferTest.java:118-125 | `c` copies of `s` are `c * len(s)` bytes long |
| ByteBufferBench.ShiftsCompose | src/ByteBufferTest.java:139-141 | `>> 16` and `>> 24` are repeated `>> 8` |
| ByteBufferBench.ArrayCopy | src/ByteBufferTest.java:122 | `System.arraycopy` puts the source at the offset and leaves the other bytes |
| ByteBufferBench.ByteArrayTester.constructor | src/ByteBufferTest.java:92-94 | the tester wraps the array |
| ByteBufferBench.ByteArrayTester.CopyIntBytes | src/ByteBufferTest.java:137-153 | The little-endian tester puts `(byte) ((value >> 8k) & 0xff)` at `offset + k`, the big-endian one the same bytes in reverse order. Nothing else changes. An index out of bounds stops the stores there |
| ByteBufferBench.ByteArrayTester.FillInt | src/ByteBufferTest.java:96-104 | int `i` is stored at offset `4i`; it throws exactly when the length is not a multiple of 4, after storing the leading bytes of the last word |
| ByteBufferBench.ByteArrayTester.FillByte | src/ByteBufferTest.java:108-116 | `buffer[k] == (byte) k` for every k |
| ByteBufferBench.ByteArrayTester.FillArray | src/ByteBufferTest.java:118-125 | `floor(len / source.len)` consecutive copies of the source, with the tail unchanged |
| ByteBufferBench.ByteArrayTester.Write | src/ByteBufferTest.java:127-129 | the whole array is written |
| ByteBufferBench.ByteBufferTester.constructor | src/ByteBufferTest.java:31-35 | the tester wraps the buffer |
| ByteBufferBench.ByteBufferTester.FillInt | src/ByteBufferTest.java:37-46 | `capacity / 4` ints go in, each at offset `4i` (the Java assertion); the tail is unchanged |
| ByteBufferBench.ByteBufferTester.FillByte | src/ByteBufferTest.java:48-56 | every byte is `(byte) k` and the final counter is `(byte) capacity` |
| ByteBufferBench.ByteBufferTester.FillArray | src/ByteBufferTest.java:68-75 | `capacity / source.length` whole copies go in, and less than one copy remains (the Java assertion) |
| ByteBufferBench.ByteBufferTester.Write | src/ByteBufferTest.java:77-84 | the whole buffer is written and nothing remains (the Java assertions) |
| DataExtract.PickAll | dataextract.py:99-101 | one cell per column |
| DataExtract.PickColumns | dataextract.py:99-101 | the cells at the columns, in the order given; IndexError exactly when some column is out of range |
| DataExtract.Projected | dataextract.py:96-103 | one row per input row |
| DataExtract.Project | dataextract.py:96-103 | `project` keeps the selected columns of every row in the given order, and raises exactly when some row lacks one |
| DataExtract.ProjectedCells | dataextract.py:96-103 | cell `j` of projected row `i` is row `i`'s cell at `columns[j]` |
| DataExtract.ExpandRow | dataextract.py:43-51 | a row expands to one row per value column |
| DataExtract.ExpandRows | dataextract.py:37-53 | `expandRows` yields the expansion of every row in input order, and raises exactly when some key or value column is out of range |
| DataExtract.ExpandedLength | dataextract.py:37-53 | `len(table) * len(value_columns)` rows |
| DataExtract.ExpandedAt | dataextract.py:37-53 | row `i * len(value_columns) + j` is row `i`'s key cells followed by its cell in value column `j` |
| DataExtract.ExpandOneIsProject | dataextract.py:37-103 | with one value column, expanding is projecting onto the key columns and that column |
| DataExtract.InsertPosition | dataextract.py:77 | Python's `list.insert` position lies within the list |
| DataExtract.InsertPositionIndexes | dataextract.py:77 | an index naming a position of the row, negative or not, is where the value lands |
| DataExtract.InsertAtInverse | dataextract.py:76-77 | the new row is one longer, has the value at the insert position, and gives back the old row without it |
| DataExtract.InsertColumn | dataextract.py:73-79 | `insertColumn` returns one new row per input row, each the input row with the value inserted |
| DataExtract.MatchesMeansSatisfies | dataextract.py:109-113 | the early-exit condition loop accepts a row exactly when every listed column equals its value |
| DataExtract.SelectedRaises | dataextract.py:107-111 | once a row raises IndexError, `select` raises |
| DataExtract.Select | dataextract.py:106-116 | `select` keeps the rows its condition loop accepts, in order, or raises |
| DataExtract.SelectedIsFilter | dataextract.py:106-116 | when nothing raises, `select` keeps exactly the rows satisfying every condition, in order |
| DataExtract.FilterMembers | dataextract.py:106-116 | a row is selected exactly when it is in the table and satisfies every condition |
| DataExtract.GroupBy | dataextract.py:82-93 | `groupBy` builds the groups row by row, or raises exactly when some group column is out of range |
| DataExtract.GroupedSpec | dataextract.py:82-93 | the group keys are exactly the rows' keys, and each group is exactly the rows with its key in table order, so every row is in exactly one group |
| DataExtract.GroupedKeys | dataextract.py:84-92 | the keys of the dictionary are exactly the keys of the rows |
| DataExtract.GroupedRows | dataextract.py:90-92 | each group holds the rows with its key, in table order |
| DataExtract.RowsWithKeyAbsent | dataextract.py:90-92 | a key no row has has no rows |
| DataExtract.TextLessTransitive | dataextract.py:123 | string order is transitive |
| DataExtract.TextLessTotal | dataextract.py:123 | string order is total and asymmetric |
| DataExtract.CellLessOrder | dataextract.py:123 | Python 2's cell order (numbers first, then strings) is a strict total order |
| DataExtract.InsertKey | dataextract.py:123 | inserting a key adds one one-cell key |
| DataExtract.InsertKeyElements | dataextract.py:123 | inserting adds exactly that key |
| DataExtract.InsertKeyAbove | dataextract.py:123 | inserting keeps every key above a common bound |
| DataExtract.InsertKeySorted | dataextract.py:123 | inserting a new key into sorted keys keeps them sorted |
| DataExtract.Unique | dataextract.py:119-124 | `unique` returns the distinct one-cell tuples of the column's values in ascending order, or raises exactly when some row lacks the column |

## Left out

- Socket and selector mechanics are not modelled. This covers `Selector.open`, `select` and `selectNow` (an oracle here), `register`, `bind`, `getLocalPort`, `configureBlocking` and `setTcpNoDelay`. The cross-thread wakeup of a blocked `select` is concurrency.
- Selection keys of connections already closed are skipped, as a cancelled key would be; the selector's own bookkeeping of cancelled keys is not modelled.
- NIOReadStream.ReadStream.TryRead: requires an open channel. A read on a closed channel throws ClosedChannelException, and that path is not modelled.
- NIOReadStream chunks are values, not shared ByteBuffer objects. Aliasing between chunks is not modelled, and neither are the `order(nativeOrder())` calls on read chunks, which only the unused multi-byte getters would see.
- NIOReadStream.ReadStream.Close: afterwards no operation may be called. The model does not say what a later call would do.
- Java `assert` statements are taken as enabled. A length prefix that is not positive is the `BadLength` result, and in the listener it becomes the `Crashed` outcome.
- NIOMessageConnection.Connection.Write: the prefix is written as little-endian, which assumes a little-endian native byte order. On a big-endian host the writer and the reader would disagree.
- NIOMessageListener.Listener.Close: does not re-establish the listener invariant, since no call is allowed after `close`. The server socket and selector, which are oracles here, are not closed explicitly.
- NIOMessageListener.Listener.HandleSelectedKeys: states that events are only appended and counts the accepted connections. It does not state the whole queue as the per-key events in selection order. The events of each key are stated by HandleKey.
- The listener's `IOException` paths (`RuntimeException`) are not modelled; the oracle never fails.
- The C++ `FifoBuffer` destructor is not modelled; it frees memory.
- FifoBuffers.FifoBuffer.AdvanceWritePosition: the caller's `memcpy` into the pointer `getWritePosition` returned is folded into the call. The raw pointer and `size_t` arithmetic are not modelled.
- NIOReadStream.ReadStream.DataAvailable: `totalAvailable` is an unbounded integer. The Java `int` would wrap once more than 2^31 - 1 bytes are buffered, and that is not modelled.
- FifoBuffers.FifoBuffer.Available: the C++ `int` result does not overflow for buffers under 2 GB, and larger ones are not modelled.
- `buffer.cc` and `buffer.h` are not part of this model. `ReadBuffer::read` relies on `available()` counting unread bytes; see Findings.
- `ServerBase.Client` stream I/O (`readMessage`, `writeMessage`), `parsePort`, `parseArgs` and `serverClientLoop` are not modelled; they are blocking socket I/O.
- ServerBase.Client.SetMessage: requires a message shorter than 2^31 bytes, which every Java array is.
- The UTF-8 charset decoder is a parameter. A decode call is given the characters the decoder produces, and malformed-input replacement, `flush` and `reset` are not modelled.
- StringDecoders.StringDecoder.Decode: the `capacity * 2` of the overflow step is taken as unbounded. A Java `int` would wrap beyond 2^30 characters.
- StringDecoders.StringDecoder.Decode: assumes each decoder call consumes all of its input, so the loop ends. With `endOfInput` false (StringDecoder.java:54), input ending inside a multi-byte UTF-8 sequence gets UNDERFLOW with those bytes left, for example `decode(new byte[]{(byte) 0xe2}, 0, 1)`. The `while (input.hasRemaining())` loop then calls the decoder again on the same bytes, apparently without end. That case is not modelled.
- ThreadClient's `main`, `ClientThread`, the timing and the printing of latencies are not modelled. They are threads, clocks and I/O.
- LatencyRecords.SumLatencies: models the report for one record. The outer loop over all threads' records only repeats it. The `long` sum and the `int` count are unbounded here, so overflow past 2^63 or 2^31 values is not modelled.
- LatencyRecords.LatencyIterator: is valid only while no block is added. The list iterator would then throw ConcurrentModificationException, and that case is excluded by the iterator's invariant.
- ByteBufferBench.ByteArrayTester.FillArray: requires a non-empty source. With an empty one the Java loop never ends.
- ByteBufferBench.ByteBufferTester.FillArray: requires a non-empty source, because the Java loop never ends otherwise. It also requires a source that is not the buffer's own backing array.
- ByteBufferBench.ByteArrayTester.CopyIntBytes: takes a non-negative offset, as `fillInt` passes.
- The sink of ByteStreams takes every byte it is given, as a blocking stream or channel does. Partial channel writes are not modelled.
- `ByteBufferStream`, `MappedByteBufferStream` and `MappedByteBufferArrayStream` are not modelled: they add only JDK ByteBuffer behaviour. `throughput` and the benchmark drivers are floating point and timing code.
- The direct ByteBuffer and heap ByteBuffer are the same here; only position, limit, store and order are modelled.
- `dataextract.py`: `tryFloat` is reduced to the choice of cell kind, number or text. Floats are modelled as reals.
- Python rows are values. A Python row object shared between input and output (`select`, `groupBy`) is not distinguished from a copy.
- The dictionary iteration order behind `keys()` is left open: `Unique` takes the keys in any order and sorts them.
- `readCSVTable`, `writeCSVTable`, `extractTables`, `selectStats`, `selectStatsConfPlot`, `sqlFromTable` and `foo` are not modelled. They do file I/O, SQLite and floating-point statistics from a module that is not part of this model.
- Python 2's comparison of values of unrelated types is reduced to numbers before strings.

## Findings

| source | as written | input that shows it | evidently intended | confidence | as-written member | corrected member |
|---|---|---|---|---|---|---|
| fifobuffer.h:35-38 | `available()` returns `(blocks - 1) * 4096 + write_position_` and ignores `read_position_` | 10 bytes written into a new buffer, then 4 read: 6 bytes are unread but `available()` returns 10 | the number of bytes still to be read, `(blocks - 1) * 4096 + write_position_ - read_position_`, as its comment says | not executed | FifoBuffers.AvailableOvercounts | FifoBuffers.AvailableCorrectedCountsUnread |
