# A verified model of the websocket_cpp data path

The repository is a small WebSocket stack: a frame codec (`WSProtocol`), a growing byte buffer
(`ws::base::Buffer`), a connection that pushes and pulls bytes through two such buffers
(`NetConnection`), a client and a server on top, and a few helpers. This project models the path of
a message from `encodeFrame` through the send buffer and the socket to `decodeFrame`, and the helpers
beside it, in Dafny 4.11. `dafny verify dfyconfig.toml` checks it.

| file | what it models |
|---|---|
| `Bytes.dfy`, `Bits.dfy` | byte strings; the bits of a byte and the number they spell |
| `BufferState.dfy`, `Buffer.dfy` | `Buffer` as values and as the object that is updated in place |
| `BufferRuns.dfy` | arbitrary runs of buffer operations against a queue of bytes |
| `Connection.dfy` | `sendInReactor`, `handleWrite`, `handleRead` |
| `Frames.dfy` | header bit-fields, lengths, masking, the bytes of a frame |
| `Encoding.dfy`, `Decoding.dfy`, `Protocol.dfy` | `encodeFrame` and `decodeFrame` as values and as methods working in place |
| `WireFormat.dfy` | every byte `encodeFrame` sends, and what `decodeFrame` makes of any bytes |
| `RoundTrip.dfy` | exactly which messages come back |
| `Reassembly.dfy` | the frame buffer and the deliveries after any frames |
| `Chunking.dfy` | a stream of frames read in any chunks whatever |
| `MessageStreams.dfy`, `Endpoints.dfy` | many messages, client and server |
| `Losses.dfy`, `EndToEnd.dfy` | the whole way, also when part of what is sent never reaches the wire |
| `StrSplit.dfy`, `Urls.dfy` | `strsplit` and the URL parsing of the `WSNet` constructor |
| `BitFields.dfy` | `getbit` and `setbit` |
| `LogCounters.dfy` | the rate-limit counters of the glog header |

## Conventions

- A failed `assert`, a read or write outside a block, and a loop that stops advancing all end the
  program: they are `None`, `ok == false`, `Refused`, or a `Stop` other than `Done`.
- `Buffer` keeps live bytes beyond `size()` but below `capacity()`, so the model keeps the vector's
  whole block. When the vector reallocates, `junk` is the memory past the requested size: any length
  (the extra capacity) and any contents. The empty `junk` is a vector that allocates exactly.
- `Form` selects `newSpace` as written or with two repairs: after compaction the read index is the
  reserve (base/Buffer.h:179), and growth asks for reserve + readable + len bytes (base/Buffer.h:165).
  Every lemma says which form it is about. `newSpace` is entered through the guard of its callers.
- `&*buffer_.begin()` is taken to be the block's address although the vector may be empty
  (base/Buffer.h:139). The constructor reserves the default size whatever its argument (base/Buffer.h:53).
- Uninitialised header fields of control frames are the parameter `stack` (websocket/WSProtocol.cpp:76).
- A chunk is its `len` bytes. `decodeFrame` is handed `data.c_str()` (websocket/WSNet.cpp:99-102,
  websocket/WebSocketServer.cpp:63-67), whose terminator lies behind them; a read of that byte, like any
  read at or past `len`, counts as past the chunk and ends in `ReadsPastChunk`.
- Headers are laid out as on a little-endian machine with bit-fields from the low end. This is not the
  bit order of section 5.2 of RFC 6455; the model follows the code.
- What callbacks receive is returned; what a socket takes or delivers is a parameter. "Delivered"
  means handed to the callback of `decodeFrame`, which keeps the payloads "PONG" (websocket/WSNet.cpp:133-142)
  and "PING" (websocket/Heartbeat.cpp:200-220) from the application.

## What the proofs found

- Compaction as written slides the unread bytes onto the reserve and drops their tail; growth as
  written leaves too little room when the read index is below 8. Both are stated exactly
  (`WriteAsWrittenExact`, and `AsWrittenStepExact` for every call), with a three-call run that corrupts data (`AsWrittenCorrupts`) and a two-call run that
  stops the program (`AsWrittenStops`). Clients that
  only drain never reach either, and are never stopped by the buffer itself (`DrainOnlyRunsAgree`,
  `StreamConserved`).
- `sendInReactor` computes the remainder only after a direct write, so a message offered while bytes
  wait, or while the direct write fails, is dropped (`SendPathExact`). What waits is never sent either, since the
  write callback that stays is not `handleWrite` (`AsWiredExact`). The client notices: over sends alone it
  delivers exactly the messages only if the socket took every chunk whole (`AsWiredArrival`).
- A fragmented message whose last fragment is shorter than 126 bytes gets the wrong last fragment
  (websocket/WSProtocol.cpp:187); one of a whole number of 500-byte slices never arrives; an empty
  payload stops the program (`EncodedBytes`); control payloads of 126 bytes or more are misdeclared. `RoundTripExact`
  is the complete account. The 2048-byte message of unitest.cpp:32 falls into the first family and
  comes back only because its bytes are all equal (`EqualBytesHide`).
- `encodeFrame` leaves the caller's array masked. Sending the array again delivers what it first held in one
  case only, a close frame of 1 to 125 bytes whose mask bit, left uninitialised, is clear
  (`SecondSendExact`). The masked bytes are delivered instead exactly when the masked array is itself
  Faithful (`SentTwice`).
- `decodeFrame` keeps no partial frame: a chunk that ends inside a frame is read past its end. A client
  gets through exactly the streams whose every read ends on a frame boundary (`FeedExact`, `ClientExact`).
- Any chunk of bytes has exactly one reading as frames, up to its end or to a header that is refused, and
  `decodeFrame` does what that reading says (`DecodeExact`, `OneReading`). A fragment with a 7-bit length
  and a masked frame with nothing in it are assertion failures (`HeaderRefused`), although other peers may
  send both.
- A final fragment is delivered but stays in the frame buffer until the next text or blob fragment opens a
  message (`AssembleExact`).
- The server makes a new decoder for every chunk and so forgets fragments that arrived before. It
  delivers everything exactly when every read holds whole messages (`ServerExact`, `ServerForgets`).
- The `WSNet` constructor tests for two pieces of the URL and uses the third, and then the second of its
  parts untested. `OutOfRangeExact` gives the URLs that are indexed past the end, such as "ws://" and
  "ws://host".

## Model

| member | source | states |
|---|---|---|
| WireFormat.EncodedBytes | websocket/WSProtocol.cpp:74-297 | for every message: encodeFrame is refused iff the payload is empty and the opcode is not the continuation; otherwise the number and size of the chunks and, byte by byte, each chunk: FIN, RSV and opcode 1, 2, 8, 9 or 10, mask bit and length code, 16-bit length low byte first, the mask 02 08 20 80, and bytes that xored with the mask in the chunk are the payload or its slice |
| WireFormat.TextOnTheWire | websocket/WSProtocol.cpp:82-120 | the text "hi" is sent as 11 05 02 08 20 80 6A 61 |
| WireFormat.DecodeExact | websocket/WSProtocol.cpp:300-418 | for a chunk of any bytes and every decoder state: 4194304 bytes or more are refused; otherwise the chunk has a reading as frames ended by its end or by a refused header, and decoding does what those frames mean and then ends as the reading ends |
| WireFormat.OneReading | websocket/WSProtocol.cpp:304-415 | no chunk has two readings |
| WireFormat.OneFrameExact | websocket/WSProtocol.cpp:304-415 | one turn of the loop on any bytes: a frame they start with is taken whole, and when they start with none the numbers in the header say whether an assertion fails, the loop spins or the chunk is read past |
| WireFormat.HeaderRefused | websocket/WSProtocol.cpp:352-387 | a fragment whose length code is not 126, a masked frame of declared length 0, and length code 127 are refused with nothing delivered and the frame buffer unchanged |
| WireFormat.WiresRead | websocket/WSProtocol.h:6-13 | the concatenated bytes of any well-formed frames are read as exactly those frames |
| WireFormat.Weights | websocket/Utility.cpp:12-12 | the bits of a byte, from the low end, and the number they spell |
| Reassembly.AssembleExact | websocket/WSProtocol.cpp:337-412 | any frames from any decoder state: they are taken iff what is gathered since the last opening fragment never exceeds 4194304 bytes; the frame buffer then holds what is gathered, and each final frame has delivered its own payload or, if it continues a message, what was gathered by then |
| RoundTrip.RoundTripExact | websocket/WSProtocol.cpp:74-418 | for every opcode, payload, decoder state and header garbage: the chunks of encodeFrame make decodeFrame deliver the payload once and unchanged if and only if it is Faithful (a guard on length, mask bit and, for short last fragments, a repeated tail) |
| RoundTrip.RoundTripByLength | websocket/WSProtocol.cpp:96-230 | a data message of length n comes back whatever its bytes exactly when 0 < n < 500, or n % 500 >= 126 and n fits the frame buffer |
| RoundTrip.AssembleFragments | websocket/WSProtocol.cpp:143-230 | the fragments of a message rebuild it up to a last fragment taken one slice early when it is short; they overflow exactly when the message exceeds the frame buffer |
| RoundTrip.WholeSlicesLost | websocket/WSProtocol.cpp:143-208 | a message of a whole number of slices delivers nothing; only the one-slice case even returns |
| RoundTrip.MisdeclaredFrame | websocket/WSProtocol.cpp:234-292 | a control frame brings its payload across only if the payload is shorter than 126 bytes and the mask bit is set |
| RoundTrip.EqualBytesHide | unitest.cpp:32-38 | a long message of equal bytes comes back even when its last fragment is misplaced |
| RoundTrip.SecondSendExact | websocket/WSProtocol.cpp:74-292 | for every opcode, payload, decoder state and header garbage: sending the array that encodeFrame has masked a second time delivers what it first held iff it is a close frame of 1 to 125 bytes whose uninitialised mask bit is 0 |
| RoundTrip.SentTwice | websocket/WSProtocol.cpp:74-292 | the second send delivers the masked bytes instead iff the masked array is Faithful, as it is for every data message of safe length; those bytes differ from what was sent |
| Encoding.FragmentIsFrame | websocket/WSProtocol.cpp:151-227 | masking the whole message first equals masking each fragment on its own, since slices start on multiples of four |
| Encoding.PiecesWellFormed | websocket/WSProtocol.cpp:153-230 | the first k chunks of a fragmented message are the bytes of k well-formed frames |
| Frames.MaskedTwice | websocket/WSProtocol.cpp:30-72 | masking and unmasking are inverse |
| Frames.HeadRoundTrip | websocket/WSProtocol.h:6-13 | a header survives being laid out in two bytes and read back |
| Frames.HeadNumbers | websocket/WSProtocol.h:6-13 | the first header byte is FIN + 2 RSV + 16 Opcode, the second mask + 2 PayloadLen |
| Frames.HeadOfNumbers | websocket/WSProtocol.h:6-13 | any two bytes are read as the header of which that holds |
| Frames.BytesRoundTrip | websocket/WSProtocol.h:6-13 | every pair of bytes is the layout of the header read from it |
| Decoding.DecodeFrames | websocket/WSProtocol.cpp:300-418 | decoding the concatenated bytes of any well-formed frames does what the frames mean, for every decoder state |
| Decoding.FeedAppend | websocket/WSProtocol.cpp:300-418 | one decoder fed two lists of chunks in turn does what it does fed their concatenation |
| Chunking.FeedExact | websocket/WSProtocol.cpp:300-418 | frames read in any chunks whatever by one decoder: decoding goes on exactly while every chunk ends on a frame boundary, and then does what the whole frames so far mean |
| Chunking.ChunkBoundaryExact | websocket/WSProtocol.cpp:304-415 | a chunk of any well-formed frames starting on a frame boundary is decoded to its end exactly when it ends on one, or inside the mask of an empty unmasked frame; otherwise it is read past |
| Chunking.FeedDone | websocket/WSProtocol.cpp:300-418 | whatever the frames mean, even if they cannot be assembled: when every chunk is decoded to its end, each ends on a frame boundary |
| Chunking.ServeBoundaries | websocket/WebSocketServer.cpp:60-69 | with a new decoder for every chunk, too, the end is reached exactly when every chunk ends on a frame boundary |
| Chunking.ControlPassesThrough | websocket/WSProtocol.cpp:350-383 | a control frame between fragments is delivered at once and leaves reassembly untouched |
| MessageStreams.ClientExact | websocket/WSNet.cpp:96-105 | faithful messages, read in any chunks whatever and from any decoder state: the client gets through iff every chunk ends on a frame boundary, having delivered exactly the messages whose last frame has come, in order |
| MessageStreams.ServerExact | websocket/WebSocketServer.cpp:60-69 | faithful messages, read in any chunks whatever: the server delivers them all, in order and nothing else, iff every chunk holds whole messages |
| MessageStreams.ServerForgets | websocket/WebSocketServer.cpp:66-68 | an instance of the failure: of a faithful fragmented message split over two chunks the client delivers all and the server only what follows the first chunk |
| EndToEnd.MessagesArrive | websocket/WSNet.cpp:58-120 | messages encoded and sent with nothing dropped, at any moment: a client reading the wire in any chunks gets through iff every read ends on a frame boundary, having delivered exactly the messages whose last frame is on the wire |
| EndToEnd.AsWiredArrival | websocket/WSNet.cpp:58-120 | as the callbacks are wired, either buffer form: faithful messages are sent over an empty connection, part of which may never reach the wire; a client that has just started, reading the wire in any chunks, delivers exactly those messages iff the socket took every chunk of encodeFrame whole and every read ends on a frame boundary |
| EndToEnd.SendShape | net/NetConnection.cpp:159-216 | sending frames puts some on the wire whole, at most one more in part and none after it; all are there iff each was taken whole |
| Losses.LossShows | websocket/WSProtocol.cpp:337-412 | of the frames of faithful messages any may be missing: if what is left still delivers exactly the messages, none is |
| EndToEnd.ReadsAreReadable | base/Buffer.cpp:16-52 | no read a connection makes, from a fresh buffer that allocates exactly, is empty or reaches the MAX_FRAMESIZE bytes that decodeFrame refuses |
| EndToEnd.ReceiversExact | net/NetConnection.cpp:37-61 | so over such reads, with no bound assumed: the client delivers all messages iff every read ends on a frame boundary, the server iff every read holds whole messages |
| MessageStreams.SendsAreFrames | websocket/WSNet.cpp:65-68 | what encodeFrame's callback sends for a list of faithful messages is the bytes of their frames |
| Protocols.WSProtocol.constructor | websocket/WSProtocol.cpp:14-18 | a new decoder has a frame buffer of MAX_FRAMESIZE bytes and nothing pending |
| Protocols.WSProtocol.EncodeFrame | websocket/WSProtocol.cpp:74-297 | the in-place encoder emits the chunks of the specification and leaves the payload masked |
| Protocols.WSProtocol.SendSlices | websocket/WSProtocol.cpp:143-230 | the slicing loop emits fragment i on turn i, reusing one header |
| Protocols.WSProtocol.DecodeFrame | websocket/WSProtocol.cpp:300-418 | the in-place decoder ends, delivers and leaves pending what the specification says |
| Protocols.WSProtocol.Take | websocket/WSProtocol.cpp:337-412 | an unmasked payload goes to the callback or through the frame buffer, as its FIN bit and opcode say |
| Protocols.ComputeMask | websocket/WSProtocol.cpp:30-72 | the loop masks exactly its range, in place |
| Endpoints.WSNet.OnReadable | websocket/WSNet.cpp:96-105 | a read of the client decodes exactly the bytes the socket held, with the client's own decoder |
| Endpoints.WebSocketServer.OnReadable | websocket/WebSocketServer.cpp:60-69 | a read of the server decodes exactly those bytes, with a new decoder |
| BufferRuns.RepairedStep | base/Buffer.h:74-201 | repaired: a call fails exactly when its own assertion does, and otherwise acts as the queue, for every capacity the vector picks |
| BufferRuns.RepairedRun | base/Buffer.h:74-201 | repaired: a run completes iff its arguments pass their own assertions, and then is a run of a plain queue of bytes, window and results alike |
| BufferRuns.AsWrittenRun | base/Buffer.h:74-201 | as written: a run that meets no unsafe newSpace completes iff its arguments pass their own assertions, and then is a run of the queue |
| BufferRuns.AsWrittenStepExact | base/Buffer.h:74-201 | as written, any legal call: it acts as the queue for every contents of the block iff its indices, lengths and extra capacity make it safe |
| BufferRuns.FirstUnsafe | base/Buffer.h:74-201 | as written: a legal run that is not safe comes, after safe calls that act as the queue, to a call that for some contents of the same lengths does not |
| BufferRuns.AsWrittenCorrupts | base/Buffer.h:173-181 | as written: write, partial retrieve, write on a fresh buffer replaces unread bytes; repaired, the same run does not |
| BufferRuns.AsWrittenStops | base/Buffer.h:159-172 | as written: prepending 8 bytes to a fresh buffer and writing more than 4096 stops the program with an exact vector; repaired, the same run succeeds |
| BufferRuns.DrainOnlyRunsAgree | base/Buffer.h:90-201 | for drain-only clients the two forms go through identical states |
| BufferRuns.StreamConserved | websocket/WSNet.cpp:96-103 | as written: an interleaving of appends and drains is stopped only by an argument its own call refuses, and what was drained followed by what is unread is everything appended, in order |
| BufferRuns.WritesNeverRefused | base/Buffer.h:74-201 | runs of write, ensureWritableBytes and readAll have no argument to refuse, so with the row above they always complete |
| BufferRuns.CapacityBounded | base/Buffer.h:155-201 | with an exact vector and demand at most m, capacity never exceeds max(4104, m+8) repaired, max(4104, 2m+6) as written, whatever the traffic |
| BufferRuns.CapacityBoundsTight | base/Buffer.h:155-201 | both bounds are attained from a fresh buffer, for every m above 4096 |
| BufferRuns.ReserveKept | base/Buffer.h:57-88 | repaired: read index plus bytes prepended since it last stood at 8 is at least 8, so with nothing owed any header of up to 8 bytes goes in front |
| BufferRuns.ReserveLostAsWritten | base/Buffer.h:173-181 | as written: after compaction every prepend is refused |
| BufferRuns.ReserveStepExact | base/Buffer.h:74-201 | as written, any call: read index plus bytes owed stays at least 8 iff the call does not compact or 8 bytes were owed already |
| BufferRuns.EmptyNormalForm | base/Buffer.h:48-201 | either form, any run: an empty window has both indices at 8, so compaction always has a byte to move |
| BufferState.WriteAsWrittenExact | base/Buffer.h:155-201 | as written: for given indices write appends for all contents if and only if nothing moves, or the block grows and read index plus extra capacity covers the reserve |
| BufferState.GrowthAsWritten | base/Buffer.h:159-172 | as written: growth stays in the block iff readPos + len + extra >= 8, keeps the window, and leaves len + extra + readPos - 8 bytes of room |
| BufferState.GrowthBlock | base/Buffer.h:159-172 | either form of growth, for every byte of the new block: window at the reserve, earlier elements, zeros or earlier memory |
| BufferState.ResetForgets | base/Buffer.h:105-109 | after reset the first write that grows the block leaves eight zeros and the data, whatever was there |
| BufferState.EnsureRoom | base/Buffer.h:74-80 | the room ensureWritableBytes leaves in each branch and form; it is as much as asked for iff repaired, or nothing grows, or read index plus extra capacity covers the reserve |
| BufferState.GrowthReallocates | base/Buffer.h:159-165 | entered through the guards, either form of growth asks for more than the capacity |
| BufferState.CompactionAsWritten | base/Buffer.h:173-181 | as written: the new window is the reserve bytes followed by the old window, cut to the old length |
| BufferState.CompactionMovesLeft | base/Buffer.h:173-178 | entered through the guards, compaction has readPos > 8 and a non-empty window that fits at the reserve |
| BufferState.NewSpaceRepaired | base/Buffer.h:155-182 | repaired: newSpace keeps the window, restores the reserve and leaves at least len bytes |
| BufferState.ReadFdRepaired | base/Buffer.cpp:16-52 | repaired: readfd appends whatever the socket hands over, up to the room plus 65536 bytes |
| Buffers.Buffer.constructor | base/Buffer.h:48-54 | a new buffer reserves 4104 bytes and has both indices at the reserve |
| Buffers.Buffer.NewSpace | base/Buffer.h:155-182 | both branches, in place or into a new block, give the specified state |
| Buffers.Buffer.Grow | base/Buffer.h:159-172 | the growing branch: save the window, resize, copy it back to the reserve |
| Buffers.Buffer.Compact | base/Buffer.h:173-181 | the moving branch, over overlapping ranges of one block |
| Buffers.Buffer.EnsureWritableBytes | base/Buffer.h:74-80 | newSpace only when the room is short |
| Buffers.Buffer.Fill | base/Buffer.h:129-152 | bytes placed at the write pointer join the window, or nothing changes |
| Buffers.Buffer.Write | base/Buffer.h:191-201 | the specified state, or the assertion failure |
| Buffers.Buffer.Prepend | base/Buffer.h:83-88 | data in front of the window, or the assertion failure with nothing changed |
| Buffers.Buffer.Retrieve | base/Buffer.h:90-103 | bytes dropped from the front, both indices back at the reserve when none remain |
| Buffers.Buffer.Read | base/Buffer.h:112-120 | the first len bytes, which then leave the window |
| Buffers.Buffer.ReadAll | base/Buffer.h:123-126 | the whole window, which is then empty |
| Buffers.Buffer.Reset | base/Buffer.h:105-109 | an empty window at the reserve, capacity kept |
| Buffers.Buffer.ReadFd | base/Buffer.cpp:16-52 | the state after a socket read that may overflow the room into write |
| Buffers.MoveLeft | base/Buffer.h:176-178 | an overlapping forward copy towards lower indices moves every byte unchanged and touches nothing else |
| Connections.SendPathConserves | net/NetConnection.cpp:67-216 | either form, any run: wire plus waiting bytes is exactly the messages taken, in order |
| Connections.SendPathExact | net/NetConnection.cpp:159-216 | nothing offered is lost from wire and buffer together over a run if and only if every non-empty message finds the buffer empty and its direct write successful |
| Connections.AsWiredExact | net/NetConnection.cpp:19-22 | with handleWrite never called, as the callbacks are wired: everything offered reaches the wire iff every non-empty message is taken whole by its direct write |
| Connections.SendExact | net/NetConnection.cpp:159-216 | one send succeeds; it changes nothing if bytes wait or the direct write fails, else the wire gains exactly what the write took and exactly the rest waits |
| Connections.WritableExact | net/NetConnection.cpp:67-91 | one handleWrite asserts iff the socket takes nothing; else the wire gains exactly the first n waiting bytes and the others wait on |
| Connections.NetConnection.SendInReactor | net/NetConnection.cpp:159-216 | one send: what reaches the wire, what waits, what is dropped |
| Connections.NetConnection.HandleWrite | net/NetConnection.cpp:67-91 | what the socket takes leaves the buffer; taking nothing is an assertion failure |
| Connections.NetConnection.HandleRead | net/NetConnection.cpp:37-61 | the chunk given to the callback is exactly what the socket delivered, for either form and any earlier state; the buffer is left drained, with the block the read has made |
| Connections.ReadsBounded | net/NetConnection.cpp:37-61 | over either form and any run of reads from a block shorter than 131080 bytes, with an exact vector: no read reaches 131072 bytes |
| Connections.ReadsBoundTight | base/Buffer.cpp:16-52 | two reads on a fresh buffer reach 131071 bytes |
| StrSplit.SplitInvertsJoin | websocket/Utility.cpp:81-95 | splitting a join gives the parts back iff in every earlier part + separator the separator first occurs at the end of the part, and the last part is non-empty and separator-free |
| StrSplit.Reconstructs | websocket/Utility.cpp:81-95 | the pieces hold no separator and, joined or each followed by the separator, give the string back |
| StrSplit.SplitComposes | websocket/Utility.cpp:83-94 | when x leaves no tail, splitting x + y is splitting x and y |
| StrSplit.EndsClean | websocket/Utility.cpp:83-94 | a string that ends with a one-character separator leaves no tail |
| StrSplit.SplitInto | websocket/Utility.cpp:81-95 | the loop appends exactly the pieces to the caller's vector and terminates |
| Urls.ParseExact | websocket/WSNet.cpp:24-33 | the constructor reaches host and port exactly for URLs of the shape a/b/host:port, followed by nothing, a second ':' part or a '/' part |
| Urls.OrdinaryUrl | websocket/WSNet.cpp:24-33 | scheme://host:port with or without a path gives host and port |
| Urls.NoClientExact | websocket/WSNet.cpp:27-27 | the client stays unset iff no '/' stands before the last character |
| Urls.OutOfRangeExact | websocket/WSNet.cpp:27-32 | the vector is indexed past its end iff the URL has exactly two pieces, or a third piece with no ':' before its last character; equivalently iff it passes the guard and has no host and port |
| Urls.TwoPiecesOutOfRange | websocket/WSNet.cpp:27-29 | every URL of exactly two pieces passes the guard and is indexed past the end |
| Urls.NoHostOutOfRange | websocket/WSNet.cpp:27-29 | "ws://" is one |
| Urls.NoPortOutOfRange | websocket/WSNet.cpp:31-32 | every URL whose third piece has no port is indexed past the end of its parts |
| Urls.BareHostOutOfRange | websocket/WSNet.cpp:31-32 | "ws://host" is one |
| Urls.Parse | websocket/WSNet.cpp:24-33 | the constructor, refilling one vector, takes the specified branch |
| BitFields.GetBit | websocket/Utility.cpp:14-38 | the loop returns the field at the low end |
| BitFields.Extracted | websocket/Utility.cpp:14-38 | each bit of the field read is the source's bit, and the rest are clear |
| BitFields.SetBit | websocket/Utility.cpp:40-59 | the loop returns the byte with the field written |
| BitFields.Written | websocket/Utility.cpp:40-59 | each covered bit is the value's, each other bit the source's |
| BitFields.LastWriterWins | websocket/Utility.cpp:40-59 | after any updates a bit is the one written by the latest call covering it, or the original |
| BitFields.FieldAfterUpdates | websocket/Utility.cpp:12-59 | getbit of any field after any updates, bit by bit |
| BitFields.ReadBack | websocket/Utility.cpp:12-59 | a field reads back what was written, and a disjoint field what it held |
| BitFields.DisjointCommute | websocket/Utility.cpp:40-59 | updates of disjoint fields commute |
| LogCounters.EverySchedule | log/glog/logging.h:885-892 | LOG_EVERY_N logs on executions 1, n+1, 2n+1, ... and no others |
| LogCounters.EveryCount | log/glog/logging.h:885-892 | in m executions it logs ceil(m / n) times |
| LogCounters.SchemesAgree | log/glog/logging.h:885-903 | the modulo counter of LOG_IF_EVERY_N logs exactly where the subtracting counter would on the executions whose condition holds |
| LogCounters.FirstSchedule | log/glog/logging.h:912-919 | LOG_FIRST_N logs on the first n executions only, its counter stopping at n+1 |
| LogCounters.EveryN.Execute | log/glog/logging.h:885-892 | the statement logs exactly on its executions 1, n+1, 2n+1, ..., by an invariant tying its wrapped counter to how often it has run |
| LogCounters.IfEveryN.Execute | log/glog/logging.h:894-903 | over any history of conditions the statement logs exactly on the true ones numbered 1, n+1, 2n+1, ... among the true ones |
| LogCounters.FirstN.Execute | log/glog/logging.h:912-919 | the statement logs exactly on its first n executions, by an invariant on its stopping counter |

## Left out

- Integer width: `int` and `size_t` arithmetic is unbounded; the truncations to 7, 8 and 16 bits in frame headers are modelled.
- Decoding.OneFrame: does not model the string terminator behind a chunk. In the source a one-byte remainder takes it as the second byte of the header, and a final one then counts as an empty frame.
- Decoding.Decode: reports `NeverReturns` with nothing delivered for an unmasked final frame of length code 127, although the source then calls the callback again on every turn.
- `newSpace` called directly, without the guard of its callers; negative lengths and bit positions; the empty separator, on which the loop of `strsplit` does not advance.
- Which handler runs: the constructor of `NetConnection` sets the write callback three times (net/NetConnection.cpp:20-22), so the last, `handleError`, stays; `handleWrite` is modelled as a function that may be called whenever bytes wait, and `AsWiredExact` is about runs without it.
- Disconnected connections, `handleClose`, `handleError`, write-complete callbacks, errno values and threads.
- The filter that takes "PING" and "PONG" payloads out after decoding, and the answers to them; heartbeat timers, `TimerQueue`, `Reactor`, thread pools and acceptors, which the modelled path does not call.
- `atoi` of the port, logging output, and the memory that `encodeFrame` does not free.
- The rest of the glog header.
