# A verified model of the XiaoTuNetBox core

XiaoTuNetBox is a C++ network toolbox for Linux: an event loop over `poll`, TCP connections with buffered
writes, an HTTP front end and WebSocket sessions. This project models the parts of it that keep state over
unbounded runs, in the form the C++ code has (classes with fields, methods that change them, loops), and proves
what they are for. Every class is tied to a function over values; the main results are lemmas about those
functions over all inputs, all runs or all interleavings.

`dafny verify dfyconfig.toml` checks everything.

## The parts

- **WebSocket messages.** `WsFrame` is the standard's side (sections 5.2 and 5.3 of RFC 6455: layout, masking).
  `WsParser` is the parser as a left fold over bytes, `WsRecognition` says exactly which byte strings it takes for
  a message, `WsMessage` is the class `WebSocketMsg` with its buffers, proved to compute the fold for any chunks,
  and `WsServer` is the driver `OnWsMessage` over whole connections; `WsStuck` says on which bytes it does not return.
  `WsStream` reads streams of frames as the standard does and joins both directions: what a peer sends is delivered,
  what is pushed is what a peer reads. `WsSamples` has the examples of section 5.7 of RFC 6455.
- **Handshake.** `Base64` and `Sha1` are the standards (section 4 of RFC 4648, sections 4 to 6 of RFC 3174) beside the
  code's bit accumulators; `Sha1Base64Module` is the optimised in-place SHA-1 with its own Base64 tail; `Handshake`
  puts them together, and `AcceptSample` computes the example of section 1.3 of RFC 6455 round by round.
- **Queue and write path.** `DataQueueModule` is the ring buffer, `QueueRuns` its runs, `ConnectionModule` the buffered
  writes of a connection under partial sends, `SendQueueModule` the queue that other threads push to, with its eventfd.
- **Time wheel.** `TimeWheel` is the wheel as a value and its runs, `ConnectionNodeModule` the circular lists,
  `TcpServerModule` the server's rings in the heap.
- **Tables.** `SlotTable` is a table with reused places; `EventLoopModule` and `TcpAppServerModule` are its two users.
  `ConnectionLoopModule` joins the loop's table and a connection, and the time wheel's mark and the close.

The C++ class `WebSocketHandler` appears in four parts: the receiving side is `WsServer.WebSocketHandler`, the handshake
`Handshake.WebSocketHandler`, the sending side `SendQueueModule.SendQueue`, and its base class `Handler`, the place in
the server's table with the wake-upper, `TcpAppServerModule.Handler`.

`Bytes`, `Folds` and `PollEventHandlerModule` are shared. A failed `assert` of the C++ code is the outcome `Aborted`,
never an assumption, and each contract says exactly when it happens.

## What the proofs found

- `OnWsMessage` fails to return exactly when a byte follows a CLOSE frame in the same chunk, or a chunk follows the one
  in which a head was refused: the driver tests the handler's state, which nothing sets, and not the message's
  (`WsServer.StuckExactly`, and on the bytes `WsStuck.StuckAfterClose` and `WsStuck.StuckAfterBadHead`). An empty CLOSE
  frame with one more byte behind it is enough (`WsStuck.OneByteAfterClose`). Likewise `Parse` on a message built for
  sending would repeat an idle pass for ever.
- The parser takes four bytes for a masking key also after a clear mask bit, drops the top bit of a 64-bit length, and
  takes lengths in more bytes than needed and control frames that are fragments or longer than 125 bytes. Every string
  of the shape it takes that uses one of these liberties is taken, and in the header of a single frame they are its only
  deviations from sections 5.1, 5.2 and 5.5 of RFC 6455 (`WsRecognition.MessageShape`, `WsRecognition.AgreesExactly`).
- A connection that is told to close writes once more and is closed in the same turn. What that write does not take is
  lost, so a response followed by a close, as the HTTP server sends it, can be truncated
  (`ConnectionModule.ClosingLosesTheRest`, `ConnectionModule.ClosingTruncates`).
- A connection accepted before the time-out is set is marked by the first tick, unless it is active between the two
  (`TimeWheel.ExtensionAges`).
- A message of 2^63 bytes or more is built with a length that the standard does not allow (`WsMessage.BuiltDecodes`).
- Pushing several elements into a `DataQueue` trips its assert although they fit, when they would fill the buffer
  exactly and the first element is not in the first cell; a connection gets there with ordinary partial sends
  (`QueueRuns.PushBackAllCanAbort`, `ConnectionModule.SendCanAbort`).
- `Rearrange` and `AdjustCapacity` lose the queue's invariant exactly when they move the elements into a buffer that
  they fill: the end pointer then lies behind the buffer. Four in, one out, one in and `Rearrange` do it
  (`DataQueueModule.RearrangeCanBreak`).
- The loop polls with a copy of a connection's events that is made before it ever has anything to write, so `poll`
  never reports it writable; that is also why the assert in `OnWriteEvent` cannot fail. It could if and only if bytes
  waited when the connection is placed on its loop and it were not to be closed (`ConnectionLoopModule.PlacingDecides`).
  Waiting bytes are sent because every pass calls every handler (`ConnectionModule.WaitingBytesAreSent`).
- A callback that sends on its own session, as `utils/u_ws_server.cpp:32` does, runs on the loop's thread. If the
  eventfd counter is full by then, its wake-up blocks for good, for only that thread reads the counter
  (`SendQueueModule.ProgressExactly`, `SendQueueModule.SelfBlockedForGood`); otherwise nothing stands in a message's way
  but the end of the session.
- The comment on `Sha1Base64` asks for room for 64 more bytes; up to 72 are written, 72 exactly for lengths that are 56
  modulo 64 (`Sha1.PaddedLengthIsLeast`). The proofs follow the code.
- The handshake hashes key and GUID only for keys of 24 bytes; for other lengths it hashes what the buffer holds.
- Applying a handler that is on a loop already, or a session that is in the table already, is not checked for and
  breaks the table; the contracts say so in both directions.

## Model

| member | source | states |
|---|---|---|
| `WsFrame.DecodeEncode` | `include/XiaoTuNetBox/WebSocketMsg.h:39-48` | the frame layout of section 5.2 of RFC 6455 loses nothing: decoding the bytes of any valid frame, in any length form, masked or not, gives the frame back |
| `WsFrame.MaskTwice` | `src/WebSocketMsg.cpp:355-367` | the masking of section 5.3 is its own inverse |
| `Bytes.XorIsExclusiveOr` | `src/WebSocketMsg.cpp:365` | a bit of a masked byte is set exactly if payload and key differ in it |
| `WsSamples.TextSamples` | `src/WebSocketMsg.cpp:117-142` | the text messages of section 5.7 of RFC 6455, with and without mask, whole and fragmented, have the bytes given there |
| `WsSamples.ControlSamples` | `src/WebSocketMsg.cpp:117-142` | so have its PING and its masked PONG |
| `WsSamples.BinarySamples` | `src/WebSocketMsg.cpp:117-142` | so have its binary messages of 256 bytes and of 64 kilobytes |
| `WsSamples.SamplesDelivered` | `src/WebSocketServer.cpp:194-224` | the masked examples are delivered in clear with their opcodes |
| `WsFrame.MinimalFormIsMinimal` | `src/WebSocketMsg.cpp:117-142` | no length form that can hold a length is shorter than the minimal one |
| `WsFrame.KnownOpcodes` | `src/WebSocketMsg.cpp:40-46` | the opcodes that section 5.2 defines, by number |
| `WsRecognition.EncodeDecode` | `include/XiaoTuNetBox/WebSocketMsg.h:39-48` | conversely every byte string that decodes is the encoding of its frame, so the layout is one to one |
| `WsParser.RunRests` | `src/WebSocketMsg.cpp:151-178` | in every reachable state fewer bytes are buffered than the state needs, an unfinished payload is shorter than announced and a finished one exactly as long |
| `WsParser.RunAppend` | `src/WebSocketMsg.cpp:313-353` | what a message becomes depends only on the concatenation of the bytes it was given |
| `WsParser.ErrorIffBadHead` | `src/WebSocketMsg.cpp:186-217` | the error state is entered exactly for non-zero reserved bits or an opcode outside 0, 1, 2, 8, 9, 10 |
| `WsParser.RunFrame` | `src/WebSocketMsg.cpp:186-306` | the bytes of any masked client frame, also with a length form that is not minimal, become one new message with the opcode and the payload in clear |
| `WsParser.RunPartialFrame` | `src/WebSocketMsg.cpp:186-306` | no proper prefix of a client frame completes a message or is refused |
| `WsRecognition.MessageShape` | `src/WebSocketMsg.cpp:186-353` | the parser takes a byte string for one message if and only if it is a good head, a length, a key and a payload of the announced length without its top bit; the body is that payload, unmasked if the mask bit is set |
| `WsRecognition.TakesMaskedFrames` | `src/WebSocketMsg.cpp:186-353` | a byte string is laid out as section 5.2 lays out a masked frame with a known opcode if and only if it has that shape, a set mask bit and a clear top bit; such a frame is received with its opcode and payload |
| `WsRecognition.TakesExactlyClientFrames` | `src/WebSocketMsg.cpp:186-353` | it is allowed from a client (sections 5.1, 5.2 and 5.5 of RFC 6455) if and only if besides the length takes the minimal number of bytes and a control frame is no fragment and has 125 bytes at most; the parser receives all of these |
| `WsRecognition.AgreesExactly` | `src/WebSocketMsg.cpp:186-353` | parser and standard disagree on exactly the strings of that shape with one of these liberties: clear mask bit, set top bit, length not minimal, odd control frame; the parser takes every one of them |
| `WsRecognition.UnmaskedIsTaken` | `src/WebSocketMsg.cpp:266-278` | an empty text frame without a mask is taken together with the next four bytes, whatever they are |
| `WsRecognition.TopBitIsTaken` | `src/WebSocketMsg.cpp:246-258` | a frame of one byte that announces 2^63 + 1 is taken |
| `WsRecognition.LongFormIsTaken` | `src/WebSocketMsg.cpp:226-238` | a frame of one byte with its length in two bytes is taken |
| `WsRecognition.OddControlIsTaken` | `src/WebSocketMsg.cpp:186-217` | a PING that says it is a fragment, and one of 126 bytes, are taken |
| `WsMessage.WebSocketMsg.constructor` | `src/WebSocketMsg.cpp:85-89` | a message for receiving has seen no byte |
| `WsMessage.WebSocketMsg.Build` | `src/WebSocketMsg.cpp:96-111` | the content of a built message is the header with the minimal length form followed by the payload |
| `WsMessage.WebSocketMsg.SetPayloadLen` | `src/WebSocketMsg.cpp:117-142` | lays out the header in the minimal length form, keeps opcode byte and mask bit, and sizes the content to header plus payload |
| `WsMessage.WebSocketMsg.GetData` | `src/WebSocketMsg.cpp:151-178` | hands out exactly the n bytes wanted, from the buffer and the chunk, or keeps the whole chunk; the error branch is taken only with n or more bytes buffered, which no reachable state has |
| `WsMessage.WebSocketMsg.OnReadingHead` | `src/WebSocketMsg.cpp:186-217` | advances the pass through the fold over bytes by the head, or refuses it |
| `WsMessage.WebSocketMsg.OnReadingLen16` | `src/WebSocketMsg.cpp:226-238` | advances the pass by the 16-bit length |
| `WsMessage.WebSocketMsg.OnReadingLen64` | `src/WebSocketMsg.cpp:246-258` | advances the pass by the 64-bit length without its top bit |
| `WsMessage.WebSocketMsg.OnReadingMask` | `src/WebSocketMsg.cpp:266-278` | advances the pass by the masking key |
| `WsMessage.WebSocketMsg.OnReadingPayload` | `src/WebSocketMsg.cpp:286-306` | advances the pass by as much payload as there is and unmasks a complete one; the assert on the sizes holds |
| `WsMessage.WebSocketMsg.XorPayload` | `src/WebSocketMsg.cpp:355-367` | the in-place loop unmasks the payload as section 5.3 says and leaves the header alone |
| `WsMessage.WebSocketMsg.ParsePass` | `src/WebSocketMsg.cpp:315-351` | one pass of the loop is the fold over the bytes it consumes, and leaves the loop unless the message was built |
| `WsMessage.WebSocketMsg.Parse` | `src/WebSocketMsg.cpp:313-353` | the loop body runs at most once, and the message afterwards is the fold of the bytes consumed: up to the position returned, or the whole chunk for a null pointer |
| `WsMessage.BuiltDecodes` | `src/WebSocketMsg.cpp:96-142` | a built message decodes to its opcode and payload in the minimal length form if and only if the payload is shorter than 2^63 bytes |
| `WsMessage.BuiltIsShortest` | `src/WebSocketMsg.cpp:96-142` | no valid frame without a mask with this opcode and payload has a shorter encoding than the built content, and one as short that ends a message has the same bytes |
| `WsMessage.PreSendEqualsBuild` | `src/WebSocketMsg.cpp:369-376` | receiving any masked frame and calling `PreSend` leaves the bytes that building a message from opcode and payload gives |
| `WsMessage.IsOpcodeValide` | `src/WebSocketMsg.cpp:40-46` | true exactly of the opcodes that section 5.2 of RFC 6455 defines |
| `WsServer.WebSocketHandler.OnWsMessage` | `src/WebSocketServer.cpp:194-224` | consumes a chunk as a fold over its bytes; fails to return exactly if a byte follows a CLOSE frame or the session had stopped before |
| `WsServer.WebSocketHandler.OnParsed` | `src/WebSocketServer.cpp:202-219` | a complete message goes to the callback with opcode and clear payload and a new message is begun; a CLOSE closes and stays |
| `WsServer.WebSocketHandler.Reset` | `include/XiaoTuNetBox/WebSocketHandler.h:55-59` | a message that has seen no byte, and the open state |
| `WsServer.ChunksDoNotMatter` | `src/WebSocketServer.cpp:194-224` | for every byte stream, valid or not, the session after any chunking depends only on the concatenation |
| `WsServer.StuckExactly` | `src/WebSocketServer.cpp:202-223` | over any chunking of any bytes, up to the close of the connection, the handler fails to return if and only if one chunk holds the end of a CLOSE and a byte behind it, or a chunk follows the one with a refused head |
| `WsStuck.StuckAfterClose` | `src/WebSocketServer.cpp:202-223` | for every stream of client frames that ends with a CLOSE, any bytes behind it and any chunks: the handler fails to return if and only if there are such bytes and no chunk begins with them |
| `WsStuck.StuckAfterBadHead` | `src/WebSocketServer.cpp:202-223` | for every stream of client frames without a CLOSE, any bytes with a refused head behind it and any chunks: it fails to return if and only if a chunk begins behind the second byte of that head |
| `WsStuck.OneByteAfterClose` | `src/WebSocketServer.cpp:202-223` | an empty CLOSE frame and one byte behind it, in one chunk, are such an input |
| `WsStuck.ChunkAfterClose` | `src/Event/PollEventHandler.cpp:58-63` | in two chunks they are not: the connection is closed with the first |
| `WsStuck.OneChunkAfterBadHead` | `src/WebSocketServer.cpp:202-223` | so are a head with opcode 3 and one more byte in the next chunk |
| `WsServer.FramesInAnyChunks` | `src/WebSocketServer.cpp:194-224` | for every list of valid client frames, CLOSE at most once and last, and every split into non-empty chunks: all chunks are consumed, the callback gets exactly the other frames in order, and the connection is closed exactly if there is a CLOSE |
| `WsServer.ClosesWithItsLastByte` | `src/WebSocketServer.cpp:206-209` | at any byte before the end of such a stream the connection has not been told to close |
| `WsServer.AllAreDelivered` | `src/WebSocketServer.cpp:202-219` | without a CLOSE among them, one delivery is made for each frame, with its opcode and its payload |
| `WsServer.FeedFramesUpTo` | `src/WebSocketServer.cpp:194-224` | at any byte before the end exactly the frames complete by then have been delivered |
| `WsStream.FramesOfParts` | `include/XiaoTuNetBox/WebSocketMsg.h:39-48` | a stream of frames in the layout of section 5.2 reads back as exactly those frames: where each ends can be told from its header |
| `WsStream.ServedAsRead` | `src/WebSocketServer.cpp:194-224` | what reads as a stream of masked frames in the layout of section 5.2 of RFC 6455, CLOSE last, the server delivers, in whatever chunks the stream comes |
| `DataQueueModule.DataQueue.constructor` | `include/XiaoTuNetBox/DataQueue.hpp:18-24` | an empty queue of capacity 4 |
| `DataQueueModule.DataQueue.Size` | `include/XiaoTuNetBox/DataQueue.hpp:43-51` | the number of elements, folded or not |
| `DataQueueModule.DataQueue.Folded` | `include/XiaoTuNetBox/DataQueue.hpp:60-68` | true exactly if the elements start behind the first cell and reach the last one |
| `DataQueueModule.DataQueue.FoldedHead` | `include/XiaoTuNetBox/DataQueue.hpp:72-77` | when folded, the first elements in order lie in this many cells before the end of the buffer |
| `DataQueueModule.DataQueue.FoldedTail` | `include/XiaoTuNetBox/DataQueue.hpp:81-86` | when folded, the other elements in order lie in this many cells at its start |
| `DataQueueModule.DataQueue.FreeTail` | `include/XiaoTuNetBox/DataQueue.hpp:91-103` | together with `FreeHead` the free cells; all of them when empty or folded |
| `DataQueueModule.DataQueue.Clear` | `include/XiaoTuNetBox/DataQueue.hpp:136-140` | no elements, same capacity |
| `DataQueueModule.DataQueue.Realloc` | `include/XiaoTuNetBox/DataQueue.hpp:524-542` | keeps the elements in order at the start of a new buffer; the invariant holds afterwards exactly if a cell is left free |
| `DataQueueModule.DataQueue.Rearrange` | `include/XiaoTuNetBox/DataQueue.hpp:147-152` | moves the elements to the start; loses the invariant exactly for a full queue that does not start there |
| `DataQueueModule.RearrangeCanBreak` | `include/XiaoTuNetBox/DataQueue.hpp:147-152` | four in, one out, one in, `Rearrange`: the end pointer is behind the buffer |
| `DataQueueModule.DataQueue.AdjustCapacity` | `include/XiaoTuNetBox/DataQueue.hpp:160-175` | never loses an element, says whether the capacity is now the one asked for, and keeps the invariant exactly if nothing was moved or a cell is left free |
| `DataQueueModule.DataQueue.PushFront` | `include/XiaoTuNetBox/DataQueue.hpp:182-196` | the element before the others, growing if full |
| `DataQueueModule.DataQueue.PopFront` | `include/XiaoTuNetBox/DataQueue.hpp:200-216` | the first element and the rest, or nothing from an empty queue |
| `DataQueueModule.DataQueue.PopFrontN` | `include/XiaoTuNetBox/DataQueue.hpp:223-256` | the first n elements in order and the rest; aborts exactly unless 0 < n <= size |
| `DataQueueModule.DataQueue.DropFront` | `include/XiaoTuNetBox/DataQueue.hpp:262-293` | the rest; aborts exactly unless 0 <= n <= size |
| `DataQueueModule.DataQueue.AcceptBack` | `include/XiaoTuNetBox/DataQueue.hpp:300-329` | the next n cells become elements; aborts exactly unless 0 <= n <= free |
| `DataQueueModule.DataQueue.PushBack` | `include/XiaoTuNetBox/DataQueue.hpp:335-349` | the element behind the others, growing if full |
| `DataQueueModule.DataQueue.PushBackAll` | `include/XiaoTuNetBox/DataQueue.hpp:356-387` | appends exactly the buffer, or aborts; it aborts exactly if the buffer is empty or the new size is the capacity and the first element is not in the first cell |
| `DataQueueModule.DataQueue.PopBack` | `include/XiaoTuNetBox/DataQueue.hpp:391-408` | the last element and the others |
| `DataQueueModule.DataQueue.PeekFront` | `include/XiaoTuNetBox/DataQueue.hpp:412-419` | the first element |
| `DataQueueModule.DataQueue.PeekFrontAt` | `include/XiaoTuNetBox/DataQueue.hpp:436-444` | the element at an offset, if there is one |
| `DataQueueModule.DataQueue.PeekFrontN` | `include/XiaoTuNetBox/DataQueue.hpp:446-474` | n elements from an offset in order, if there are so many; for a negative n nothing, or, exactly where the elements are folded behind the offset, a copy of a negative length |
| `DataQueueModule.DataQueue.PeekBack` | `include/XiaoTuNetBox/DataQueue.hpp:480-491` | the last element |
| `QueueRuns.StepRefines` | `include/XiaoTuNetBox/DataQueue.hpp:160-408` | each operation, capacity changes included, is the one on a plain sequence and keeps the invariant; it aborts exactly for the sequence's reasons or the buffer's |
| `QueueRuns.RunRefines` | `include/XiaoTuNetBox/DataQueue.hpp:160-408` | over every run the queue holds what the plain sequence holds, through wrap, growth, capacity changes, exact fill and emptying |
| `QueueRuns.GrowthIsAmortised` | `include/XiaoTuNetBox/DataQueue.hpp:182-196` | over every run from a new queue in which nobody sets the capacity, elements copied by reallocation never exceed the capacity, and the capacity never exceeds 4 or twice the largest size |
| `QueueRuns.PushBackAllCanAbort` | `include/XiaoTuNetBox/DataQueue.hpp:380-385` | the assert in pushing several elements is within reach: three in, one out, two in |
| `ConnectionModule.Connection.constructor` | `src/Connection.cpp:15-46` | nothing sent, nothing waiting, polled for reading alone |
| `ConnectionModule.Connection.SendBytes` | `src/Connection.cpp:86-102` | sends at once if nothing waits, queues the rest and asks for write events; aborts exactly if the queue's assert fails |
| `ConnectionModule.SendsAtOnceOrWaits` | `src/Connection.cpp:86-102` | with nothing waiting the socket gets all bytes at once and the rest waits, for which alone write events are asked; behind waiting bytes nothing is sent |
| `ConnectionModule.Connection.OnWriteEvent` | `src/Connection.cpp:52-64` | sends what the socket takes of the piece at the front, drops exactly that, and keeps write interest exactly while bytes wait; aborts exactly on an empty queue |
| `ConnectionModule.WritesTheFront` | `src/Connection.cpp:55-63` | a write event sends what the socket takes of the piece at the front, which reaches to the last byte or to the end of the buffer |
| `ConnectionModule.Connection.OnReadEvent` | `src/Connection.cpp:66-77` | end of stream asks for closing, data goes to the callback |
| `ConnectionModule.Connection.HandleEvents` | `src/Event/PollEventHandler.cpp:44-64` | reads, then writes, then closes once, as the machine over values says, for any reaction of the user's callback |
| `ConnectionModule.ReadingIsDone` | `src/Connection.cpp:66-77` | of a readable socket the end of the stream closes the connection in the same turn, and data is answered by exactly what the callback sends; one that is not readable is left alone |
| `ConnectionModule.ReadsBeforeWriting` | `src/Event/PollEventHandler.cpp:48-56` | what a callback could not send at once is offered again in the same turn |
| `ConnectionModule.RunConservesBytes` | `src/Connection.cpp:52-124` | over every run of sends, closes and polls with any partial or failing sends: bytes sent followed by bytes waiting are the bytes submitted, write interest is on exactly while bytes wait, and the closing callback has run at most once |
| `ConnectionModule.HandleKeepsValid` | `src/Event/PollEventHandler.cpp:44-64` | handling events keeps this, and a connection that is to close is closed when it returns |
| `ConnectionModule.WriteAssertExactly` | `src/Connection.cpp:53` | the assert of `OnWriteEvent` fails exactly if the socket is reported writable while nothing waits |
| `ConnectionModule.PollAbortsInReactionOnly` | `src/Event/PollEventHandler.cpp:44-64` | polled for reading alone, which `ConnectionLoopModule.RunsAsAlone` proves of the loop, that assert never fails from `HandleEvents`; an abort comes from the user's reaction |
| `ConnectionModule.WaitingBytesAreSent` | `src/Connection.cpp:52-64` | while the connection is not to be closed, as many polls as bytes wait, each taking at least one, leave nothing waiting and everything sent |
| `ConnectionModule.ClosingWritesOnce` | `src/Event/PollEventHandler.cpp:53-63` | a connection that is to be closed is closed by its next poll, whatever is read; all it has been given by then is sent if and only if nothing waits after reading or one write takes all of it |
| `ConnectionModule.ClosingLosesTheRest` | `src/Event/PollEventHandler.cpp:53-63` | however often it is polled, what waits when it is told to close is sent if and only if that one write takes all of it |
| `ConnectionModule.ClosingTruncates` | `src/Http/HttpServer.cpp:157-160` | sending two bytes and closing, as the HTTP server does, loses the second if the socket takes one |
| `ConnectionModule.TwoWritesAreEnough` | `src/Connection.cpp:55-58` | if the socket takes all it is offered, two write events send everything, and one if the bytes are not folded |
| `ConnectionModule.SendCanAbort` | `src/Connection.cpp:96` | the queue's assert is within reach of partial sends |
| `SendQueueModule.NoLostWakeUp` | `include/XiaoTuNetBox/WebSocketHandler.h:86-108` | over every interleaving of producers and the loop: popped messages followed by queued ones are those pushed, in order, and while one is queued the eventfd counter is positive, a producer is between push and wake-up, or the loop is draining |
| `SendQueueModule.ProgressExactly` | `src/Event/WakeUpper.cpp:26-39` | while a message is not handed to the connection, a wake-up, a read or a pop is possible if and only if the session is alive and the loop's own thread is not blocked writing to a full counter |
| `SendQueueModule.SelfBlockedForGood` | `src/Event/WakeUpper.cpp:26-29` | a loop's thread that blocks so stays blocked in every run, and nothing more is handed over |
| `SendQueueModule.SelfBlockingIsReachable` | `src/Event/WakeUpper.cpp:26-29` | it can: 2^52 - 1 wake-ups of another thread fill the counter before the loop reads it, and a callback sends |
| `SendQueueModule.EverythingIsDelivered` | `src/WebSocketServer.cpp:143-159` | once nobody calls any more, every schedule ends within a bounded number of steps, and where it ends everything is handed to the connection in push order unless the session was released or the loop's thread blocks itself |
| `SendQueueModule.EveryByteInPushOrder` | `src/WebSocketServer.cpp:143-159` | on any connection, such as one with the handshake response partly sent, over every interleaving of producers, wake-ups, draining, polls, partial sends and closing, until an assert fails: bytes sent, bytes waiting in the connection and messages queued are what went before followed by the messages pushed, in push order |
| `SendQueueModule.SendQueue.SendMsg` | `include/XiaoTuNetBox/WebSocketHandler.h:100-108` | is the push followed by the wake-up, or stops before a wake-up that blocks |
| `SendQueueModule.SendQueue.PopSendMsg` | `include/XiaoTuNetBox/WebSocketHandler.h:86-97` | takes the first message, or sees the queue empty |
| `SendQueueModule.SendQueue.HandleWsReponse` | `src/WebSocketServer.cpp:143-159` | on any connection and whatever other threads do meanwhile, draining is a run of the machine and ends with the queue seen empty or an abort in the connection |
| `WsStream.PeerReadsWhatWasPushed` | `include/XiaoTuNetBox/WebSocketHandler.h:86-108` | on any connection and over every interleaving of threads, loop, partial sends and closing, the bytes sent, waiting and queued after what went before the queue read, by the standard, as the messages that were built and pushed, in that order |
| `WsStream.SessionsStartSo` | `src/HttpModuleUpgradeWs.cpp:47-54` | a session on a connection that has submitted its handshake response, sent or not, with wake-ups left from before, is such a start |
| `Base64.AlphabetIsTable` | `src/Utils.cpp:155` | the alphabet spells Table 1 of RFC 4648 |
| `Base64.ValueIsTable` | `src/Utils.cpp:183-185` | decoding reads the table backwards: every byte outside the alphabet has no value, every letter its own |
| `Base64.PaddingTells` | `src/Utils.cpp:171-174` | the text ends in two padding characters for one byte in the last group, in one for two, in none for three, and has none before |
| `Base64.PadIsEquals` | `src/Utils.cpp:174` | the padding character is =, which is no letter |
| `AcceptSample.EncodingSamples` | `src/Utils.cpp:156-177` | examples of section 10 of RFC 4648 |
| `Base64.DecodeEncode` | `src/Utils.cpp:156-202` | decoding the encoding of any byte string gives it back, and the encoding has 4 * ceil(n / 3) letters |
| `Base64.Base64Encode` | `src/Utils.cpp:156-177` | the loop with its wrapping 32-bit accumulator computes the grouping of section 4 of RFC 4648, at any length |
| `Base64.Base64Decode` | `src/Utils.cpp:180-202` | the loop computes what the letters before the first other byte stand for, at any length |
| `Base64.Window4` | `src/Utils.cpp:163-167` | the encoder's window on the accumulator shows the last two bytes whatever was shifted out and whatever the sign |
| `Base64.ByteWindow2` | `src/Utils.cpp:194-199` | so does the decoder's on the last two letters |
| `Sha1.PaddedLengthIsLeast` | `src/Utils.cpp:207-216` | the padded length is the least multiple of 64 that is at least the length plus 9; it is at most 72 more than the length, and that exactly for lengths that are 56 modulo 64 |
| `Sha1.ConstantsAreRoots` | `src/Utils.cpp:224-235` | the four constants are the square roots of 2, 3, 5 and 10 in units of 2^-30, rounded down |
| `Sha1.FirstFunctionChooses` | `src/Utils.cpp:226` | in every bit the first function chooses |
| `Sha1.ThirdFunctionTakesMajority` | `src/Utils.cpp:232` | in every bit the third one takes the majority |
| `Sha1.ShiftsAreCircular` | `src/Utils.cpp:149-152` | the shifts by 1, 5 and 30 are circular |
| `Sha1Base64Module.ScheduleIsMixed` | `src/Utils.cpp:223` | the schedule begins with the block, and every later word is the exclusive or of four before it, shifted by one |
| `Sha1Base64Module.PadInPlace` | `src/Utils.cpp:207-211` | the buffer holds the message, the bit and the zeros of section 4 of RFC 3174 |
| `Sha1Base64Module.SwapWords` | `src/Utils.cpp:212-215` | reverses the bytes of every word before the length, nothing else |
| `Sha1Base64Module.Prepare` | `src/Utils.cpp:206-217` | the words of the buffer are those of the padded message |
| `Sha1Base64Module.FastFIsF` | `src/Utils.cpp:225-235` | the rewritten functions are those of section 5 of RFC 3174 |
| `Sha1Base64Module.RoundInPlace` | `src/Utils.cpp:222-238` | updating two of five cells under names that move by (j + k) mod 5 is the round that shifts a to e |
| `Sha1Base64Module.RingStep` | `src/Utils.cpp:223` | the word that overwrites cell i & 15 is word i of the 80-word schedule, and the cells hold its last sixteen words |
| `Sha1Base64Module.NextWord` | `src/Utils.cpp:223-236` | in the buffer, each round reads the schedule's word |
| `Sha1Base64Module.ProcessBlock` | `src/Utils.cpp:218-240` | eighty rounds in place, with the names back where they began, are the compression of section 6.1 of RFC 3174 |
| `Sha1Base64Module.ProcessBlocks` | `src/Utils.cpp:218-240` | the blocks in turn give the chaining value of the padded message |
| `Sha1Base64Module.EncodePieces` | `src/Utils.cpp:242-256` | the tail writes the Base64 text of the digest, padding included |
| `Sha1Base64Module.Sha1Base64` | `src/Utils.cpp:205-257` | leaves the Base64 text of the SHA-1 digest of RFC 3174 for every message, and touches no other byte of the output |
| `Handshake.HashesKeyAndGuidExactly` | `src/WebSocketHandler.cpp:64-67` | the 60 bytes hashed are the key followed by the GUID if and only if the key has 24 bytes |
| `Handshake.GuidIsText` | `src/WebSocketHandler.cpp:67` | the GUID is the one of section 1.3 of RFC 6455, character by character |
| `Handshake.SampleRequest` | `src/WebSocketHandler.cpp:35-58` | the request of section 1.2 of RFC 6455 is accepted, whatever its key and other headers |
| `Handshake.EveryConditionCounts` | `src/WebSocketHandler.cpp:35-58` | an accepted request is refused without any one of its four headers, and with another upgrade or version |
| `AcceptSample.SampleAccept` | `src/WebSocketHandler.cpp:60-85` | for the key of the example in section 1.3 of RFC 6455 the accept value is the one given there |
| `Handshake.BufferIsJustLargeEnough` | `src/WebSocketHandler.cpp:65-70` | they pad to the 128 bytes of the buffer |
| `Handshake.WebSocketHandler.AcceptHandShake` | `src/WebSocketHandler.cpp:60-85` | aborts exactly for a request that is no handshake or a key that overruns the buffer; else answers 101 with the accept value of section 4.2.2 of RFC 6455 for a key of 24 bytes, and for other keys with the text for the bytes in the buffer |
| `TimeWheel.After` | `src/TcpServer.cpp:36-92` | over every run of accepts, messages, requests to close, closes and ticks: no connection is in two places, only held ones are marked, and their number never exceeds the limit |
| `TimeWheel.SlotIsAge` | `src/TcpServer.cpp:84-92` | over every run a connection that has not been asked to close, with k ticks since its last activity, sits in slot n - 1 - k |
| `TimeWheel.EvictedAtTheNthTick` | `src/TcpServer.cpp:36-44` | a tick marks such a connection exactly if it is the n-th without activity, never earlier or later |
| `TimeWheel.SilentRun` | `src/TcpServer.cpp:36-68` | a connection that is accepted and then silent is marked by the n-th tick and by none before |
| `TimeWheel.AgeCounts` | `src/TcpServer.cpp:36-92` | every tick adds one to the age of a connection, and its acceptance and every message set it to 0 |
| `TimeWheel.ActiveIsLast` | `src/TcpServer.cpp:57-58` | a connection enters at the end of the last slot, and a message moves it there |
| `TimeWheel.ExtensionAges` | `src/TcpServer.cpp:21-25` | a connection held when slots are added is older by their number from then on; one held by a wheel of one slot is marked by the first tick, exactly unless it is active before |
| `ConnectionNodeModule.Add` | `src/ConnectionNode.cpp:13-18` | the links after inserting, also where the nodes coincide |
| `ConnectionNodeModule.AddHead` | `src/ConnectionNode.cpp:20-22` | a ring with the node first |
| `ConnectionNodeModule.AddTail` | `src/ConnectionNode.cpp:24-26` | a ring with the node last |
| `ConnectionNodeModule.Delete` | `src/ConnectionNode.cpp:29-36` | the ring without the node |
| `ConnectionNodeModule.RingIsDoublyLinked` | `src/ConnectionNode.cpp:13-36` | in a ring x.next.prev == x == x.prev.next |
| `TcpServerModule.TcpServer.constructor` | `src/TcpServer.cpp:9-19` | one empty ring, no connection |
| `TcpServerModule.TcpServer.SetTimeOut` | `src/TcpServer.cpp:21-34` | aborts exactly for n <= 1, else adds n - 1 empty rings at the back and leaves every connection in its ring |
| `TcpServerModule.TcpServer.OnTimeOut` | `src/TcpServer.cpp:36-44` | marks exactly the connections of the first ring, makes it the last, and keeps n disjoint rings in the heap |
| `TcpServerModule.TcpServer.OnNewConnection` | `src/TcpServer.cpp:46-68` | turns a connection away exactly at the limit, else links it at the end of the last ring and counts it; rings stay disjoint and well formed |
| `TcpServerModule.TcpServer.OnMessage` | `src/TcpServer.cpp:84-92` | moves the node to the end of the last ring, also when it is there already; every other node keeps its place, rings stay disjoint and well formed |
| `TcpServerModule.TcpServer.OnCloseConnection` | `src/TcpServer.cpp:70-82` | unlinks the node and uncounts it; rings stay disjoint and well formed |
| `TcpServerModule.TcpServer.View` | `src/TcpServer.cpp:36-92` | a sound heap is a sound wheel: each connection once, as many as counted, at most the limit |
| `SlotTable.InsertKeepsValidExactly` | `src/Event/EventLoop.cpp:32-44` | taking the free place that was given back last keeps the free places exactly the empty ones, without repetition, and everything else in place; nothing is there twice exactly if it was not there before |
| `SlotTable.LastFreedFirst` | `src/Event/EventLoop.cpp:32-55` | the place given back last is taken first, and the other free places stay as they were |
| `SlotTable.ClearKeepsValid` | `src/Event/EventLoop.cpp:46-55` | giving a place back keeps this |
| `EventLoopModule.ApplyKeepsValidExactly` | `src/Event/EventLoop.cpp:9-18` | applying a handler keeps the two lists in step exactly if it has a descriptor and is not on the loop yet |
| `EventLoopModule.PlacesAreNotLost` | `src/Event/EventLoop.cpp:32-55` | over every run there are as many places as there were handlers at one time, never more |
| `EventLoopModule.QuietPass` | `src/Event/PollLoop.cpp:14-25` | a pass in which callbacks leave the loop alone tells every handler once, in order, what its entry says |
| `EventLoopModule.AskedIsLastPlaced` | `src/Event/PollLoop.cpp:27-34` | over every run, `poll` is asked about a handler what the handler held when it was last placed, whatever it holds now |
| `EventLoopModule.PollAnswersWhatIsAsked` | `src/Event/PollLoop.cpp:15` | `poll` leaves what is asked, and answers nothing else |
| `EventLoopModule.PassExecutes` | `src/Event/PollLoop.cpp:14-25` | the table after a pass is the one after all that its callbacks did, so the same holds over passes |
| `EventLoopModule.ToldUnlessRemoved` | `src/Event/PollLoop.cpp:14-25` | a pass tells every handler on the loop what `poll` said is ready of what it asked for, unless a callback removed it before its turn |
| `ConnectionLoopModule.RunsAsAlone` | `src/Event/PollLoop.cpp:14-34` | whatever is added to and removed from the loop, as long as nothing waits whenever the connection is placed: it is the connection alone polled for reading only, and aborts only as that does or on removing an absent handler |
| `ConnectionLoopModule.PlacingDecides` | `src/Event/PollEventHandler.cpp:44-57` | the assert of `OnWriteEvent` can fail in some later run if and only if bytes wait when the connection is placed on its loop and it is not to be closed |
| `ConnectionLoopModule.NewConnection` | `src/TcpServer.cpp:52-53` | a new connection is placed with nothing waiting, and is polled for reading alone |
| `ConnectionLoopModule.MarkedIsClosedByItsTurn` | `src/Event/PollEventHandler.cpp:58-63` | a connection marked for closing is closed, once, and off the loop by its next turn, whatever happens until then |
| `ConnectionLoopModule.EvictedIsClosedByItsTurn` | `src/TcpServer.cpp:36-44` | the wheel's mark is the flag in the handler that the server's node and the connection share: the connection is told to close by exactly the n-th silent tick, and closed by its next turn |
| `EventLoopModule.PollLoop.ApplyHandlerOnLoop` | `src/Event/EventLoop.cpp:9-18` | the lists and the handler's index after applying, and exactly when the loop stays sound |
| `EventLoopModule.PollLoop.UnApplyHandlerOnLoop` | `src/Event/EventLoop.cpp:20-28` | trips an assert exactly if the handler is not on this loop, else frees its place |
| `EventLoopModule.PollLoop.UnRegister` | `src/Event/PollLoop.cpp:36-47` | clears the entry; aborts exactly on a wrong index or descriptor |
| `EventLoopModule.PollLoop.HandleEvents` | `src/Event/PollEventHandler.cpp:44-46` | the assert on the descriptor fails exactly for the wrong entry, and the handler holds what the entry says is ready |
| `EventLoopModule.PollLoop.LoopOnce` | `src/Event/PollLoop.cpp:14-25` | while callbacks add and remove handlers, also the ones being told: no empty place is used as a handler, the assert on the descriptor never fails, every handler is told what the pass over the table says, and the loop stays sound |
| `TcpAppServerModule.After` | `src/TcpAppServer.cpp:21-72` | over every run of add, release and replace the holes are exactly the empty places, without repetition, and no session is there twice |
| `TcpAppServerModule.HolesAreReused` | `src/TcpAppServer.cpp:21-33` | over every run there are never more places than there were sessions at one time |
| `TcpAppServerModule.OthersStay` | `src/TcpAppServer.cpp:35-72` | no operation moves a session that it is not about |
| `TcpAppServerModule.ReplaceKeepsTidyExactly` | `src/TcpAppServer.cpp:61-72` | replacing keeps this exactly if the substitute was not in the table |
| `TcpAppServerModule.TcpAppServer.GetFreeHandlerIdx` | `src/TcpAppServer.cpp:21-33` | the hole made last, or a new place |
| `TcpAppServerModule.TcpAppServer.AddHandler` | `src/TcpAppServer.cpp:35-41` | puts the session in that place and tells it; the table stays sound exactly if the session was not in it; every session keeps a wake-upper of its own |
| `TcpAppServerModule.TcpAppServer.ReleaseHandler` | `src/TcpAppServer.cpp:43-54` | aborts exactly for a session that is not in the table, has no wake-upper, or one that is not on the loop; else takes the wake-upper off the loop and makes the place a hole |
| `TcpAppServerModule.TcpAppServer.ReplaceHandler` | `src/TcpAppServer.cpp:61-72` | aborts exactly if the original is not in the table, else puts the substitute in its place with its index and its wake-upper, which the original loses |

## Left out

- Sockets, `poll`, `read`, `send`, `eventfd`, timers and clocks: what they do is a parameter (how many bytes `send` takes, what `poll` finds ready, what `read` brings, a tick, a counter).
- The epoll back end, which runs the close callback inside `SetClosing`: the wheel is about the deferred close of the poll back end.
- User callbacks: they appear as lists of what they do to the connection or the loop, as messages delivered, or, for the time wheel, as requests to close (which only set a flag).
- Object lifetimes, `shared_ptr` counts, running out of memory, and the wrap-around of `int` sizes above 2^31; a `uint64_t` payload length is below 2^64.
- Fields that C++ leaves uninitialised (`mHeadLen`, `mPayloadLen`, `mMask`, payload bytes of a message built without a payload) start at zero; nothing reads them before they are set.
- WsMessage.WebSocketMsg.Parse: is stated for messages that were not built for sending, because on those the C++ loop does not end; `ParsePass` covers one pass of it.
- WsServer.WebSocketHandler.OnWsMessage: where the C++ loop does not return the method returns `stuck`; the handler is in its open state, which the code asserts and never changes.
- ConnectionModule.Connection.SendBytes: calls on the loop's thread only, as the write buffer has no lock.
- SendQueueModule.SendQueue.HandleWsReponse: the session is a WebSocket one; draining after its release, which does nothing, is not modelled.
- SendQueueModule.EveryByteInPushOrder: on a session's connection all later bytes come through the queue (a callback pushes, or asks to close); a wake-up after the release, which follows a null pointer in C++, is not a step.
- SendQueueModule.SendQueue.SendMsg: the two steps run without interruption in this method; the machine over steps interleaves them freely.
- Handshake.WebSocketHandler.AcceptHandShake: a key that overruns the buffer, which is undefined in C++, counts as aborted; the HTTP request is its header map, and formatting the response is not modelled.
- Sha1Base64Module.Sha1Base64: a little-endian host, messages below 2^61 bytes (the limit of RFC 3174), and a buffer with room for the padding.
- EventLoopModule.PollLoop.LoopOnce: callbacks apply a handler only if it is free and has a descriptor; closing within `HandleEvents` is in `ConnectionModule`, and `ConnectionLoopModule` has both at the grain of single turns.
- TcpServerModule.TcpServer.OnNewConnection: putting the connection on the event loop is `ConnectionLoopModule.NewConnection`, taking it off on closing is in `EventLoopModule`.
- Base64.Base64Decode: the 256-entry table `T` is the function `Value`.
- QueueRuns.RunRefines: a run is not followed beyond a `Rearrange` or `AdjustCapacity` that loses the representation; it counts as aborted there, though the C++ code goes on with an end pointer behind the buffer.
- DataQueueModule.DataQueue.PeekFrontN: a `memcpy` of a negative length, which is undefined, counts as aborted.
- HTTP parsing and modules, login, cookies, files, logging, `DataArray`, `InputBuffer`, `InBufObserver`, `ThreadWorker`, video, serial port and address classes: glue and wrappers that would add easy members.
- What a payload says (UTF-8, the status code of a CLOSE) and the order of fragments (section 5.4 of RFC 6455): neither the parser nor the standard's side of `WsRecognition` looks at it.
- ConnectionLoopModule.RunsAsAlone: a connection is not placed again after its close, when nobody holds it any more; a send on a closed connection may still be answered in any way, as its descriptor may be in use again.
- Fragmented messages: frames with opcode 0 are delivered one by one, as the code does; it does not reassemble them.
