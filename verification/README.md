# ews, verified

ews is a WebSocket library in Go (RFC 6455) with permessage-deflate
(RFC 7692). This project models its core in Dafny and proves what the
library is for: **what one application says over a connection is what the
peer's application hears**, whatever the role, the compression settings, the
way the transport cuts the bytes up, and the interleaving of goroutines with
the send queue.

`dafny verify dfyconfig.toml` checks everything.

## The layers

| layer | files | main result |
|---|---|---|
| UTF-8 validation | `Utf8`, `Utf8Scalars`, `Utf8Dfa`, `Utf8Simd` | the packed shift automaton and both vector kernels accept exactly the well-formed strings of section 4 of RFC 3629 |
| masking | `Masking` | the word-at-a-time cascade is the scalar definition of section 5.3 of RFC 6455, in place and across chunks |
| history | `Window`, `Pending`, `Compressor`, `SendContext` | three caches stacked on "the last N bytes sent" never disagree with it |
| DEFLATE | `Flate`, `Decompressor`, `MessageReader` | slice mode and streaming mode give the same output and the same window, within an exact limit |
| takeover | `Takeover` | sender and receiver keep the same history over every run, so every message inflates to what was sent |
| receiving | `Framing`, `Reception`, `HeaderOctets`, `Chunking`, `Decoder`, `Receiver` | however the wire is cut, the receiver reports what a one-shot parse of it reports; which headers it refuses, octet by octet |
| reading | `Messages`, `ConnRead` | `ReadMessage`, repeated `Read` and `WriteTo` deliver the same messages, inflated or not; `NextMessage` always enters the wire's next message, retries after transport errors included; `ReadMessage` succeeds exactly for a message that is whole, within the limit and valid |
| sending | `Wire`, `Sending`, `Outcomes`, `Encoder`, `Writer`, `WriteFrom` | when each call succeeds and what it then puts out; every run of the write API is accepted by the opposite role's receiver and reproduced message by message |
| the queue | `QueueProtocol`, `Queue`, `QueuedWire` | a FIFO with one writer and no lost wakeup; for every interleaving of callers the wire stays legal |
| all of it | `EndToEnd`, `QueuedEndToEnd`, `ReadEndToEnd` | `HeardAsSpoken` for any sequence of calls, `FirstOnesHeard` for any interleaving with a queue, `HandledAsSpoken` and `ReadThroughQueue` from either to the read API, each message read whole, streamed, streamed in part or left |

## How it is built

Code that works by changing things step by step is modelled by classes and
loops: the masking cascade and the decoder work on arrays that may be borrowed
or overlap, the window, the deferred history, the compressor, the
decompressor, the receiver, the sender and the queue are objects with the
source's fields. Each method is proved against a function of the state before
it, and the theorems are about those functions.

DEFLATE is foreign code, so it is a pair of values with laws (`Flate.Sound`):
an encoding made against a dictionary decodes under every dictionary that ends
in the same bytes, as far back as the encoder reaches; every flush ends in the
sync-flush tail; a final block ends a stream. `Flate.BackReferenceCodec`
exhibits a codec that meets them and whose output refers back to its
dictionary. Compression is taken not to fail. The read and write
halves of a transport, the control handler's answers, random masking keys and
the capacity that Go's `append` or a pool gives beyond what was asked for are
parameters.

The queue is a state machine whose steps are the critical sections of
`ws/queue.go`; the queue object's methods are proved to take the same steps on
arenas and segment lists.

## What does not hold

- **Continuation cache.** That an encoder which may continue a window agrees
  with it is false if the window is changed in the middle of a message
  (`Compressors.TouchedMidMessageLosesCoherence`). The exact condition, in
  window bytes, is `Compressors.TouchedAgreesExactly`: the history behind the
  chunk before and the history now end alike, as far back as the chunk does
  not cover. The connection code never changes the window in between.
- **Retrying `ReadMessage`.** The comment at `ws/conn_read.go:460-461` says
  that after a transport error the caller may retry. When the interrupted
  message is compressed under context takeover and part of its payload has
  already been gathered, the retry inflates only what is left. The receive
  window stays in step with the sender's, for every codec and every message,
  if and only if nothing had been gathered
  (`Takeover.RetryIsSafeExactly`): for every number of bytes gathered there is
  a message whose loss goes without any error (`Takeover.RetryLosesHistory`).
- **A truncated reader.** The comment at `ws/conn_write.go:88-90` says that
  `WriteFrom` returns a read error with the message still open. A reader that
  ends in an `io.ErrUnexpectedEOF` of its own is taken for one that ends
  there, and `WriteFrom` returns nil: the peer gets a complete message. The
  library's own `Conn.Read` ends that way on a truncated message
  (`ws/conn_read.go:35`, `ws/conn_read.go:468-469`), so a relay from one
  connection to another does. `WriteFrom.Send` returns the read error exactly
  for every other error; `WriteFrom.TruncatedGoesOutComplete` says what goes
  out, and that it differs at all, by an empty final frame, only when the
  content fills its chunks.
- **The close of a failing connection.** `sendClose` writes past the queue.
  The wire stays legal exactly when the queue then holds nothing unsent
  (`QueuedWire.SendCloseOvertakesQueue`), and one `Write` is enough for it to
  hold something (`QueuedWire.UnsentIsReachable`). `Close` itself joins the queue and
  has no such condition.
- **An empty read buffer.** Streaming with `Decompressor.Read` and slice mode
  agree only for buffers that hold something. The exported `Read` has no guard
  for an empty one: while output is still to come it takes the inflater's empty
  answer for no progress, fails the message and clears the window
  (`deflate/decompressor.go:178-180`). For a reader that does not fail and a
  message that inflates, `Read` fails if and only if the buffer is empty and
  something is still to come (`Decompressors.Decompressor.Read`); `Drain` says
  what follows for a whole message. `Conn.Read` keeps empty buffers away
  (`ws/conn_read.go:48-50`).
- **A negative limit.** The comment at `deflate/decompressor.go:66-67` says
  any error clears the window. `Decompress` with a negative limit returns an
  error and leaves it alone; the model follows the code.

## Model

| member | source | states |
|---|---|---|
| `EndToEnd.HeardAsSpoken` | ws/conn_write.go:14-275 | for any sequence of calls of the write API, refused ones and the close included, with control frames between fragments, compressed or not, with or without takeover, masked or not, prepared messages by either role: parsing the octets put on the wire, gathering messages and inflating them against the receive window gives the opcodes, contents and control frames of the successful calls, in order, up to the close |
| `ReadEndToEnd.ReadAsSpoken` | ws/conn_read.go:299-380 | for any run of the write API, and whatever the transport and the control handler do, the messages repeated ReadMessage returns are the first ones said, with their opcodes and contents; when neither refuses anything, it stops before the number asked for only behind the last one said, or at one that is over the reader's limit, plain or compressed, or is text that is not the UTF-8 it checks for |
| `ReadEndToEnd.HandledAsSpoken` | ws/conn_read.go:15-380 | for any run of the write API, every message is handled in its own way: read whole, streamed to its end with any buffers, streamed in part, or left unread. What the reader is told is what was said, or the first of it where it stopped reading, and behind each message its history is that of a listener who read everything; with nothing refused it stops only at a message that does not suit, or behind the last |
| `ReadEndToEnd.ReadVariously` | ws/conn_read.go:15-380 | the same on any wire |
| `ReadEndToEnd.Stream` | ws/conn_read.go:15-85 | NextMessage and Read to the end hear the first message that is to end, and remember it |
| `ReadEndToEnd.Abandon` | ws/conn_read.go:15-85 | NextMessage and some Reads hear the first of it, and the discard behind them remembers all of it |
| `ReadEndToEnd.ReadMessages` | ws/conn_read.go:299-380 | the same on any wire: exactly the longest run of admitted messages, each heard as a listener with the same window hears it |
| `ReadEndToEnd.ReadNext` | ws/conn_read.go:303-380 | one ReadMessage hears the first message that is to end and remembers as much of it as the listener does, or that message is not admitted |
| `ReadEndToEnd.UpcomingAsSpoken` | ws/conn_write.go:14-275 | the messages ahead of a fresh reader on a run's wire are those sent and, inflated, those said |
| `ReadEndToEnd.UpcomingAreTheItems` | ws/receiver.go:90-233 | on any wire, legal or not, the messages ahead that come to their end are the ones put together from the receiver's reports |
| `ReadEndToEnd.ParseIsOrderly` | ws/receiver.go:90-233 | on any wire, from any state: frames of one message at a time, continuations exactly within one, payload only inside frames, nothing after a failure |
| `ReadEndToEnd.NoneFinishedAfterCut` | ws/conn_read.go:319-365 | only the last message ahead can be cut off |
| `QueuedEndToEnd.FirstOnesArrive` | ws/queue.go:11-23 | for every interleaving of callers with the queue's writer, while it has not failed, the messages and the close the peer puts together from the wire are the first of those sent, in the order of the calls' turns, and all of them once everything enqueued is flushed |
| `QueuedEndToEnd.AwaitedOnesArrive` | ws/queue.go:225-242 | when an await has returned nil, everything carried by its frame and the frames before it is among what the peer has put together |
| `QueuedEndToEnd.FirstOnesHeard` | ws/queue.go:104-148 | and, compressed ones inflated, they are heard as they were said: all of them once everything is flushed |
| `QueuedEndToEnd.ReadThroughQueue` | ws/queue.go:104-148 | from callers and the queue's writer interleaved in any way to the read API of the peer: each message that has reached the wire is handled as the reader chooses, under its limit and its UTF-8 check where it reads it whole, and told as it was said; those are all that were said once everything is flushed |
| `QueuedEndToEnd.AheadAreTheFirst` | ws/queue.go:104-148 | the messages ahead of a reader of the wire so far are the first ones said, and all of them once everything is flushed |
| `EndToEnd.CallKeeps` | ws/conn_write.go:14-275 | whatever call comes next, refused or not, between fragments or after the close, what the peer hears stays what was said, and the compressor's history stays one the peer can inflate against |
| `EndToEnd.MiddleChunk` | ws/conn_write.go:186-217 | a fragment that does not end its message, whatever control frames came before it, extends one DEFLATE stream the peer will be able to inflate |
| `EndToEnd.LastChunk` | ws/conn_write.go:186-230 | the fragment that ends it makes the peer inflate the whole message, and leaves both histories in step |
| `Utf8.AsciiPrefixSkips` | internal/utf8/ascii.go:11-36 | skipping a prefix of ASCII octets does not change whether the string is well-formed |
| `Utf8Scalars.WellFormedExactly` | internal/utf8/doc.go:1-4 | the well-formed strings are exactly the encodings of sequences of Unicode scalar values: no surrogates, nothing overlong, nothing past U+10FFFF |
| `Utf8Dfa.BuildTable` | internal/utf8/valid_swar.go:62-70 | each of the 256 packed words yields, shifted by any of the nine states' offsets and masked, the offset of the transition's target |
| `Utf8Dfa.RunAcceptsWellFormed` | internal/utf8/valid_swar.go:72-124 | running the nine-state automaton ends in the accept state if and only if the string is well-formed UTF-8 |
| `Utf8Dfa.RejectAbsorbs` | internal/utf8/valid_swar.go:50-60 | no continuation leads out of the reject state, so testing once per block of eight is enough |
| `Utf8Dfa.AsciiPrefix` | internal/utf8/ascii.go:11-36 | the word tests and the octet loop behind them find exactly the longest ASCII prefix |
| `Utf8Dfa.Block` | internal/utf8/valid_swar.go:27-39 | eight unrolled table steps are the automaton's run over those eight octets |
| `Utf8Dfa.Blocks` | internal/utf8/valid_swar.go:10-45 | the block loop, with its ASCII word skips in the accept state, keeps the run's state and stops early only when the string is not well-formed |
| `Utf8Dfa.Valid` | internal/utf8/valid_swar.go:10-45 | true if and only if the string is well-formed UTF-8 |
| `Utf8Simd.LaneIsTransition` | internal/utf8/valid_simd.go:13-44 | one lane's table lookups over four consecutive octets agree with the automaton's transition, but for octets that can start nothing, which are reported one lane late |
| `Utf8Simd.BarrenFailsNext` | internal/utf8/valid_simd.go:13-44 | an octet that can start nothing makes the following lane fail whatever it holds |
| `Utf8Simd.LanesAreRun` | internal/utf8/valid_simd.go:13-44 | while all lanes pass, the automaton's state is the one the last three octets determine |
| `Utf8Simd.LaneFailureIsFinal` | internal/utf8/valid_simd.go:77-183 | a failing lane means the string is not well-formed |
| `Utf8Simd.TailDecides` | internal/utf8/valid_simd.go:77-183 | after passing lanes, the string is well-formed if and only if its backed-up tail is |
| `Utf8Simd.LoadsAreLanes` | internal/utf8/valid_simd.go:77-183 | a block's vectors of octets shifted by one, two and three positions are the lanes' contexts |
| `Utf8Simd.ShiftIsLoad` | internal/utf8/valid_simd.go:77-183 | concatenating with the previous block and shifting gives the octets before each position |
| `Utf8Simd.GroupedShiftIsLoad` | internal/utf8/valid_simd.go:186-237 | the 32-octet kernel's shift within 16-octet groups, with its lane-crossing `prior`, gives the same |
| `Utf8Simd.NarrowBlock` | internal/utf8/valid_simd.go:77-183 | the 16-octet kernel passes a block if and only if all its lanes pass |
| `Utf8Simd.WideBlock` | internal/utf8/valid_simd.go:186-237 | the 32-octet kernel passes a block if and only if all its lanes pass |
| `Utf8Simd.BackUp` | internal/utf8/valid_simd.go:77-183 | backs up over continuation octets to the last octet that is not one, where the tail to re-validate starts |
| `Utf8Simd.ValidNarrow` | internal/utf8/valid_simd.go:77-183 | exact, with zero padding of the last block |
| `Utf8Simd.ValidWide` | internal/utf8/valid_simd.go:186-237 | exact, from the first character's length on |
| `Utf8Simd.Valid` | internal/utf8/valid_simd.go:51-75 | true if and only if the string is well-formed UTF-8, with or without wide vectors |
| `Masking.MaskedAt` | codec/mask_swar_generic.go:7-48 | octet i of the scalar definition is src[i] XOR key[(offset+i) mod 4] |
| `Masking.MaskedChunks` | codec/mask.go:5-8 | masking chunks with the carried offset is masking the concatenation |
| `Masking.MaskedTwice` | codec/mask.go:5-8 | masking twice is the identity |
| `Masking.RotatedMasks` | codec/mask.go:10-16 | a key rotated by the offset masks from zero as the key masks from the offset |
| `Masking.Cascade` | codec/mask_swar_generic.go:7-48 | the 64, 32, 16, 8, 4 and 1 octet steps together write the scalar result |
| `Masking.MaskInto` | codec/mask_swar_generic.go:7-48 | writes the scalar result at every index of the range and nothing else, source and destination distinct or the same |
| `Masking.Mask` | codec/mask.go:5-8 | masks a range in place, leaves the rest of the buffer, and returns the offset for the next chunk |
| `DeflateWindow.Window.constructor` | deflate/window.go:10-29 | a new window is empty |
| `DeflateWindow.SizeIsPower` | deflate/window.go:20-29 | 8 to 14 bits name a window of two to that power, anything else the largest |
| `DeflateWindow.Window.Remember` | deflate/window.go:47-67 | the history becomes the last Size() bytes of it and the addition; compaction never slices below zero |
| `DeflateWindow.Window.Reset` | deflate/window.go:38-41 | the history is forgotten and the generation changes |
| `DeflateWindow.WindowIsSuffix` | deflate/window.go:24-78 | after any sequence of additions and resets the history is exactly the last min(Size(), total) bytes since the last reset |
| `DeflateWindow.GenerationWitnessesChange` | deflate/window.go:38-67 | if the generation is unchanged over a run, so is the history |
| `PendingHistory.Deferred.ApplyPending` | ws/conn_compress.go:132-138 | the deferred payloads enter the window in order and the list is empty |
| `PendingHistory.Deferred.DropPending` | ws/conn_compress.go:141-146 | the list is empty, the byte count zero, the window untouched |
| `PendingHistory.Deferred.DropOldestPending` | ws/conn_compress.go:148-153 | the first slot goes, the rest move up in place, and the count of bytes stays the exact sum |
| `PendingHistory.Deferred.DropCoveredPending` | ws/conn_compress.go:110-128 | exactly the payloads that the rest of the list and the new one push out of the window are dropped |
| `PendingHistory.Deferred.NotePrepared` | ws/conn_compress.go:110-128 | the new list is the specified one; no slot index reaches eight |
| `PendingHistory.FlushKeepsMeaning` | ws/conn_compress.go:132-138 | copying the debts into the window does not change the history they mean together |
| `PendingHistory.NotedIsAdded` | ws/conn_compress.go:110-128 | deferring a payload means the same as adding it to the window at once |
| `PendingHistory.LazyRefinesEager` | ws/conn_compress.go:110-153 | over any run of deferrals and flushes, window and debts mean the last Size() bytes of everything sent |
| `Compressors.Compressor.CompressChunk` | deflate/compressor.go:67-104 | continues or primes as the cache decides, emits the encoder's bytes without the tail of a final chunk, and records window and generation |
| `Compressors.Compressor.Reset` | deflate/compressor.go:107-111 | detaches: the next chunk primes |
| `Compressors.PrimesExactly` | deflate/compressor.go:67-104 | the encoder goes on as it is exactly when it was last used for this window, unchanged since, and otherwise starts from the last bytes of the history |
| `Compressors.ChunkAgreesExactly` | deflate/compressor.go:67-104 | after a chunk, encoder and window agree on their last min(encoder window, Size()) bytes if and only if the chunk is that long or what the encoder held before it ended in the window's bytes |
| `Compressors.ChunkKeepsCoherence` | deflate/compressor.go:67-104 | if mid-message the window is still the attached one, at its generation, a chunk keeps the cache coherent |
| `Compressors.TouchedMidMessageLosesCoherence` | deflate/compressor.go:69-82 | without the condition it need not: a concrete run |
| `Compressors.TouchedAgreesExactly` | deflate/compressor.go:69-82 | mid-message, with the window touched in between, a chunk leaves the two in agreement if and only if the window's history then and now end alike, as far back as the chunk does not cover |
| `Compressors.ContinuingEqualsPriming` | deflate/compressor.go:69-82 | where the cache says continue, the dictionaries that decode the continued stream are those that decode a primed one, as far back as encoder and window both go; a dictionary good for continuing is always good for priming, and the other way round when the encoder reaches no further than the window keeps |
| `Compressors.StepKeepsCoherence` | deflate/window.go:38-67 | a step of any compressor or window that keeps to the condition leaves every pair coherent |
| `Compressors.CacheCoherence` | deflate/compressor.go:67-111 | over any such interleaving of many compressors and windows, matching window and generation imply agreeing histories |
| `Flate.StreamDecodes` | deflate/compressor.go:60-66 | the chunks of one message decode as one stream, under every dictionary that covers the encoder's history |
| `Flate.PayloadInflates` | deflate/decompressor.go:321-322 | with the tail restored and a final block added, a payload inflates to exactly what was written and uses all its input |
| `SendContexts.SendContext.CompressChunk` | ws/conn_write.go:186-217 | debts are settled before the connection's compressor sees a chunk, and a shared one goes back after the last |
| `SendContexts.SendContext.NotePrepared` | ws/prepared.go:165-177 | a prepared message advances the history and nothing else |
| `Decompressors.Decompressor.Finish` | deflate/decompressor.go:278-292 | success leaves the last bytes of history and output in the window, each output byte entered once; failure clears it |
| `Decompressors.Decompressor.Begin` | deflate/decompressor.go:217-246 | a message in progress is abandoned and its window cleared; the new one starts from the window's history |
| `Decompressors.Decompressor.Dictionary` | deflate/decompressor.go:253-268 | the dictionary for a mid-message reset is the last bytes of history and output, in both modes |
| `Decompressors.Decompressor.Restart` | deflate/decompressor.go:165-174 | behind a final block within a message the next stream starts under the last bytes of history and output, on what is left of the input, which is shorter |
| `Decompressors.MessageIsCut` | deflate/decompressor.go:142-183 | what a message inflates to is exactly what the streams its input can be cut into give, one after the other, final blocks inside the message included |
| `Decompressors.Decompressor.Turn` | deflate/decompressor.go:143-182 | one turn of the loop delivers, ends, fails or goes on with strictly less input |
| `Decompressors.Decompressor.Read` | deflate/decompressor.go:134-183 | output comes in order and is never lost or repeated; the end is reported alone, when the whole message has been given; any other error clears the window; for a reader that does not fail and a message that inflates, it fails exactly when the buffer is empty and output is still to come |
| `Decompressors.Decompressor.Append` | deflate/decompressor.go:106-118 | a piece that takes the output past the limit ends the message only when the whole message is past it; the last piece ends it with all of the output and the window remembering it |
| `Decompressors.Decompressor.Grow` | deflate/decompressor.go:311-319 | there is room for n more bytes, whatever the pool rounds up to |
| `Decompressors.Decompressor.Room` | deflate/decompressor.go:96-103 | every read asks for at least one byte, within capacity and at most one past the limit |
| `Decompressors.Decompressor.Collect` | deflate/decompressor.go:86-122 | the loop ends with the whole message, or with the exact error |
| `Decompressors.Decompressor.Decompress` | deflate/decompressor.go:68-122 | succeeds with O if and only if the message inflates completely to O and O is within the limit, given an inflater that makes progress; the window then ends in O, and on any other error but a negative limit is cleared. The message inflates to O if and only if its input can be cut into nonempty streams, each of which inflates under the last bytes of history and output before it and takes exactly its own bytes, with outputs that join to O |
| `Decompressors.Decompressor.ReadAll` | deflate/decompressor.go:127-183 | streaming to the end gives what the message inflates to, and the window that goes with it; it does get there when no buffer is empty or there is nothing to give, and fails when the first buffer is empty and there is something |
| `Decompressors.Decompressor.Drain` | deflate/decompressor.go:124-183 | however the payload is cut into chunks and whatever the buffer sizes, what streaming ends with is the output and the window of slice mode; it ends so whenever slice mode succeeds, the source does not fail and no buffer is empty; an empty first buffer fails a message that has output, and every failure clears the window. The same cut into streams decides it; a source that fails always fails the message |
| `Decompressors.Reader.Read` | deflate/decompressor.go:134-183 | the inflater draws its input through the messageReader: behind a stream it has taken exactly that stream's bytes off the chunks and the tail, or failed where the source did |
| `MessageReaders.MessageReader.Fill` | deflate/decompressor.go:337-350 | empty chunks are skipped and nothing of the message is lost; an error is the source's own, met with nothing left of its chunks |
| `MessageReaders.MessageReader.Read` | deflate/decompressor.go:352-372 | delivers a prefix of what is still to come, the chunks and then the tail, and nothing only at the end or where the source fails; the state behind it depends on the number of bytes alone |
| `MessageReaders.MessageReader.ReadByte` | deflate/decompressor.go:374-391 | the same, one byte at a time |
| `MessageReaders.MessageReader.Exhausted` | deflate/decompressor.go:332-334 | true if and only if neither chunks nor tail are left |
| `Takeover.ChunkInStep` | deflate/compressor.go:67-104 | a chunk sent with debts settled keeps the encoder's history covered by everything sent |
| `Takeover.ChunksInStep` | ws/conn_write.go:186-230 | a message's chunks form one stream, and the sender is in step behind it, with a kept or a shared compressor |
| `Takeover.NotedInStep` | ws/prepared.go:140-177 | a prepared message keeps the sender in step without its compressor seeing it |
| `Takeover.MessageDelivered` | ws/conn_write.go:47-66 | one message, however sent, inflates at the peer to its content and leaves both windows in step |
| `Takeover.TakeoverSynchrony` | ws/conn_compress.go:92-153 | every message of every run of Write, WritePrepared and fragmented sends inflates to what was sent |
| `Takeover.RunStaysSynchronous` | ws/conn_compress.go:92-153 | after every run both ends hold the last bytes of everything sent compressed |
| `Takeover.WindowsAgree` | ws/conn_compress.go:110-138 | window plus debts on the send side equal the receive window, for equal sizes |
| `Takeover.FreshIsSynchronous` | ws/conn_compress.go:13-45 | two fresh endpoints start in step, whatever was negotiated |
| `Takeover.PackedExactly` | ws/conn_write.go:47-60 | compressed are exactly the messages of at least the threshold, and all fragmented ones, once compression is negotiated |
| `Takeover.ReceivingExactly` | deflate/decompressor.go:68-122 | a plain message leaves the receive window alone, a compressed one enters it, and one that does not inflate clears it |
| `Takeover.RetryFromStart` | ws/conn_read.go:387-398 | a message given up before any of its payload was taken, then discarded, leaves the histories in step |
| `Takeover.RetryLosesHistory` | ws/conn_read.go:319-365 | for every k > 0: one given up with k bytes taken need not, there are a codec and a message for which the discard reports success and the histories differ |
| `Takeover.RetryIsSafeExactly` | ws/conn_read.go:319-398 | a retry after k bytes keeps the histories in step for every codec, connection and message if and only if k is zero |
| `Framing.BigEndianRoundTrip` | codec/header.go:25-34 | a length written big-endian reads back |
| `Framing.ParseHeaderStable` | codec/decoder.go:66-101 | a header once complete, or bad, does not depend on the bytes that follow |
| `Framing.ParseHeaderExact` | codec/decoder.go:66-101 | the bytes a header takes are enough to parse it |
| `Framing.EncodedLength` | codec/encoder.go:84-104 | the encoded length field is read back, in the shortest of the three forms |
| `Framing.HeaderRoundTrip` | codec/encoder.go:67-119 | an encoded header parses back to the same fields, whatever follows it |
| `HeaderOctets.EncodedOctets` | codec/encoder.go:67-119 | the octets of an encoded header: opcode, FIN, RSV1, the mask bit, the minimal big-endian length and the key, each where section 5.2 of RFC 6455 puts it |
| `Reception.MoveTracks` | ws/receiver.go:90-150 | a move that does not depend on what follows is in step with the one-shot parser |
| `Reception.TakenTwice` | ws/receiver.go:158-180 | taking payload in two bites is taking it in one, mask offset included |
| `Reception.PayloadTracks` | ws/receiver.go:158-180 | any part of an open frame's payload can be taken without leaving the one-shot parse |
| `Reception.GatherTracks` | ws/receiver.go:101-114 | a control frame's payload gathered in part loses and reports nothing |
| `Reception.DeliverTracks` | ws/receiver.go:213-226 | a complete control frame is reported once, unmasked, or fails with 1002 or 1007 |
| `Reception.NextInStep` | ws/receiver.go:90-150 | Next takes and reports what the one-shot parser would; when it asks for input there was nothing more to be had; a failure or close drops everything pending |
| `Chunking.PayloadInStep` | ws/receiver.go:158-167 | the same for PayloadN with any count |
| `Chunking.NextReports` | ws/receiver.go:67-150 | every event is visible to the caller through header, opcode, payload or error code |
| `Chunking.ReportsOneShot` | ws/receiver.go:53-233 | after any calls of Feed, Next and PayloadN, what was reported followed by what pending input still holds is a one-shot parse of everything fed |
| `Chunking.CutsDoNotMatter` | codec/decoder.go:32-53 | two runs over one wire, however differently cut, report the same once both are drained |
| `Chunking.OverIsFinal` | ws/receiver.go:228-233 | a failure or a close is final and keeps its code |
| `Decoders.Append` | codec/decoder.go:41-43 | appending in place, overlap included, or into new storage gives the concatenation |
| `Decoders.Decoder.Feed` | codec/decoder.go:32-44 | pending input grows by exactly what is fed, borrowing when it was empty |
| `Decoders.Decoder.Preserve` | codec/decoder.go:47-53 | pending input is unchanged and no longer in a borrowed buffer |
| `Decoders.Decoder.NextHeader` | codec/decoder.go:66-101 | parses a header off the pending input, or consumes nothing |
| `Decoders.Decoder.PayloadN` | codec/decoder.go:111-125 | takes exactly the least of n, what is there and what the frame still has |
| `Decoders.Decoder.Reset` | codec/decoder.go:20-24 | nothing is pending and no payload expected |
| `Receivers.Receiver.Init` | ws/receiver.go:46-50 | the state is the initial one, decoder storage kept |
| `Receivers.Receiver.Feed` | ws/receiver.go:53-57 | input is added unless the connection is over |
| `Receivers.Receiver.Preserve` | ws/receiver.go:60 | nothing changes but where pending input lies |
| `Receivers.Receiver.Pull` | ws/receiver.go:101-111 | the control buffer takes the whole chunk, unmasked in place; its 125 bytes never cut anything off |
| `Receivers.Receiver.Accept` | ws/receiver.go:182-204 | accepts exactly the headers that HeaderOctets.Refused does not name, and opens the message |
| `HeaderOctets.FailsExactly` | ws/receiver.go:88-233 | between frames, on the octets of the wire: Next fails with 1002 if and only if the mask bit does not fit the role, RSV2 or RSV3 is set, the opcode is reserved, a control frame is fragmented, compressed or over 125 octets, RSV1 is set on a continuation or without compression, a continuation comes with no message open or a message within one, the length is not minimal or not below 2^63, or it is a close of one octet or with a code that may not be sent; with 1007 if and only if it is a close whose reason is not UTF-8; and otherwise not at all |
| `HeaderOctets.RefusedExactly` | ws/receiver.go:182-204 | every header so refused, and no other, ends the connection |
| `HeaderOctets.HeaderIs` | codec/decoder.go:66-104 | the parser takes every header apart as its octets say, and refuses exactly the bad lengths |
| `HeaderOctets.DataOpens` | ws/receiver.go:106-147 | a data frame that is not refused is open with the length, the key, FIN and RSV1 of its octets |
| `HeaderOctets.ControlDelivers` | ws/receiver.go:98-140 | a control frame that is not refused is delivered once all of it is there, with its payload unmasked |
| `HeaderOctets.CloseFaultExactly` | ws/close.go:12-26 | the codes that may be sent are 1000 to 1003, 1007 to 1014 and 3000 to 4999 |
| `Receivers.Receiver.FinishControl` | ws/receiver.go:213-226 | a valid close ends reception, an invalid one fails with its code |
| `Receivers.Receiver.Next` | ws/receiver.go:90-150 | on arrays and borrowed input, the pure step on state and pending input |
| `Receivers.Receiver.Consumed` | ws/receiver.go:169-180 | unmasking a chunk where it lies leaves the pending bytes beside it |
| `Receivers.Receiver.PayloadN` | ws/receiver.go:158-167 | on arrays, the pure step; the chunk is the frame's payload and nothing else of the buffer changes |
| `Receivers.Fill` | ws/conn_read.go:450-458 | reading again into a buffer the receiver may still borrow loses nothing |
| `Messages.PayloadTakes` | ws/conn_read.go:55-62 | taking payload takes it off the front of the rest of the message and leaves the next message alone |
| `Messages.FrameAdvances` | ws/conn_read.go:427-446 | a data frame continues the open message without changing what is left of it, or starts the next message |
| `Messages.NextOpensOrIsQuiet` | ws/receiver.go:182-211 | a data frame is a continuation exactly when a message is open; control frames leave the message alone |
| `Messages.OpenFrameIsWhole` | ws/conn_read.go:319-324 | a message that ends has all of its open frame, so a frame over the limit is a message over the limit |
| `ConnReads.Conn.Fill` | ws/conn_read.go:450-458 | bytes move from transport to receiver; the messages ahead are the same; an error changes nothing, and comes from a transport without errors or a hundred empty reads in a row only at its end; no error of the transport is swallowed, here or in any call that reads |
| `ConnReads.Conn.ReadTransport` | ws/conn_read.go:460-476 | at least one byte, in order, within up to a hundred tries; an error loses nothing; how much comes, and whether an error does, is exactly what the transport answers |
| `ConnReads.Conn.NextFrame` | ws/conn_read.go:427-446 | advances to the next data frame, having handed every control frame before it to the handler, in order; a transport error leaves everything for a retry; when nothing refuses, it fails only if no message is to come and the current one is cut off |
| `ConnReads.Conn.HandleControl` | ws/conn_read.go:478-503 | the handler is given the control frame, and ends reading for good exactly when it answers with an error or the frame is a close |
| `ConnReads.Conn.Advance` | ws/conn_read.go:427-446 | one turn enters a frame, hands one control frame over or fetches input; no control frame is lost or handed over twice |
| `ConnReads.RefusalIsFinal` | ws/conn_read.go:498-502 | in every state any of the calls leaves, a control frame that was refused, or a close, is the last one handed over, and reading has ended with that error |
| `ConnReads.HundredEmptyReads` | ws/conn_read.go:460-476 | ninety-nine empty reads in a row are put up with, a hundred are not |
| `ConnReads.Conn.ReadDirect` | ws/conn_read.go:191-205 | a read past the read buffer delivers payload of the open frame only and leaves nothing pending |
| `ConnReads.Conn.ReadPlain` | ws/conn_read.go:55-85 | a nonempty prefix of what is left of an uncompressed message, or EOF exactly when nothing is; with nothing refused on the way it fails only for a message that is cut off |
| `ConnReads.Conn.NextPiece` | ws/conn_read.go:129-152 | a piece off the front of what is left, from the read buffer or past it, or none yet; with nothing refused it fails only for a message that is cut off |
| `ConnReads.Conn.WritePlainTo` | ws/conn_read.go:128-176 | the rest of an uncompressed message; interrupted by the transport or by the writer, what was written, what the writer did not take of the piece in hand and what is left make it up; with nothing refused, a whole message is written exactly when the writer has room for it |
| `ConnReads.Conn.AssembleFrame` | ws/conn_read.go:326-355 | gathers a frame, keeping len(msg) plus remaining within the limit |
| `ConnReads.Conn.Assemble` | ws/conn_read.go:319-365 | returns the whole message within the limit, and fails with 1009 only for a message over it; when nothing refuses, any other failure means the message is cut off |
| `ConnReads.Conn.Skip` | ws/conn_read.go:400-423 | drains the message and leaves the next one; with nothing refused it fails only for a message that is cut off |
| `ConnReads.Conn.Chunks` | ws/conn_compress.go:246-270 | the chunks handed to the inflater join to exactly the rest of the message, across frames and control frames; any error is final; with nothing refused it succeeds if and only if the message is whole |
| `ConnReads.Conn.Inflate` | ws/conn_compress.go:208-233 | a compressed message streamed from its start to its end with any buffers gives what its payload inflates to behind the history and leaves the window slice mode leaves; with nothing refused it succeeds if and only if the message is whole and inflates, and 1007 means it does not inflate |
| `ConnReads.Conn.StartStream` | ws/conn_compress.go:208-215 | the inflater is handed the whole payload behind the history, and all that it inflates to is to come |
| `ConnReads.Conn.ReadStream` | ws/conn_compress.go:217-233 | the next of the text, in order; the end exactly when nothing is to come, with the window remembering all of it; 1007 only for a message that does not inflate |
| `ConnReads.Conn.FinishStream` | ws/conn_read.go:387-398 | a message streamed in part, streamed to its end, leaves the history of the whole message |
| `ConnReads.Conn.ReadPacked` | ws/conn_compress.go:208-233 | the same whether the stream has been started or not |
| `ConnReads.Conn.Read` | ws/conn_read.go:41-85 | of a message of either kind, a nonempty prefix of the text still to come, or EOF exactly when there is none, the message then being in the history; an empty buffer changes nothing; with nothing refused it fails only when the message is cut off or does not inflate; control frames passed on the way are handed over, each once, and one that is refused ends reading |
| `ConnReads.Conn.ReadSome` | ws/conn_read.go:32-85 | Reads with any buffers give the first of the text, and what is still to come is the rest of it |
| `ConnReads.Conn.ReadAll` | ws/conn_read.go:32-85 | repeated Read with any buffers gives the whole text of the message, compressed or not, streamed in part before or not; with nothing refused it succeeds if and only if there is one |
| `ConnReads.Conn.WritePackedTo` | ws/conn_read.go:107-126 | a compressed message piece by piece, with what an error of the writer leaves of it |
| `ConnReads.Conn.WriteTo` | ws/conn_read.go:98-176 | the text of a message of either kind; stopped by the writer or by a transport error that can be retried, what was written, what was lost of the piece in hand and what is still to come make it up |
| `ConnReads.Conn.Discard` | ws/conn_read.go:387-423 | the rest of the message goes, and a compressed one under takeover, unread or streamed in part, enters the history as if all of it had been read; without takeover an inflate in progress is abandoned; with nothing refused it fails only for a message that is cut off or does not inflate; any error while inflating is final |
| `ConnReads.Conn.ReadAndDiscard` | ws/conn_read.go:32-85 | a message read in part and then left is behind as if all of it had been read, and what was read is the first of its text |
| `ConnReads.Conn.NextMessage` | ws/conn_read.go:15-30 | enters the next message of the wire and leaves the ones behind it, with the message in progress, if it was compressed, remembered however much of it had been streamed; its opcode is never Continuation, in any run, retries included; between messages and with nothing refused it fails only when none is to come; on success exactly the control frames ahead of that message have been handed over, none of them refused |
| `ConnReads.Conn.ReadPayload` | ws/conn_read.go:303-311 | the payload of the wire's next message, whole and within the limit, 1009 only for one over it; after a transport error a retry returns the same message if it had not been entered and the one after it if it had |
| `ConnReads.Conn.FinishMessage` | ws/conn_read.go:368-380 | the message inflated and checked, and the history behind it; it fails with 1009 for a message that inflates past the limit, with 1007 for text within it that is not UTF-8, and otherwise only for a payload that does not inflate |
| `ConnReads.Conn.ReadMessage` | ws/conn_read.go:303-380 | the wire's next message, inflated when it is compressed against the history behind everything before it, a discarded message included, within the limit before and after, valid UTF-8 where that is checked, and the messages behind it untouched; between messages and with nothing refused it succeeds if and only if the next message is whole, within the limit, inflates and is valid; every control frame passed has been handed over, in order, and none of them refused |
| `Wire.FrameArrives` | ws/receiver.go:90-211 | an allowed frame, encoded and masked, is reported by the opposite role as what it means |
| `Wire.LegalWireDelivered` | ws/receiver.go:90-233 | a legal sequence of frames is accepted whole, without failing, and reports what the frames mean, in order, up to the close |
| `Wire.OnlyPongsFollowClose` | ws/sender.go:56-100 | on a legal wire only pongs follow a close, so there is at most one |
| `Sending.ActIsLegal` | ws/sender.go:33-100 | whatever call is made, what it encodes is allowed next, RSV1 only on a message's first frame, and the sender's fields keep agreeing with the wire |
| `Sending.RunIsAccepted` | ws/conn_write.go:14-255 | every run of the write API emits a wire the opposite role's receiver accepts without failing |
| `Sending.OnlyPongsAfterClose` | ws/sender.go:56-100 | in every run at most one close is encoded, and only pongs after it |
| `Outcomes.AnswerExactly` | ws/conn_write.go:14-275 | after any run of calls, from the frames out and the message begun: Write, WritePrepared and BeginMessage succeed if and only if the opcode is Text or Binary, no message is open and no close is out; a fragment if and only if a message is open and no close is out; a ping if and only if it is at most 125 bytes and no close is out; a pong if and only if it is at most 125 bytes; Close if and only if none is out and code and reason are both empty, or the code may be sent and the reason is at most 123 bytes of UTF-8. Otherwise each gives the error named |
| `Outcomes.EmitsExactly` | ws/conn_write.go:14-275 | a call that is refused puts nothing out; one that succeeds puts out exactly its frame: FIN, opcode, RSV1 exactly where the message is compressed, its payload, and a masking key exactly for a client |
| `Outcomes.RunStands` | ws/conn_write.go:145-230 | the sender remembers a close exactly when one is out, and an open message exactly when one was begun that no fragment has ended or failed |
| `Outcomes.EncoderFaultExactly` | codec/encoder.go:52-84 | the encoder refuses reserved opcodes, compressed control frames, and control frames that are fragmented, over 125 octets or a close of one |
| `Sending.MessagesDelivered` | ws/conn_write.go:14-255 | the messages and control frames the peer puts together from the wire are those the successful calls sent, in order, up to the close |
| `Encoders.BuildHeader` | codec/encoder.go:78-104 | the bytes filled in are the header of section 5.2 of RFC 6455, with a minimal length |
| `Encoders.Encoder.MaskCopy` | codec/encoder.go:109-114 | a masked copy in scratch storage, whether kept, dropped or grown |
| `Encoders.Encoder.Encode` | codec/encoder.go:67-119 | header and body of the frame, or the exact error and an unchanged frame |
| `Encoders.Encoder.EncodeCompressed` | codec/encoder.go:52-63 | the same with RSV1 on a first frame; control frames are refused |
| `Writers.Sender.EncodeFrame` | ws/sender.go:77-100 | the encoder holds the frame's octets; a close is remembered; after it only pongs |
| `Writers.Sender.Encode` | ws/sender.go:56-75 | the opcode's own checks come first |
| `Writers.Sender.EncodeClose` | ws/sender.go:104-118 | code and reason, laid out in the fixed buffer, become the specified close frame, or are refused with the specified error |
| `Writers.Writer.Write` | ws/conn_write.go:14-66 | the connection's wire and fields stay what its calls account for |
| `Writers.Writer.BeginMessage` | ws/conn_write.go:145-164 | the same |
| `Writers.Writer.Fragment` | ws/conn_write.go:186-230 | the same; a refusal abandons the message |
| `Writers.Writer.Signal` | ws/conn_write.go:233-275 | the same for pings and pongs, between fragments too |
| `Writers.Writer.Close` | ws/conn_write.go:245-255 | the same |
| `Writers.PeerUnderstands` | ws/conn_write.go:14-275 | the peer puts together from the connection's octets exactly what its calls sent |
| `WriteFrom.ReadFull` | ws/conn_write.go:98-115 | fills the buffer however the reader splits its data; a reader's own io.ErrUnexpectedEOF cannot be told from a short read, every other error passes through |
| `WriteFrom.Round` | ws/conn_write.go:113-134 | one turn of the loop sends the chunk in hand, final exactly when the reader ended in EOF behind it, and the short or empty last one; on any other error it sends nothing and the message stays open |
| `WriteFrom.SendPieces` | ws/conn_write.go:112-136 | with the two buffers swapped each turn, the calls follow the plan for the whole content and the count is its length |
| `WriteFrom.Send` | ws/conn_write.go:91-136 | on a ready connection it succeeds exactly when the reader ends in EOF or in an io.ErrUnexpectedEOF of its own; the calls follow the plan, whole on success, a prefix on error, and after a read error nothing was sent or the message is still open |
| `WriteFrom.ContentIsPartitioned` | ws/conn_write.go:91-136 | the plan, for either end, is one message: inputs concatenate to the content, none over FragmentSize, the first frame with the opcode, later ones Continuation, exactly the last with FIN |
| `WriteFrom.PlanExactly` | ws/conn_write.go:91-142 | content shorter than a chunk is one Write; anything else is a message of fragments, all of them full chunks but the last, which alone is final |
| `WriteFrom.TruncationShows` | ws/conn_write.go:113-134 | a truncated reader's plan is the plan of one that ended there, but for an empty final fragment when the content is a whole number of chunks |
| `WriteFrom.TruncatedGoesOutComplete` | ws/conn_write.go:84-136 | what a truncated reader gave goes out as one complete message, frame for frame that of a reader that ended there if and only if the content is empty or not a whole number of chunks |
| `QueueProtocol.StepOneWriter` | ws/queue.go:218-221 | at most one writer exists, exactly while running is set |
| `QueueProtocol.StepFifo` | ws/queue.go:191-292 | flushed, then in-flight, then queued frames are all frames enqueued, in order, and the counters balance, up to the first error |
| `QueueProtocol.StepNoLostWakeup` | ws/queue.go:237-242 | whoever sleeps has a false condition, and every step that could make it true wakes them; nil answers are honest |
| `QueueProtocol.Reachable` | ws/queue.go:191-292 | all of this in every reachable state |
| `QueueProtocol.UnwrittenHasWriter` | ws/queue.go:218-221 | while a frame is unwritten and there is no error, a writer exists and can move |
| `QueueProtocol.AwaitProgress` | ws/queue.go:237-292 | each move of the writer brings an awaited frame closer to being written and no other step takes it further away |
| `QueueProtocol.AwaitEnds` | ws/queue.go:227-292 | over any run in which the writer moves often enough, however other steps interleave, the awaited frame is written or the queue has failed |
| `QueueProtocol.NilMeansFlushed` | ws/queue.go:225-242 | an await that returned nil had its frame and all earlier ones flushed without error |
| `QueueProtocol.EveryAnswerIsNil` | ws/queue.go:225-242 | in every reachable state that has not failed, every await that has returned has returned nil |
| `QueueProtocol.AwaitAnswers` | ws/queue.go:236-242 | once its frame is written or the queue has failed nobody sleeps for it, and whoever tests leaves: with nil when there was no error, with the error when there was |
| `QueueProtocol.EverythingIsTaken` | ws/queue.go:188-223 | over any run that has not failed, the frames enqueued are those asked for, all of them, in order |
| `QueueProtocol.NobodyIsForgotten` | ws/queue.go:225-242 | over any run, every await has been answered or is still waiting |
| `QueueProtocol.FailsOnlyByFlush` | ws/queue.go:244-292 | the queue fails only by a write to the transport that failed |
| `QueueProtocol.FlushFailureFails` | ws/queue.go:244-292 | and by every such write: what is queued is dropped and everyone who waits can leave |
| `Queues.Queue.Reserve` | ws/queue.go:175-185 | an empty queue accepts anything, a nonempty one up to the limit in bytes actually queued |
| `Queues.Queue.Enqueue` | ws/queue.go:191-223 | the frame joins the queue with its bytes, arena growth included, the writer's storage is untouched, and a writer is started exactly when none runs |
| `Queues.Queue.Turn` | ws/queue.go:247-262 | producer and writer storage change places without ever overlapping, or the writer stops |
| `Queues.Queue.Settle` | ws/queue.go:266-291 | the batch is counted and released; an error drops what is queued |
| `Queues.Queue.Flush` | ws/queue.go:297-356 | one frame, a vector or a coalesced copy: the same bytes in the same order |
| `QueuedWire.CallKeeps` | ws/conn_write.go:14-66 | encoding and enqueueing under one lock makes the queue's order a legal one |
| `QueuedWire.FlushKeeps` | ws/queue.go:297-356 | a batch flushed behind whatever pings and pongs went out meanwhile keeps the wire legal |
| `QueuedWire.WireIsLegal` | ws/queue.go:106-148 | for every interleaving of callers, waiters and the writer, while the queue has not failed: the peer accepts the wire, its data and close frames are the first ones encoded, in order, and only pongs follow a close |
| `QueuedWire.CallsAreTheSteps` | ws/queue.go:11-23 | over any interleaving, the calls made are those of the steps, none lost and none made up |
| `QueuedWire.FailsOnlyByFlush` | ws/queue.go:244-292 | and the queue fails only by a write to the transport that failed |
| `QueuedWire.OnlyPingsAndPongsBypass` | ws/conn_write.go:264-300 | a ping or a pong is next on the wire, past the queue; data and the close join the queue behind everything in it |
| `QueuedWire.SendCloseOvertakesQueue` | ws/conn_write.go:332-341 | a close written past the queue leaves a legal wire if and only if the queue holds nothing unsent |
| `QueuedWire.UnsentIsReachable` | ws/queue.go:191-223 | a state with something unsent is reached by one Write |

## Left out

- Sockets, TLS, HTTP and the opening handshake (transport/, events/, handshake/): the negotiated bits and takeover flags are inputs.
- DEFLATE itself: laws instead of code; compression is taken not to fail, as the fallback at ws/prepared.go:125-128 takes it.
- codec/mask_simd.go and codec/mask_swar.go: the same result as the generic cascade.
- Buffer pools and size classes: a pooled buffer is a fresh one of sufficient capacity.
- Conn.write's choice between writev and coalescing: one atomic append of header and body.
- Prepared's cache of compressed variants: a prepared message is compressed against the empty history when it is sent.
- Failed transport writes: the claims about the wire are for runs without one, and the queue's up to its first error.
- DeflateWindow.Window.Remember: the generation is unbounded, so its wrap-around after 2^64 changes is not modelled.
- PendingHistory.Deferred.NotePrepared: slots hold the payloads themselves, not references to Prepared values.
- Decompressors.Decompressor.Decompress: the output buffer is a sequence with a capacity; only its bounds are modelled, not the storage behind it.
- ConnReads.Conn.StartStream: the chunks are gathered before the first of them is inflated, so that a transport error or a failure behind the first text is returned before that text, and instead of a later failure to inflate; either is final.
- ConnReads.Conn.WriteTo: its writer is the number of bytes it takes before it fails or writes short.
- ConnReads.Conn.ReadTransport: io.EOF, io.ErrUnexpectedEOF, io.ErrNoProgress and the transport's own errors are one error.
- ConnReads.Conn.Assemble: whether a message is borrowed from the read buffer or copied is not modelled.
- EndToEnd.HeardAsSpoken: its listener has no size limit and no UTF-8 check; ReadEndToEnd.ReadAsSpoken has both.
- QueuedEndToEnd.FirstOnesHeard: a listener without limit and check, as for HeardAsSpoken; QueuedEndToEnd.ReadThroughQueue has both.
- WriteFrom.Send: one caller; that other goroutines' pings may come between its fragments is covered by the run theorems.
- Writers.Writer.Write: a connection without a queue; with one, the frame is enqueued under the same lock.
- ConnReads.Conn.Fail: the close frame that a failing connection sends is not sent there; what it does to the wire is QueuedWire.SendCloseOvertakesQueue.
- Deadlines, addresses, control handlers' own behaviour, net.Conn adapters and the serving helpers.
