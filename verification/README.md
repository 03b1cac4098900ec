# The WebSocket wire engine in Dafny

A model of the part of the library that turns messages into octets and octets into messages: framing and
masking (section 5 of RFC 6455), the locks that let many callers write at once, streaming UTF-8 validation,
the permessage-deflate plumbing (RFC 7692) and the parser of extension headers. `dafny verify dfyconfig.toml`
checks all of it.

Code that updates fields and buffers is modelled by classes, arrays and loops. Each such method is proved equal
to a specification function or to a change of an abstract value, and the theorems are about those.

| module | models |
|---|---|
| `Bytes`, `Masking`, `Frames` | octets and XOR, mask.go, the wire format |
| `Reading`, `FrameReader` | the read side of conn.go: as functions on a state, and as the classes that refine them |
| `WireFormat` | the same wire format octet by octet, with the examples of the standard |
| `FrameRoundTrip`, `MessageRoundTrip` | the reader inverts the encoding of frames and of messages |
| `ReaderProperties`, `Completion` | what the reader keeps for every input, and when it says io.EOF |
| `ReadErrors` | which errors are permanent, and what can be read after a timeout |
| `FrameWriter` | the write side of conn.go: frames built in place in the shared buffer |
| `WriterStack`, `Sending` | what NextWriter stacks on the message writer, and the calls an application makes |
| `Transmission`, `Exchange` | from the calls made on one connection to what is read from the other |
| `WriteProtocol`, `ProtocolDelivery` | the two mutexes as a state machine over any number of callers, and what the peer receives |
| `Refinement` | the calls on the writer objects are steps of that state machine |
| `Utf8`, `TextStreams` | utf8_dfa.go, and the validating reader of conn.go |
| `Conversations` | reading a stream of messages through decompressor and validator |
| `Compression` | compression.go: the truncating writer and the sliding window |
| `Extensions` | util.go: the header parser |

The main results are `Transfer` (what any calls write on one connection is what the other end reads), `RunDelivers`
and `ReturnedIsDelivered` (the same for every interleaving of concurrent callers), `StreamRoundTrip`, `StreamRefused`
and `ConversationCut` below them; `WireOfRun`, `NothingAfterStop`, `OneClose` and `WriterAndBuffer` (safety of the lock
protocol); `BadOctetsRefused`, `DataFrameRead` and `ControlFrameRead` (every frame, octet by octet); `AcceptedSequence`,
`ReadLimitHolds`, `FalseEofPossible`, `FalseCompletionPossible`, `SkippedEof`, `RefusalPermanent` and `TimeoutResumes`
(the reader on arbitrary input); `WriteMessage` and `FewestFrames` (how messages are cut into frames, and every reason to
refuse one); `AcceptsGrammar`, `RejectsUnviable`, `CodePointAtAccept`, `TextValidation` and `UnfinishedTextPossible`;
`MaskBytes`; `PayloadsRoundTrip`; `ListRead` and `LineSplits`.

## What the proofs found

- `messageReader.Read` copies the error of the bufio reader into `readErr` as it is (conn.go:1515-1525). A read at least
  as long as the bufio reader's buffer goes to the transport directly, and a transport may return io.EOF together with
  octets. If these are the last of a fragment without FIN, the reader returns io.EOF and an unfinished message looks
  complete. Shorter reads are never told io.EOF falsely, in any state. `FalseEofPossible` and `FalseCompletionPossible`
  give the condition that a caller can check beforehand, the length of its buffer, in both directions.
- In the same situation `utf8ValidatingReader` returns `readErr`, which is io.EOF, for a text that stops inside a
  character (conn.go:1471-1475, 1494-1498). `UnfinishedTextPossible` gives the condition in both directions.
- "Timeouts are recoverable" (conn.go:1394-1401), but c.read drops the octets it could get before a timeout
  (conn.go:544-553), and the discarding of a frame's rest does not record how far it came (conn.go:1182-1186).
  `TimeoutResumes`: what comes after a timeout is read as if there had been none if and only if nothing had arrived of
  the frame that advanceFrame waited for or of the rest that it skipped.
- The comment on `readFinal` (conn.go:297) is inverted: true means that no message is open. The model follows the code.
- Skipping the rest of an abandoned frame reports the end of the stream as io.EOF, not as unexpected
  (conn.go:1182-1186), and NextReader returns it so. `SkippedEof`: this is possible exactly when NextReader is called
  before the previous message was consumed to its end.
- A frame can be longer than the cap set by SetWriteFrameSize, which a large write checks without what is buffered
  already (conn.go:922-930): on a server with a cap of 10000 and a buffer of 4110 octets, writes of 4000 and then of
  9000 octets make one frame of 13000. This takes a server whose buffer is less than half the cap
  (`FrameWriter.Capped`, kept by every operation), and on every such server it happens (`BeyondCap`).
- A ping, pong or Close message of at most 125 octets is refused by WriteMessage and NextWriter where it does not fit in
  one frame of the cap or of the write buffer, while WriteControl sends it (conn.go:805-811, 900-912, 1069-1078).
  `RefusedPing` is an example; the contract of `WriteMessage` says exactly when, except that a buffer from a pool may have
  any size.
- A Close frame with one octet of payload counts as one without a status (conn.go:1345-1347; `ControlFrameRead`), where
  section 5.5.1 of RFC 6455 asks for two octets at least.
- `truncWriter.Write` returns fewer octets than it took as soon as octets leave its buffer (compression.go:218-227), up to
  four fewer, which io.Writer does not allow. The contract gives the number.
- The sliding window is right only for messages that are read to their end; `UnreadOctetsMatter` and `UnreadOctetsLost`
  say what that means.
- A quoted value that the header ends in is taken as empty, and so is a missing value after an equals sign
  (util.go:141-174, 262-266), where the grammar in section 9.1 of RFC 6455 allows neither. `ParsesExactly` and
  `LineSplits` describe the language with both.

## Model

| member | source | states |
|---|---|---|
| Masking.MaskBytes | mask.go:11-52 | For every start address, word size that is a multiple of four, key, position and length: octet i of the slice becomes its XOR with octet (pos + i) mod 4 of the key, nothing outside the slice changes, and the result is (pos + length) mod 4 |
| Masking.MaskWord | mask.go:38-42 | XORing one loaded machine word with the word of the key changes exactly the octets of that word, each by its own octet of the key word |
| Masking.XorWord | mask.go:31-42 | XOR of two little-endian words of any size is the word of the octetwise XORs |
| Masking.MaskConcat | mask.go:11-52 | Masking in two chunks with the position carried over equals masking at once, for every split |
| Masking.MaskCancels | mask.go:11-52 | Masking twice with the same key and position gives the original octets |
| Bytes.XorBitAt | mask.go:15-41 | For numbers of any width, a bit of the exclusive or is set exactly where the two differ |
| Bytes.BERoundTrip | conn.go:840-845 | A big-endian length of any width that fits is read back as the same number |
| WireFormat.RfcExamples | conn.go:813-864 | The examples of section 5.7 of RFC 6455: Hello in one frame and in two, masked and unmasked, as ping and as pong, with their octets |
| WireFormat.RfcLongExamples | conn.go:836-851 | The two long examples of that section, with lengths of two and of eight octets |
| WireFormat.ThreeFragments | conn.go:805-880 | A message in three fragments, frame by frame: opcode and RSV1 on the first only, FIN on the last only |
| WireFormat.ShortestForm | conn.go:836-851 | The extended length has two or eight octets only for a length that does not fit in less |
| WireFormat.BadOctetsRefused | conn.go:1196-1253 | For every state and any first two octets: the head is refused, and Close(1002) asked for, if and only if RSV2, RSV3, or RSV1 where nothing was negotiated, is set, the opcode is unknown, a control frame is fragmented or long, the frame is out of sequence, or the mask bit does not suit the role |
| WireFormat.AcceptedReserved | conn.go:1216-1222 | No accepted frame has RSV2 or RSV3 |
| WireFormat.HeaderCut | conn.go:1190-1297 | A stream that ends inside a header gives the unexpected end, or the transport's error, and no event |
| WireFormat.NegativeLength | conn.go:1266-1286 | A 64-bit length above 2^63 - 1 is refused before the key is read |
| WireFormat.DataFrameRead | conn.go:1266-1316 | Every data frame with a good head, whatever form its length has: the whole new state in terms of the octets; refused exactly if the message's length exceeds 2^63 - 1 or the limit, and in the second case Close(1009) is asked for |
| WireFormat.ControlFrameRead | conn.go:1318-1363 | Every control frame with a good head: the handler gets the payload unmasked; it is accepted unless the handler fails; a Close frame ends the reading with its code and reason, or with Close(1002) if these may not be received; the message's state stays |
| WireFormat.ControlFrameCut | conn.go:1320-1330 | A stream that ends inside a control frame's payload gives the unexpected end and no event |
| WireFormat.ReceivedCodes | conn.go:206-227 | The codes that may be received are 1000 to 1013 except 1004 to 1006, and 3000 to 4999 |
| WireFormat.CloseRead | conn.go:1771-1782 | The code and reason that FormatCloseMessage puts into a Close frame are those that the peer's handler and the error get |
| FrameRoundTrip.ParseHeadInverts | conn.go:1199-1205 | FIN, RSV1, opcode, MASK and the length code of every encodable frame are recovered from its first two octets |
| FrameRoundTrip.LengthRead | conn.go:1266-1286 | Each of the three length forms is read back as the length, with the code that announces its size; this includes 125, 126, 65535 and 65536 |
| FrameRoundTrip.AdvanceOnData | conn.go:1179-1315 | Reading any data frame in sequence leaves exactly its masked payload to be read, its key installed at position 0 and its length added to the message's |
| FrameRoundTrip.AdvanceOnControl | conn.go:1318-1362 | Reading any ping or pong calls its handler with the unmasked payload and leaves the message's readFinal and readLength as they were |
| FrameReader.Conn.constructor | conn.go:330-374 | A new connection expects the first frame of a message: readFinal is true (the comment at conn.go:297 says the opposite); its bufio reader holds at least 125 octets, 4096 by default, or is the one taken over from the handshake |
| FrameReader.Conn.SetReadRemaining | conn.go:379-385 | Refuses negative values and then changes nothing |
| FrameReader.Conn.ReadOctets | conn.go:544-553 | The next n octets, or an error in which the end of the stream appears as unexpected, with the partial octets gone |
| FrameReader.Conn.CheckHead | conn.go:1210-1251 | Counts an error exactly for the heads that section 5 of RFC 6455 refuses, and updates readDecompress and readFinal on the way |
| FrameReader.Conn.AdvanceFrame | conn.go:1179-1363 | The whole new read state and result are those of the state function, for every input and from every state |
| FrameReader.Conn.ProcessControl | conn.go:1333-1362 | Pongs, pings and Close frames reach their handler with their payload; bad close codes and text that is not UTF-8 are protocol errors |
| FrameReader.Conn.NextReader | conn.go:1385-1441 | Skips what is left of the previous message, starts a reader at the next text or binary frame, says which of decompressor and validator are stacked on it, latches every error but a timeout, keeps the configuration, and resets the UTF-8 state for a text message |
| FrameReader.Conn.StartMessage | conn.go:1413-1428 | The new reader is the current one; the decompressor is stacked exactly if RSV1 was set, the validator exactly for a text message unless validation is off, and then it starts anew |
| FrameReader.Conn.BufioRead | conn.go:1511-1515 | What one read of the bufio reader can bring: any number of octets up to the size asked for, and the end of the stream together with octets only if that size is at least the reader's own |
| FrameReader.MessageReader.Read | conn.go:1501-1546 | For every chunking by the transport: the octets delivered, the error and the whole new state are those of the state function; octets beyond those delivered are untouched; a stale reader gets io.EOF and changes nothing |
| FrameReader.MessageReader.ReadPayload | conn.go:1509-1525 | One read asks for the smaller of buffer and readRemaining, is unmasked from the carried position, advances readRemaining and readMaskPos by what was read, and turns an end inside the frame into unexpected |
| MessageRoundTrip.SeekBeforeMessage | conn.go:1385-1429 | NextReader passes the pings and pongs before a message to their handlers and returns the message's type |
| MessageRoundTrip.ReadAllInMessage | conn.go:1501-1546 | Reading to the end delivers the rest of the payload exactly, for every fragmentation, interleaving of control frames and sequence of read sizes |
| ReaderProperties.AcceptedHead | conn.go:1196-1253 | A frame is accepted only if its head may come next; the accepted opcode and FIN are those of the head, and the message length stays within the limit and below 2^63 |
| ReaderProperties.OverflowIsNegative | conn.go:1302-1308 | The wrapped int64 sum is negative exactly when the true sum exceeds 2^63 - 1 |
| ReaderProperties.AcceptedSequence | conn.go:1224-1243 | For every input, and whatever NextReader and reads of payload do between the calls of advanceFrame, the accepted data frames are whole messages followed by at most one unfinished one, and readFinal is true exactly when none is unfinished |
| ReaderProperties.ConformingAccepted | conn.go:1179-1363 | Every conforming stream each of whose messages is within the limit is accepted to its last frame, for every application that reads messages one after the other and whatever it reads of each frame |
| ReaderProperties.ReadAllAccounted | conn.go:1300-1316 | What is delivered of a message never exceeds what readLength has counted |
| ReaderProperties.ReadLimitHolds | conn.go:1300-1316 | With a positive read limit no message delivers more wire octets than the limit, for every input stream |
| Completion.EofReported | conn.go:1509-1545 | A read returns io.EOF if and only if all frames through FIN are consumed, or it asked for at least as much as the bufio reader holds and the transport gave io.EOF along with the last octets of a frame |
| Completion.ShortReadsAreTrue | conn.go:1509-1545 | In every state, a Read into a buffer shorter than the bufio reader's returns io.EOF only at the end of a whole message |
| Completion.FalseEofExample | conn.go:1515-1525 | Concrete wire octets, one frame without FIN that is as long as the bufio reader's buffer, on which the first Read of a new connection returns io.EOF |
| Completion.FalseEofPossible | conn.go:1509-1525 | For every buffer length: some stream and transport make the first Read return io.EOF before the message is complete if and only if the buffer is at least as long as the bufio reader's (and the stream ends in io.EOF and the read limit admits such a frame) |
| Completion.FalseCompletion | conn.go:1501-1546 | For every stream and transport, reading to the end completes a message before its last frame if and only if such a read happened in a frame without FIN |
| Completion.FalseCompletionPossible | conn.go:1501-1546 | For every bound on the buffers: some stream and transport falsely complete the first message if and only if the bound is at least the size of the bufio reader's buffer (and the stream ends in io.EOF and the limit admits it) |
| Completion.AdvanceExtends | conn.go:1179-1363 | A frame accepted at the front of a stream is accepted alike whatever follows it |
| Completion.CutEnds | conn.go:1501-1546 | A message cut short at any octet ends in an error, unless and only unless such a read happened in a frame without FIN |
| Completion.CutShort | conn.go:1501-1546 | Read with buffers shorter than the bufio reader's, a message cut short at any octet ends in an error |
| Completion.SkipEof | conn.go:1182-1186 | advanceFrame reports a plain io.EOF if and only if the stream ends while the rest of the previous frame is discarded |
| Completion.SkippedEofExample | conn.go:1182-1186 | Concrete input, for every state inside a message, on which NextReader reports io.EOF though the message was not complete |
| Completion.SkippedEof | conn.go:1385-1441 | For every state: some input makes NextReader report io.EOF if and only if it is called before every frame of the previous message through FIN was consumed |
| Completion.ErrorLatched | conn.go:1392-1440 | Once readErr is set, reads deliver nothing and change nothing |
| ReadErrors.RefusalPermanent | conn.go:1382-1440 | From every state: an error returned by NextReader is recorded, and the next call returns it again with nothing read and no event; a timeout alone is not recorded |
| ReadErrors.RefusedFrame | conn.go:1392-1408 | NextReader returns the error of the frame that was refused |
| ReadErrors.RefusedFragment | conn.go:1532-1545 | Inside a message a reader returns the error of the frame that was refused, delivers nothing and records the error, timeouts included |
| ReadErrors.NeverInternal | conn.go:1533-1538 | The internal error of a text or binary frame inside a message never occurs |
| ReadErrors.TimeoutResumes | conn.go:1179-1363 | For every state and every timeout: all that may come afterwards is read as if there had been no timeout if and only if nothing had arrived since the call |
| Utf8.DfaStep | utf8_dfa.go:67-76 | The lookup in the 400-entry table gives, for every state and octet, the successor described by octet ranges and the accumulated 32-bit code point |
| Utf8.DfaValidate | utf8_dfa.go:81-91 | Returns Accept if and only if the string is in the grammar and Reject if and only if no continuation is |
| Utf8.AcceptsCompletions | utf8_dfa.go:41-56 | From each state the automaton ends in Accept exactly on the completions of the character begun followed by valid text |
| Utf8.AcceptsGrammar | utf8_dfa.go:67-76 | The automaton accepts exactly the octet strings of the grammar in section 4 of RFC 3629 |
| Utf8.RejectAbsorbs | utf8_dfa.go:51-55 | Reject is never left |
| Utf8.RejectsUnviable | utf8_dfa.go:67-76 | The automaton is in Reject exactly when no continuation of the string is valid |
| Utf8.FinalConcat | utf8_dfa.go:67-76 | Carrying the state over gives the same result for every split of the string |
| Utf8.EncodeDecode | utf8_dfa.go:63-76 | Every character of the grammar is the shortest encoding of one scalar value: no overlong form, no surrogate, at most 0x10FFFF |
| Utf8.DecodeEncode | utf8_dfa.go:63-76 | Every scalar value is recovered from its encoding |
| Utf8.FeedChar | utf8_dfa.go:67-76 | Stepping over one character ends in Accept with its scalar value |
| Utf8.CodePointAtAccept | utf8_dfa.go:63-76 | Whenever Accept is reached, the accumulated code point is the scalar value of the character just completed |
| TextStreams.ValidatingReader.Read | conn.go:1459-1477 | Delivery, error and state of one read, given what the reader below delivered, with the automaton's state carried over frames |
| TextStreams.ValidatingReader.RejectUTF8 | conn.go:1489-1499 | Asks for Close(1007) and sets readErr unless it is set already |
| TextStreams.TextValidation | conn.go:1459-1477 | In a stream that goes on or ends in io.EOF, for every fragmentation, interleaving and sequence of read sizes a text ends without an error if and only if its payload is valid UTF-8, or is viable and a read at least as long as the bufio reader's buffer brought its last octets together with io.EOF; what was delivered is always a viable prefix |
| TextStreams.TextValidationShortReads | conn.go:1459-1477 | With buffers shorter than the bufio reader's a text ends without an error if and only if its payload is valid UTF-8 |
| TextStreams.TextOfAnyStream | conn.go:1459-1477 | The same for streams that need not be well formed: without an error exactly if the reader below has none and delivered valid UTF-8, or a viable prefix that ended so |
| TextStreams.TextAgrees | conn.go:1459-1477 | On valid text the validating reader delivers exactly what the reader below does, with the same state and error, for every stream |
| TextStreams.RefusedText | conn.go:1485-1499 | For every stream, a text that is refused leaves Close(1007) asked for last and an error that NextReader returns |
| Conversations.MessageMade | conn.go:1413-1428 | A message that its readers understand, a valid text or what the decompressor can decode, is delivered as they make it, for every fragmentation and sequence of reads |
| Conversations.MessageRefused | conn.go:1459-1499 | With buffers shorter than the bufio reader's, a message that its readers do not understand ends in an error |
| Conversations.PlainUnderstood | conn.go:1424-1428 | Without compression all messages are understood, as they are, if and only if every text is valid UTF-8 or nothing is validated |
| Conversations.StreamRoundTrip | conn.go:1179-1546 | The encodings of any messages, cut into fragments in any way and interleaved with any valid pings and pongs, are read through decompressor and validator as the same messages in order, and the handlers see the control payloads in order; only if nothing follows and the stream ends in another error than io.EOF may that error take the place of the last message |
| Conversations.StreamRefused | conn.go:1385-1499 | If some message is not understood, an invalid text for instance, exactly those before it arrive and then there is an error, with buffers shorter than the bufio reader's |
| Conversations.ConversationCut | conn.go:1179-1546 | A conversation cut short at any octet: exactly the messages that are there in full arrive, and then there is an error, with buffers shorter than the bufio reader's |
| TextStreams.UnfinishedTextAccepted | conn.go:1471-1475 | A read passes off a text that stops inside a character as ended if and only if it was at least as long as the bufio reader's buffer and the transport gave io.EOF with the frame's last octets |
| TextStreams.UnfinishedTextExample | conn.go:1471-1475 | Concrete wire octets, one text frame as long as the bufio reader's buffer that ends in half a character, read by a new connection without an error |
| TextStreams.UnfinishedTextPossible | conn.go:1459-1499 | For every bound on the buffers: some stream and transport pass off a text that is not valid UTF-8 if and only if the bound is at least the size of the bufio reader's buffer (and the stream ends in io.EOF and the limit admits it) |
| FrameWriter.PutHeader | conn.go:828-851 | The header is laid out in the shortest length form so that it ends at offset 14, or leaves the four octets before it for the key |
| FrameWriter.PutFrame | conn.go:813-864 | The octets of the buffer from the frame's start to pos, followed by the extra payload, are the encoding of the frame |
| FrameWriter.Conn.constructor | conn.go:330-374 | A new connection is configured as asked, has the write token free, no error, nothing on the wire, and the buffer handed over, or a new one of the size asked for plus the header, or none if a pool is used |
| FrameWriter.Conn.WriteFatal | conn.go:535-542 | The first error stays |
| FrameWriter.Conn.Write | conn.go:555-581 | Adds the whole frame to the wire exactly if no error was latched and the network takes it, and otherwise exactly the part that the network takes, and latches the error; after a Close frame or an error it adds nothing |
| FrameWriter.Conn.AcquireWriteMu | conn.go:473-495 | Takes the token exactly if it is there and the deadline has not passed |
| FrameWriter.Conn.BeginMessage | conn.go:661-694 | Fails exactly for an opcode that is neither data nor control or with the error latched, and otherwise holds a write buffer |
| FrameWriter.Conn.NextWriter | conn.go:709-732 | Fails exactly if the lock cannot be taken, the opcode is bad or an error is latched, and then nothing is held; otherwise the token is held, the writer is at the start of a message, and the compressor and the validator are stacked on it exactly for the messages they are for |
| FrameWriter.Conn.WriteControl | conn.go:591-658 | Writes one unfragmented control frame with exactly this payload; each error has exactly its cause: a bad opcode, more than 125 octets, the deadline, an error latched before, a network that fails, which then got only a prefix of the frame; latches after a Close frame |
| FrameWriter.Conn.WriteMessage | conn.go:1040-1079 | On success the frames added to the wire are one whole message of this type, whose payload is the data or what the compressor made of it; without compression they keep within writeFrameSize and, where there are several, are as long as buffer and cap allow; errInvalidUTF8 is returned exactly for text that is not valid where it is validated; a timeout, a bad opcode, a control message that does not fit in one frame, an error latched before each exactly with its cause; with the lock free and a network that takes everything there is no other error; the token is free again on every path |
| FrameWriter.Conn.WriteUnfragmented | conn.go:1052-1067 | The server's fast path: one acquire, one release, and a whole message in one frame within the cap whose payload is the data; a control message is refused exactly if it has more than 125 octets |
| FrameWriter.Conn.WriteFragmented | conn.go:1069-1078 | The slow path: the fragments written are one whole message whose payload is the data, each but the last as long as buffer and cap allow; a control message is refused exactly if it would need two |
| FrameWriter.Conn.WriteCompressed | conn.go:1069-1078 | The slow path through the compressor: one whole message whose payload is what it passed on |
| FrameWriter.FewestFrames | conn.go:886-912 | With frames of at most the same length no fragmentation of the payload has fewer frames than one whose frames are full but for the last |
| FrameWriter.MessageWriter.EndMessage | conn.go:784-801 | Gives back the token and the pooled buffer, once |
| FrameWriter.MessageWriter.FlushFrame | conn.go:805-881 | The frame added continues the message: opcode and RSV1 on the first only, FIN exactly when final, its payload what was buffered and then extra; refused exactly if it is a control frame that is long or not final; otherwise it fails exactly with the error latched before or a network that fails, which got a prefix of it; on every error the message ends and its token is given back |
| FrameWriter.MessageWriter.SendFrame | conn.go:813-873 | What reaches the wire is the encoding of the buffered payload followed by extra, which only a writer that does not mask can send |
| FrameWriter.MessageWriter.PayloadRoom | conn.go:886-898 | Exactly what the smaller of buffer and frame cap leaves |
| FrameWriter.MessageWriter.Ncopy | conn.go:900-912 | Room for at least one octet, within buffer and frame cap, without losing or repeating payload; a frame goes out only when it is full |
| FrameWriter.MessageWriter.CopyAll | conn.go:932-942 | The copying loop makes progress and appends exactly the data to the payload taken; every frame it sends is full, and it fails only as FlushFrame does |
| FrameWriter.MessageWriter.Write | conn.go:914-944 | The payload taken so far grows by exactly p; a large p goes out at once in one frame with exactly what was buffered before it, and otherwise every frame sent is full, within buffer and cap; a frame beyond the cap takes a server whose buffer is less than half the cap, and exceeds it by no more than was buffered |
| FrameWriter.BeyondCap | conn.go:914-930 | On every such server an octet and then a cap's worth of octets make a frame beyond the cap that SetWriteFrameSize (conn.go:1159-1175) promises, and with the lock free and a network that takes everything nothing prevents it |
| FrameWriter.RefusedPing | conn.go:1069-1078 | A ping of 20 octets on a client with a cap of 10 is refused by WriteMessage |
| FrameWriter.MessageWriter.WriteString | conn.go:946-962 | The payload taken so far grows by exactly p, and every frame sent is full |
| FrameWriter.MessageWriter.ReadFrom | conn.go:964-990 | The payload taken so far grows by exactly what the reader delivered, for every chunking, empty reads included; every frame sent is full; a failing reader leaves the message open |
| FrameWriter.MessageWriter.Close | conn.go:992-997 | The frames of the message are whole and their payloads concatenate to everything taken; the connection is ready for the next message |
| Frames.FragmentAppended | conn.go:866-880 | A frame that continues the fragments makes a whole message if it is final and leaves an open one if not |
| Transmission.CarriesSegment | conn.go:1179-1363 | What a writer sends for one message, with any pings and pongs in between, is read as that message |
| Transmission.WrittenIsRead | conn.go:1179-1546 | Any list of messages carried by frames in the form the writer leaves them, however fragmented and interleaved, is read in order with types and as the readers understand them, and the handlers see the control payloads |
| WriterStack.PayloadWriter.Write | conn.go:718-722 | What is written goes to the message writer as it is, or as the compressor passes it on |
| WriterStack.PayloadWriter.Close | conn.go:992-997 | The message is whole and its payload is what was passed on, with what the compressor still had |
| WriterStack.ValidatingWriter.Write | conn.go:747-759 | A chunk is refused if and only if the text with it is not viable, at its first bad octet and before any of it is passed on; otherwise all of it is passed on |
| WriterStack.ValidatingWriter.Close | conn.go:761-774 | Succeeds only if everything written is complete valid UTF-8; the message is ended and its token given back in every case |
| Sending.SendControls | conn.go:591-1079 | Control messages by WriteControl, WriteMessage or NextWriter: each adds one frame with exactly its payload; with the lock free and a network that takes everything they all succeed if each fits and only the last is a Close |
| Sending.SendStreamed | conn.go:709-997 | NextWriter, any sequence of Write, WriteString, ReadFrom and WriteControl calls, and Close, through validator and compressor: the frames added to the wire are those of one message with exactly what was passed on, interleaved with exactly the control frames sent; a text was valid where it is validated |
| Sending.SendAll | conn.go:591-1079 | Any list of messages by WriteMessage or NextWriter, each after any control messages: the frames added are those of the messages one after the other, and validated texts were valid; with a network that takes everything all succeed if texts are valid and control messages fit |
| Exchange.ConveyedIsCarried | conn.go:805-881 | What these calls write for a message is a whole message to a peer of the opposite role, as no Close frame can be among it |
| Exchange.ItemsUnderstood | conn.go:1413-1428 | What was written, the peer's decompressor and validator turn into what was given, if the one undoes the compressor and texts are valid |
| Exchange.ItemsArrive | conn.go:1179-1546 | Such frames, whatever follows them, are read as the messages and control payloads of the calls |
| Exchange.Transfer | conn.go:330-1562 | The whole round trip from a new writer to a new reader: if the calls, the last perhaps a Close, returned no error, every peer of the opposite role, over every transport, reads exactly the messages given, in order and with their types, and its handlers see exactly the pings and pongs sent before and within them; a peer that validates needs a sender that does, the default of both, or valid texts; and they return no error if the network takes everything, texts are valid where they are validated and control messages fit in a frame |
| WriteProtocol.TokensStep | conn.go:473-527 | Every step of every caller keeps each token in its channel or with exactly one caller: each acquire has exactly one release |
| WriteProtocol.MoveKeeps | conn.go:555-881 | Every step keeps what is known of the shared state and of the caller that makes it |
| WriteProtocol.OthersKeep | conn.go:555-881 | No step invalidates what any other caller relies on |
| WriteProtocol.RunInv | conn.go:555-881 | Every state of every interleaving of WriteMessage, NextWriter, WritePreparedMessage (of one or several frames) and WriteControl callers, each with its payload, satisfies the invariant |
| WriteProtocol.RecordedCalls | conn.go:866-880 | The last frame of a message on the wire makes its caller the last of the calls, in the order of the turns in which they took writeMu |
| WriteProtocol.WireOfRun | conn.go:555-881 | In every run the wire is whole frames and at most one unfinished frame, which is being written or was cut off for good; without control frames it is contiguous messages and at most one unfinished one, which is never followed by another |
| WriteProtocol.NothingAfterStop | conn.go:535-581 | After a Close frame or an error nothing more reaches the wire in any run, and writeErr never changes again |
| WriteProtocol.OneClose | conn.go:576-580 | In any run at most one Close frame is sent, and the wire ends with it |
| WriteProtocol.WriterAndBuffer | conn.go:661-694 | beginMessage never finds a writer to close, and a pooled buffer is held exactly while a message is open |
| ProtocolDelivery.CutLog | conn.go:784-881 | The frames on the wire can be cut after each message's last frame, with every message's data frames in one piece |
| ProtocolDelivery.RunDelivers | conn.go:555-1546 | For every run, also one that has sent a Close frame, and every transport a peer that understands what was written receives exactly the messages of the calls whose last frame was written, in the order in which they took writeMu |
| ProtocolDelivery.RunRefused | conn.go:555-1546 | If the peer does not understand some message, exactly those before it arrive and then there is an error, with buffers shorter than the bufio reader's |
| ProtocolDelivery.ReturnedIsDelivered | conn.go:473-881 | Every call that returned success is delivered exactly once, in the order in which writeMu was taken; at most one message more arrives, that of a call that has not returned or that failed after its last octet was taken |
| Refinement.NextWriter | conn.go:661-732 | A call of NextWriter on the connection object is a sequence of steps of one caller of the lock protocol |
| Refinement.BeginRefused | conn.go:661-675 | A call whose opcode is bad, or that comes after writes have stopped, takes the lock and gives it back |
| Refinement.FlushFrame | conn.go:784-881 | A call of flushFrame, the release of the lock included, is a sequence of steps of the lock protocol, for every outcome: the frame taken, the network failing after any octet, writes stopped before, a control frame refused |
| Refinement.WriteControl | conn.go:591-658 | A call of WriteControl is a sequence of steps of the lock protocol, also while another caller has a message open |
| Refinement.PreparedSent | conn.go:1009-1031 | A call of WritePreparedMessage that finds the locks free and a network that takes everything is a sequence of steps of the lock protocol that sends all its frames and returns |
| Refinement.CallContinues | conn.go:473-881 | Such a sequence continues every run that has come to the state of the connection, so that what holds of every run holds of the calls |
| Compression.TruncWriter.Write | compression.go:202-228 | After any writes everything received has been passed on except the last min(4, total) octets, which are held in order; the number returned lacks the octets that left, at most four; after a failure only a prefix has been passed on, and it fails only if the destination does |
| Compression.TakeoverWriterFactory.WriteMessage | compression.go:323-366 | Without a failure below, Close succeeds if and only if the compressor's output ends in 00 00 ff ff; then the inner writer is closed without an error, and what was passed on plus that tail is the output, message after message; it fails only if the destination does |
| Compression.Shuffle | compression.go:218-227 | Moving octets between buffer and destination keeps the order of the stream |
| Compression.EmptyBlocks | compression.go:26-34 | The tail is the end of an empty stored block, and what the reader gets after it is the last of the stream |
| Compression.CopyFromWindow | compression.go:379-391 | A copy from at most the window's length back gives the same octets as from the full history, also when it overlaps its own output |
| Compression.WindowDecodes | compression.go:379-391 | A decoder that knows only the window decodes every token stream with distances up to 32768 as one with the full history, errors included |
| Compression.TakeoverReaderFactory.NewDecompressionReader | compression.go:379-391 | What will be read is what a decoder with the history of everything delivered would put out |
| Compression.TakeoverReaderFactory.Read | compression.go:397-411 | However a message is read, the window stays the last 32768 octets delivered, or all of them; every read brings octets, the end or an error, and the end only after the last octet |
| Compression.WindowsDecodeAll | compression.go:368-411 | Decoding each message from the captured window gives what one decoder for the whole connection gives, for every list of messages |
| Compression.UnreadOctetsMatter | compression.go:397-411 | If only part of a message was read, everything after is decoded right if and only if the window equals the one that reading to the end leaves |
| Compression.UnreadOctetsLost | compression.go:397-411 | While the connection has carried at most 32768 octets, everything after a partly read message is decoded right if and only if it was read to its end |
| Compression.UnreadMessageExample | compression.go:397-411 | A concrete message that fails to decode because the one before it was not read |
| Compression.TailRestored | compression.go:379-391 | Truncating every message and putting the tail back gives the receiver the tokens that were compressed |
| Compression.TakeoverRoundTrip | compression.go:318-411 | Truncated, restored and decoded from windows, the messages are what one uninterrupted decoder puts out |
| Compression.CompressedIsDecoded | compression.go:318-411 | What a compressor that keeps its history makes of the messages, one decoder turns back into them |
| Compression.PayloadsRoundTrip | compression.go:318-411 | The payloads of all messages, compressed with history, truncated, restored and decoded from captured windows, are the payloads |
| Extensions.SkipSpaceIn | util.go:117-125 | The rest after leading blanks and tabs |
| Extensions.NextToken | util.go:129-137 | The longest prefix of token octets, and the rest |
| Extensions.TokenAlphabet | util.go:34-113 | A token octet is exactly a printable character of US-ASCII that is not one of the separators of section 2.2 of RFC 2616 |
| Extensions.NextTokenOrQuoted | util.go:141-174 | A token, or the unescaped quoted string, and the rest; nothing at all if the quotes are not closed |
| Extensions.Unescape | util.go:150-170 | The buffer one shorter than the string is never overrun, and holds exactly the unescaped octets at the closing quote |
| Extensions.ParseHeader | util.go:243-281 | The nested loops terminate and return what the recursive parser returns |
| Extensions.ParseExtensions | util.go:228-283 | All header lines in order; a line that does not parse keeps what came before the bad extension |
| Extensions.UnquoteText | util.go:141-174 | Every quoted string, with any characters escaped, is read as its meaning |
| Extensions.ParamRead | util.go:251-272 | Every printed parameter, with any white space and form of value, is read as its name and value |
| Extensions.ElementRead | util.go:246-280 | Every printed extension is read as its name and its parameters, and parsing goes on after the comma |
| Extensions.ListRead | util.go:228-283 | Printing any list of extensions with any white space and quoting, and parsing it, gives the same extensions; for a repeated parameter the last value stands |
| Extensions.BrowserHeader | util.go:228-283 | The header that browsers send is one extension with its name and one parameter without a value |
| Extensions.ParsesExactly | util.go:228-283 | A header yields an extension if and only if it begins with the text of one, ended by a comma or the end |
| Extensions.LineSplits | util.go:228-283 | Every header is the texts of elements with commas between them and then nothing, or a comma and something that begins no element, and the result of parsing it is exactly those elements |

## Left out

- FrameWriter.Conn.WriteMessage: what the compressor passes on for the data is an input; how DEFLATE makes it is not
  modelled, nor is its own buffering of small writes. A failing Close of the compressor is `Compression`'s.
- FrameWriter.Conn.NextWriter: there being no interfaces here, it returns the message writer and says what is stacked on
  it; `WriterStack` and `Sending` stack it. Likewise `FrameReader.Conn.NextReader` and `Conversations`.
- FrameWriter.Conn.BeginMessage: a pool hands out a new buffer of any size, so reuse of old contents is not modelled.
- FrameReader.Conn.ReadOctets: bufio's buffer always has room for the n octets asked for (at most 125, which newConn
  sees to).
- FrameWriter.Conn.WriteControl: that the mutex is not free before its deadline is an input, as is, for the other calls,
  that the write deadline has passed (`late`); what the network does with each write is a function of the octets before.
- FrameWriter.Conn.WriteMessage: with a buffer from a pool, whose size is not known, the contract does not say which
  control messages of at most 125 octets are refused.
- TextStreams.ValidatingReader.Read: sits on the uncompressed message reader, not on the decompressor.
- Compression.TakeoverReaderFactory.Read: DEFLATE is LZ77 tokens given to the decoder; bit packing, Huffman codes and the
  decoder's own reads of its input are not modelled, and `Codec` states what is relied on: a flush ends the output in
  00 00 ff ff, and parsing the output gives the tokens back.
- The writer classes take one caller at a time; `Refinement` makes each of their calls a sequence of steps of the lock
  protocol, in which callers are interleaved. WritePreparedMessage exists in the protocol only. Timeouts of a lock are
  nondeterministic steps; a caller that waits for ever is allowed, and nothing is claimed about progress.
- The decompressor of a whole conversation is a function of the compressed payloads read so far (`Readers.decode`);
  `Compression` says what it is under context takeover. How far it has read when it fails is not tracked.
- bufio.Reader appears by what one read of it can bring; which octets it holds already is not tracked, so that every
  behaviour it can have is allowed, for some way in which the transport hands over the octets.
- Real deadlines, contexts, watchdog goroutines, CloseGracefully and the panic after 1000 failed reads.
- Handlers are abstract: they see an event, accept or fail, and do not touch the connection. The Close and pong frames they
  or a protocol error ask for are recorded as events of the reader, not written by it.
- Handshakes, dialing, proxies, HTTP/2 and the negotiation of compression modes (client.go, server.go, proxy.go, h2.go);
  prepared.go, json.go and join.go, except that WritePreparedMessage takes part in the lock protocol.
- Compression without context takeover (compression.go:162-194, 230-290), whose wrappers differ only in pooling.
- Mask keys are arbitrary; a machine word is little-endian, its size any multiple of four.
- Slices longer than 2^61 octets, for which Go's int arithmetic on lengths would not be exact.
- The other functions of util.go: accept keys, token lists, case folding and challenge keys.
