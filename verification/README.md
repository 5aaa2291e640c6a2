# Verified models of the byte-level core of webrtc/base

This project models nine self-contained components of the repository and proves what they are for:

| file | component |
|---|---|
| `HttpGrammar.dfy`, `HttpReceive.dfy`, `HttpSend.dfy`, `HttpMessage.dfy` | the incremental HTTP/1.1 parser, the receive loop with its 32 KiB buffer, and the chunked sender (section 4.1 of RFC 7230) |
| `TcpFraming.dfy` | packets over TCP as a 16-bit length and a payload (section 2 of RFC 4571) |
| `RotatingLog.dfy`, `LogReader.dfy` | rotating log files, the call-session variant, file names and the reader |
| `Crc32.dfy` | CRC-32 (section 8 of RFC 1952) |
| `BitStrings.dfy`, `BitBuffer.dfy`, `ExpGolomb.dfy` | the bit buffer and the Exp-Golomb code (clauses 9.1 and 9.1.1 of ITU-T H.264) |
| `Base64.dfy`, `Base64Shape.dfy` | Base64 with three parse modes and roll-back of bad padding (sections 3.5 and 4 of RFC 4648) |
| `DiskCache.dfy` | locking and accounting of the disk cache |
| `ByteBuffer.dfy`, `ByteOrder.dfy` | the growing, compacting byte queue with versioned read positions, and integers as bytes |
| `LowPassFilter.dfy` | the fixed-point low-pass branch of the audio driver |

`Bytes.dfy` holds the byte type and facts about slices. `dafny verify dfyconfig.toml` checks everything.

Each component has a specification on values (a parse of a whole stream, a list of packets, a bit
sequence, a difference equation) and, where the source updates memory step by step, classes whose
methods are proved against it. The outside world is an adversary: networks, kernels, documents and
file systems choose how many bytes they take or give, whether they block and whether they fail.

Main results:

- **Slicing independence.** Feeding a stream to the HTTP parser in any slices gives the same state,
  events, body, result and byte count as one call (`HttpGrammar.SlicingIndependence`). The receive
  loop with its buffer keeps that as long as nobody says to wait
  (`HttpReceive.HttpReceiver.AnyCalls`). After a stall it does not: the loop reads the network before
  it processes what it holds, so a close behind a stall drops buffered bytes
  (`HttpReceive.CloseAfterStall`). `HttpReceive.HttpReceiver.UpToDate` says exactly when the receiver
  is where one parse of everything received would be.
- **Chunked round trip.** Over any pattern of partial and blocked reads and writes, what is on the
  wire parses to a prefix of the document and, when success is reported, to the document, completing
  on the last byte (`HttpSend.HttpSender.ReceiverHolds`). From the first byte of the leader, a parser
  reads back every header field and the document (`HttpMessage.MessageArrives`). Headers of 32765
  bytes and more are dropped. Without a document the flush loop repeats for as long as the network blocks,
  and chunked headers get no last chunk (`HttpSend.HttpSender.FlushStep`, `NoDocumentNoEnd`).
- **TCP framing.** Over any run, deliveries are a prefix of acceptances and the receive buffer cannot
  overflow (`TcpFraming.Session`, `TcpFraming.AsyncTcpSocket.OnReadEvent`). A packet survives the
  16-bit length if and only if it is shorter than 65536 bytes (`TcpFraming.FrameIsReadBack`).
- **Log retention.** After any run of writes the files hold exactly the stated bytes, within the
  session's budget, and a reader that only sees sorted names recovers them, if and only if no other
  file that starts with the prefix holds bytes (`LogReader.ReadStream`). A session loses nothing until
  its files are used up and never holds less than three quarters of its budget after that
  (`RotatingLog.FileRotatingStream.SessionKeeps`).
- **CRC-32** is polynomial division, a bijection of its start value, and detects every burst of 32 bits
  (`Crc32.CrcIsPolynomialRemainder`, `Crc32.CrcIsBijection`, `Crc32.BurstDetected`).
- **Exp-Golomb** values written at any offset are read back (`BitBuffer.BitBufferWriter.RoundTrip`).
- **Base64.** For every string, parse mode, padding and termination rule, the bytes, the rest and the
  verdict are said in terms of the letters, the pads and the left-over bits
  (`Base64Shape.StrictShape`, `AnyShape`, `WhiteRest`). Strict decoding is a bijection
  (`Base64.StrictIsBijection`). Under DO_PARSE_WHITE the bytes are
  those of strict parsing without the white space; the success flag is not: `"QUJD "` decodes to `ABC`
  and fails when padding is demanded. `Base64.WhiteSuccess` says exactly when the flags differ.
- **Disk cache.** No run reads and writes an entry together, loses an open entry, or lets the totals
  drift (`DiskCache.DiskCache.AnyRun`), and only oldest idle entries are evicted
  (`DiskCache.DiskCache.CheckLimit`). But the search for a victim starts one entry too far and looks at
  busy entries: `DiskCache.PickIsOldestIdle` says exactly when it finds one that cannot be deleted, and
  `DiskCache.DiskCache.EvictOne` exactly when it runs past the end. Purging keeps the accounting if and
  only if the total size was zero.
- **ByteBuffer** is a byte queue, and a saved position is restored exactly or refused
  (`ByteBuffer.ByteBuffer.AnyRun`).
- **The filter** never exceeds 191000 and no 32-bit operation overflows, for input of any length
  (`LowPassFilter.OutputBounded`, `LowPassFilter.LowPass.Step`).

## Model

| member | source | states |
|---|---|---|
| `HttpGrammar.LineStep` | webrtc/base/httpbase.cc:125-213 | a line leads only to states that may follow, leaves the body alone, only appends events, and completes the message without error exactly as the empty line behind the trailers |
| `HttpGrammar.FieldStep` | webrtc/base/httpbase.cc:148-169 | a field is refused with a protocol error and no other effect, or recorded, and changes at most the size and the chunked flag |
| `HttpGrammar.FieldMeaning` | webrtc/base/httpbase.cc:148-169 | Transfer-Encoding chunked sets and identity clears the chunked flag and any other value stops; Content-Length sets the size that sscanf finds or stops; no other field changes either |
| `HttpGrammar.CaseIgnored` | webrtc/base/httpbase.cc:31-35 | names match in either case of their letters, and in nothing else |
| `HttpGrammar.LineVerdicts` | webrtc/base/httpbase.cc:125-205 | which lines stop the parser with which error in each state, what size a line of hexadecimal digits announces, and which state follows |
| `HttpGrammar.TrimEndExact` | webrtc/base/httpbase.cc:82-84 | exactly the trailing white space of a line is dropped |
| `HttpGrammar.TrimStartExact` | webrtc/base/httpbase.cc:144-147 | exactly the white space in front of a value is dropped |
| `HttpGrammar.HexDigits` | webrtc/base/httpbase.cc:176-182 | the sixteen digits have their values in both cases |
| `HttpGrammar.CloseError` | webrtc/base/httpbase.cc:479-496 | each result of a close belongs to exactly one code, and a clean close succeeds exactly where the message may end |
| `HttpGrammar.Parse` | webrtc/base/httpbase.cc:59-122 | the meaning of a stream: a total function that uses at most the input and never leaves the parser in the complete state |
| `HttpGrammar.LineParses` | webrtc/base/httpbase.cc:71-90 | a line followed by anything is processed as that line alone, and parsing goes on (or stops) right behind its line feed |
| `HttpGrammar.LineLeads` | webrtc/base/httpbase.cc:71-90 | a line that does not end the message takes the parser to the next state whatever follows |
| `HttpGrammar.DataParses` | webrtc/base/httpbase.cc:97-118 | body bytes handed over in pieces give the same parse as handed over at once |
| `HttpGrammar.DataLeads` | webrtc/base/httpbase.cc:97-118 | accepted body bytes take the parser to the state with those bytes delivered, whatever follows |
| `HttpGrammar.ChunkEndLeads` | webrtc/base/httpbase.cc:91-93 | an exhausted chunk moves to the chunk terminator without using a byte |
| `HttpGrammar.LeadsTransitive` | webrtc/base/httpbase.cc:70-122 | consecutive consumed pieces compose: the parser carries no hidden position |
| `HttpGrammar.HaltingParse` | webrtc/base/httpbase.cc:70-122 | an element that completes the message completes it in the same way whatever follows |
| `HttpGrammar.ParseMoves` | webrtc/base/httpbase.cc:70-122 | a parser that neither waits nor completes makes a step that does not depend on later bytes |
| `HttpGrammar.ParseLeads` | webrtc/base/httpbase.cc:59-122 | an unfinished parse stops only where it waits for a line end or for any byte, and what it used leads exactly there |
| `HttpGrammar.ParseDoneStays` | webrtc/base/httpbase.cc:59-122 | a completed parse is not changed by any further bytes |
| `HttpGrammar.ParseSplits` | webrtc/base/httpbase.cc:59-122 | parsing may stop anywhere and resume with the unused bytes in front of the new ones |
| `HttpGrammar.SlicingIndependence` | webrtc/base/httpbase.cc:498-578 | for every stream and every way to cut it, feeding the slices with carry-over gives the same state, events, body, result and byte count as one call on the whole stream |
| `HttpGrammar.ParseExtends` | webrtc/base/httpbase.cc:59-122 | parsing only adds to the events and to the body |
| `HttpGrammar.PrefixGivesPrefix` | webrtc/base/httpbase.cc:59-122 | what was emitted from a prefix of the stream is a prefix of what the whole stream emits |
| `HttpReceive.LineFinishes` | webrtc/base/httpbase.cc:71-90 | a line that ends the message ends it with that error, whatever follows |
| `HttpReceive.BodyFinishes` | webrtc/base/httpbase.cc:91-96 | an exhausted body without chunking completes without error, whatever follows |
| `HttpReceive.FinishesAfter` | webrtc/base/httpbase.cc:59-122 | completion after a consumed piece is completion of the whole stream |
| `HttpReceive.HttpParser.constructor` | webrtc/base/httpbase.cc:45-57 | the parser starts in the leader state, not chunked, with unknown size |
| `HttpReceive.HttpParser.ProcessLine` | webrtc/base/httpbase.cc:125-213 | the in-place state change is the line step of the grammar, with its result and error; only the listener can make it block |
| `HttpReceive.HttpParser.ProcessHeaderLine` | webrtc/base/httpbase.cc:135-165 | header fields set the size or the chunked flag, are reported in order, and malformed ones are refused |
| `HttpReceive.HttpParser.ProcessHeaderComplete` | webrtc/base/httpbase.cc:829-849 | the listener sees chunking and size once, and may change the size, refuse, or take over |
| `HttpReceive.HttpParser.ProcessData` | webrtc/base/httpbase.cc:851-874 | the document takes a non-empty prefix, blocks, or fails with HE_STREAM |
| `HttpReceive.HttpParser.FindLineEnd` | webrtc/base/httpbase.cc:72-78 | finds the first line feed, or the end |
| `HttpReceive.HttpParser.TrimLine` | webrtc/base/httpbase.cc:79-84 | drops exactly the trailing white space of the line |
| `HttpReceive.HttpParser.ConsumeLine` | webrtc/base/httpbase.cc:71-90 | a buffered line leads to the next state or finishes the message, whatever follows |
| `HttpReceive.HttpParser.ConsumeData` | webrtc/base/httpbase.cc:97-118 | the bytes the document took lead to the new state; nothing is used when it blocks or fails |
| `HttpReceive.HttpParser.LineRound` | webrtc/base/httpbase.cc:71-90 | the line branch: what was used leads on or finishes, and without a line feed nothing changes |
| `HttpReceive.HttpParser.EndRound` | webrtc/base/httpbase.cc:91-96 | an exhausted body finishes, an exhausted chunk moves to its terminator |
| `HttpReceive.HttpParser.DataRound` | webrtc/base/httpbase.cc:97-118 | the data branch: what the document took leads on; without data nothing changes |
| `HttpReceive.HttpParser.Round` | webrtc/base/httpbase.cc:70-119 | one round of the loop uses bytes or leaves the data state, or stops for its reason |
| `HttpReceive.HttpParser.Process` | webrtc/base/httpbase.cc:59-122 | the bytes used lead from the old state to the new one, continuing means waiting, a reported result that is not a failure of the document is the result of the stream, and a waiting parser changes nothing |
| `HttpReceive.HttpReceiver.constructor` | webrtc/base/httpbase.cc:363-386 | an empty 32768-byte buffer in front of a fresh parser |
| `HttpReceive.HttpReceiver.TakeIn` | webrtc/base/httpbase.cc:515-526 | bytes from the network are appended behind the buffered ones |
| `HttpReceive.HttpReceiver.ReadNetwork` | webrtc/base/httpbase.cc:515-541 | the network appends any bytes that fit, blocks, or closes; what the parser has used is untouched |
| `HttpReceive.HttpReceiver.DropFront` | webrtc/base/httpbase.cc:560-561 | memmove keeps exactly the unprocessed bytes |
| `HttpReceive.HttpReceiver.ProcessBuffer` | webrtc/base/httpbase.cc:550-573 | after processing, the buffer is still the end of what was received, and the parser stands for everything before it |
| `HttpReceive.HttpReceiver.FillBuffer` | webrtc/base/httpbase.cc:515-548 | the reading half of a round ends the call for a close, for a block with nothing to do, or for a full buffer with nothing to do |
| `HttpReceive.HttpReceiver.ProcessRound` | webrtc/base/httpbase.cc:556-573 | the processing half of a round goes on with nothing left to process, or ends the call for a stall or a result |
| `HttpReceive.HttpReceiver.Pump` | webrtc/base/httpbase.cc:510-574 | one round, and how each counter tells its reason to stop |
| `HttpReceive.HttpReceiver.DoReceiveLoop` | webrtc/base/httpbase.cc:498-578 | at every return but a finished parse, what was received is what the parser has used followed by the buffer, at most 32768 bytes; waiting and starved returns leave nothing to process, and starving takes exactly 21 rounds; HE_OVERFLOW is reported only with a full buffer, no line feed and a line-reading state, and always in that situation; a close leaves something unprocessed only if it was there before the call and the call did nothing |
| `HttpReceive.HttpReceiver.UpToDate` | webrtc/base/httpbase.cc:498-578 | the receiver is where one parse of everything received would leave it if and only if the parser waits on the buffer |
| `HttpReceive.HttpReceiver.AnyCalls` | webrtc/base/httpbase.cc:498-578 | over any number of calls in which document and listener never say to wait, the state, body and result at every return for a parse, a close or more data are those of everything received; after a stall they are so again at every return that waits for the network |
| `HttpReceive.HttpReceiver.IdleResult` | webrtc/base/httpbase.cc:479-496 | with nothing left to process, what a close reports is what everything received amounts to |
| `HttpReceive.ParsedResult` | webrtc/base/httpbase.cc:556-573 | a result of the parser is what everything received amounts to, however the stream ends |
| `HttpReceive.CloseLosesBody` | webrtc/base/httpbase.cc:515-540 | with unprocessed bytes of a body that ends with the connection, a clean close reports HE_NONE without them |
| `HttpReceive.CloseLosesMessage` | webrtc/base/httpbase.cc:515-540 | with a whole body of known length still unprocessed, a clean close reports HE_DISCONNECTED instead of HE_NONE |
| `HttpReceive.CloseAfterStall` | webrtc/base/httpbase.cc:515-569 | a concrete message whose last byte is lost when the document blocks and the peer then closes |
| `HttpReceive.WaitingIsParseOfAll` | webrtc/base/httpbase.cc:498-578 | when the loop waits, one call on all bytes received would stop in the same state after the same number of bytes |
| `HttpReceive.FinishedIsParseOfAll` | webrtc/base/httpbase.cc:498-578 | when the parser reports a result, one call on all bytes received, and anything more, gives that result |
| `HttpSend.HexRoundTrip` | webrtc/base/httpbase.cc:636-643 | the eight-digit chunk size is a hexadecimal line of its own width that parses back to the size |
| `HttpSend.HexDigitIs` | webrtc/base/httpbase.cc:636-641 | the digits of a chunk size are the lower-case ones |
| `HttpSend.ChunkLeads` | webrtc/base/httpbase.cc:176-199 | a chunk takes the parser from chunk-size state to chunk-size state with exactly its data delivered |
| `HttpSend.ChunksLead` | webrtc/base/httpbase.cc:176-199 | any sequence of chunks delivers the concatenation of its parts |
| `HttpSend.LastChunkParses` | webrtc/base/httpbase.cc:176-205 | the empty chunk and empty trailers complete with HE_NONE on their last byte |
| `HttpSend.ChunkedRoundTrip` | webrtc/base/httpbase.cc:588-706 | for every split of a document, parsing its chunked coding gives the document and completes with HE_NONE on the last byte |
| `HttpSend.PartialCodingGivesPrefix` | webrtc/base/httpbase.cc:588-706 | whatever part of the coding has arrived, the receiver holds a prefix of the document |
| `HttpSend.SentDocumentArrives` | webrtc/base/httpbase.cc:588-706 | a finished coding, cut into network pieces in any way, arrives as the document and nothing else |
| `HttpSend.HttpSender.constructor` | webrtc/base/httpbase.cc:403-437 | sending starts with the leader and its line end in the buffer, all headers unqueued and the whole document unread; without headers the empty line is queued at once; what does not fit is cut off |
| `HttpSend.HeadIsWhole` | webrtc/base/httpbase.cc:427-434 | the line ends behind the leader are whole if and only if they fit in the buffer with a terminator |
| `HttpSend.AllHeadersFit` | webrtc/base/httpbase.cc:711-722 | every header is sent if and only if each is shorter than 32765 bytes |
| `HttpSend.HttpSender.PutHeader` | webrtc/base/httpbase.cc:712-718 | a header that fits enters the buffer behind what it holds |
| `HttpSend.HttpSender.DropHeader` | webrtc/base/httpbase.cc:719-721 | a header too long for an empty buffer leaves no trace |
| `HttpSend.HttpSender.EndHeaders` | webrtc/base/httpbase.cc:727-728 | the empty line completes the head |
| `HttpSend.HttpSender.QueueLines` | webrtc/base/httpbase.cc:711-726 | headers are queued in order until one needs a write first |
| `HttpSend.HttpSender.QueueHeaders` | webrtc/base/httpbase.cc:708-730 | headers enter the buffer in order; only one too long for an empty buffer is dropped; when the last is queued the empty line follows; otherwise a write is needed |
| `HttpSend.HttpSender.AppendChunk` | webrtc/base/httpbase.cc:614-647 | size line, data and line end enter the buffer behind what it held |
| `HttpSend.HttpSender.AcceptPart` | webrtc/base/httpbase.cc:629-647 | document bytes read are neither lost nor repeated: wire plus buffer is always headers plus a coding of the bytes read |
| `HttpSend.HttpSender.CloseCoding` | webrtc/base/httpbase.cc:651-658 | the last chunk enters the buffer once, after the whole document |
| `HttpSend.HttpSender.QueueDocument` | webrtc/base/httpbase.cc:611-673 | the document side of one round keeps the invariant and either makes progress or says why it cannot |
| `HttpSend.HttpSender.Drain` | webrtc/base/httpbase.cc:687-691 | bytes accepted by the network leave the front of the buffer, in order |
| `HttpSend.HttpSender.WriteNetwork` | webrtc/base/httpbase.cc:684-702 | a partial, blocked or failed network write keeps the invariant |
| `HttpSend.HttpSender.WriteStep` | webrtc/base/httpbase.cc:684-702 | a write that returns to the loop sent something, or had more to queue; one that stops was blocked or failed |
| `HttpSend.HttpSender.QueueStep` | webrtc/base/httpbase.cc:606-673 | headers and then document bytes are queued; what is left to do shrinks, or a write is needed, or only the buffer is left |
| `HttpSend.HttpSender.SendStep` | webrtc/base/httpbase.cc:675-702 | an empty buffer without a document is the end; otherwise the buffer is written |
| `HttpSend.HttpSender.FlushStep` | webrtc/base/httpbase.cc:596-703 | a round that goes on has strictly less left to do, except that without a document a blocked network changes nothing and the round is repeated; one that stops was blocked or finished |
| `HttpSend.HttpSender.FlushData` | webrtc/base/httpbase.cc:588-706 | over any pattern of reads and writes, HE_NONE is reported only when the wire holds exactly the headers that fit and a complete coding of the document; with a document the loop ends, blocked, failed or finished; without one it can only go on by finding the network blocked |
| `HttpSend.HttpSender.ReceiverHolds` | webrtc/base/httpbase.cc:588-706 | at every moment of a chunked transfer the receiver of the wire has a prefix of the document, and exactly the document, completed with HE_NONE on the last byte, once success is reported |
| `HttpSend.HttpSender.NoDocumentNoEnd` | webrtc/base/httpbase.cc:675-682 | chunked headers without a document are reported as sent, and the receiver still waits for a chunk |
| `HttpMessage.FieldIsRead` | webrtc/base/httpbase.cc:712-715 | the line name, colon, space, value is taken apart into that name and value, for every clean field and also for an empty value |
| `HttpMessage.FieldsLead` | webrtc/base/httpbase.cc:135-165 | any list of clean header lines leads to the state after those fields, with one event each in order |
| `HttpMessage.TextFormat` | webrtc/base/httpbase.cc:712-715 | between name and value there is a colon and one space |
| `HttpMessage.LastCodingDecides` | webrtc/base/httpbase.cc:160-169 | the last Transfer-Encoding of a list decides whether the body is chunked |
| `HttpMessage.LastLengthDecides` | webrtc/base/httpbase.cc:148-159 | the last Content-Length of a list decides the size |
| `HttpMessage.OtherFieldsKeep` | webrtc/base/httpbase.cc:135-170 | a list without such fields decides nothing |
| `HttpMessage.AnnouncedIsRead` | webrtc/base/httpbase.cc:135-170 | what the fields announce is what the parser goes by |
| `HttpMessage.HeadLeads` | webrtc/base/httpbase.cc:131-175 | leader, header lines and the empty line lead from the start state to the body, with every field reported |
| `HttpMessage.SizedBodyParses` | webrtc/base/httpbase.cc:91-118 | a body of announced length ends the message when it is all there |
| `HttpMessage.ChunkedMessage` | webrtc/base/httpbase.cc:59-213 | a whole message with a chunked body is read back from its first byte and completes with HE_NONE on its last |
| `HttpMessage.SizedMessage` | webrtc/base/httpbase.cc:59-213 | a whole message whose length is announced is read back likewise |
| `HttpMessage.HeadOnWire` | webrtc/base/httpbase.cc:427-434 | with a leader and headers that fit, what the sender puts in front of the body is the text of the head |
| `HttpMessage.MessageArrives` | webrtc/base/httpbase.cc:403-706 | once the sender reports success, a parser at its start state reads every field and the document from the wire and completes with HE_NONE on the last byte, if the last Transfer-Encoding or Content-Length announces the body that was sent |
| `TcpFraming.FramesConcat` | webrtc/base/asynctcpsocket.cc:249-276 | frames of consecutive runs of packets concatenate |
| `TcpFraming.FrameIsReadBack` | webrtc/base/asynctcpsocket.cc:256-259 | a packet survives framing if and only if it is shorter than 65536 bytes; a longer one arrives cut to its length modulo 65536 |
| `TcpFraming.OversizedPacketIsLost` | webrtc/base/asynctcpsocket.cc:251-259 | 65536 bytes pass the size check and would arrive as an empty packet |
| `TcpFraming.DeframeExact` | webrtc/base/asynctcpsocket.cc:278-297 | whatever was cut is exactly frames of the packets delivered, and the rest holds no whole frame |
| `TcpFraming.DeframeFrames` | webrtc/base/asynctcpsocket.cc:278-297 | frames followed by an incomplete rest give back exactly the packets and that rest |
| `TcpFraming.DeframeSplits` | webrtc/base/asynctcpsocket.cc:278-297 | cutting may stop anywhere and resume with the rest in front of new bytes |
| `TcpFraming.DeframePrefix` | webrtc/base/asynctcpsocket.cc:278-297 | the packets of a prefix of the stream are a prefix of the packets of the stream |
| `TcpFraming.AsyncTcpSocket.constructor` | webrtc/base/asynctcpsocket.cc:51-74 | both buffers start empty |
| `TcpFraming.AsyncTcpSocket.FlushOutBuffer` | webrtc/base/asynctcpsocket.cc:151-166 | any number of bytes the kernel takes moves from the buffer to the wire; wire plus buffer is unchanged |
| `TcpFraming.AsyncTcpSocket.AppendToOutBuffer` | webrtc/base/asynctcpsocket.cc:168-172 | bytes are added behind the pending ones |
| `TcpFraming.AsyncTcpSocket.Send` | webrtc/base/asynctcpsocket.cc:249-276 | a packet is accepted once any byte of its frame is taken, and otherwise refused, dropped or stopped by the buffer assertion without a trace, each exactly for its own reason; wire plus pending bytes stays a concatenation of whole frames |
| `TcpFraming.AsyncTcpSocket.OnWriteEvent` | webrtc/base/asynctcpsocket.cc:217-227 | a write event only moves pending bytes to the wire |
| `TcpFraming.AsyncTcpSocket.ProcessInput` | webrtc/base/asynctcpsocket.cc:278-297 | all whole frames are delivered in order and fewer than 65537 bytes remain |
| `TcpFraming.AsyncTcpSocket.OnReadEvent` | webrtc/base/asynctcpsocket.cc:196-213 | there is always room to receive, so the overflow reset is unreachable; what is delivered is the deframing of everything received |
| `TcpFraming.DeliveredIsPrefixOfAccepted` | webrtc/base/asynctcpsocket.cc:249-297 | what a receiver of any part of the wire delivers is a prefix of the packets accepted, with their boundaries |
| `TcpFraming.AllSentIsAllDelivered` | webrtc/base/asynctcpsocket.cc:249-297 | once everything is on the wire and received, exactly the accepted packets are delivered |
| `TcpFraming.SessionStep` | webrtc/base/asynctcpsocket.cc:151-297 | every single event of sender, receiver or kernel keeps both sockets consistent |
| `TcpFraming.Session` | webrtc/base/asynctcpsocket.cc:151-297 | over any run of sends, partial flushes, write events and reads of any size, deliveries are a prefix of acceptances, and equal them when nothing is pending |
| `RotatingLog.FileRotatingStream.Plain` | webrtc/base/filerotatingstream.cc:31-78 | a stream opens with an empty file 0 and no others |
| `RotatingLog.FileRotatingStream.CallSession` | webrtc/base/filerotatingstream.cc:354-364 | a session opens with half of the budget as first file size |
| `RotatingLog.FileRotatingStream.RotateFiles` | webrtc/base/filerotatingstream.cc:278-304 | the file at the rotation index is dropped, every lower one moves up by one, the higher ones stay, file 0 is empty |
| `RotatingLog.FileRotatingStream.OnRotation` | webrtc/base/filerotatingstream.cc:370-381 | the first rotation shrinks the file size; the rotation that fills the last slot lowers the rotation index once |
| `RotatingLog.FileRotatingStream.Write` | webrtc/base/filerotatingstream.cc:143-171 | any write, also a partial one, keeps the files equal to what the log says, and returns what fitted |
| `RotatingLog.FileRotatingStream.Grow` | webrtc/base/filerotatingstream.cc:143-160 | the current file grows by the data, and a session is within its budget even when the file is now full |
| `RotatingLog.FileRotatingStream.PeakInBudget` | webrtc/base/filerotatingstream.cc:143-171 | a session is within its budget in every consistent state, also with a full file that is not yet rotated |
| `RotatingLog.NewestRotates` | webrtc/base/filerotatingstream.cc:278-304 | rotation of a full plain stream keeps the newest blocks in order |
| `RotatingLog.SessionStarts` | webrtc/base/filerotatingstream.cc:370-381 | after the first rotation of a session its first file is at index 1 and file 0 is empty |
| `RotatingLog.SessionRotates` | webrtc/base/filerotatingstream.cc:278-304 | a later rotation moves the first file up until it stands above all rotating files, where it stays, and drops the oldest rotating block once the slots are full |
| `RotatingLog.PlainRetention` | webrtc/base/filerotatingstream.cc:143-171 | read oldest first, the files are the last min(T/M, n-1)*M + T%M of the T bytes written |
| `RotatingLog.SessionRetention` | webrtc/base/filerotatingstream.cc:143-171 | read oldest first, the files are the first file followed by the last min(q, n-2)*R + r of the rest |
| `RotatingLog.TotalIsReadBack` | webrtc/base/filerotatingstream.cc:180-198 | bytes on disk are the length of what is read back |
| `RotatingLog.BudgetSuffices` | webrtc/base/filerotatingstream.cc:383-398 | for every budget of at least 4, the first file and all rotating files fit in it |
| `RotatingLog.BudgetIsUsed` | webrtc/base/filerotatingstream.cc:383-398 | from three mebibytes in half of the budget on, the rotating files are of one mebibyte and as many as fit; below, they are two of a quarter of the budget |
| `RotatingLog.KeepsEnough` | webrtc/base/filerotatingstream.cc:383-398 | behind the first file a session keeps everything until its rotating files are used up, and from then on at least a quarter of the budget |
| `RotatingLog.WithinBudget` | webrtc/base/filerotatingstream.cc:383-398 | the first file and what is kept of any number of further bytes fit in the budget |
| `RotatingLog.SessionPeak` | webrtc/base/filerotatingstream.cc:383-398 | the total of a session with a full current file is at most the first file and one rotating size more than its older files |
| `RotatingLog.FileRotatingStream.PlainFiles` | webrtc/base/filerotatingstream.cc:143-171 | after any run of writes a plain stream holds exactly those bytes |
| `RotatingLog.FileRotatingStream.SessionFiles` | webrtc/base/filerotatingstream.cc:370-398 | after any run of writes a session holds the first half-budget of bytes for ever and the newest of the rest, and never exceeds the budget |
| `RotatingLog.FileRotatingStream.SessionKeeps` | webrtc/base/filerotatingstream.cc:143-171 | a session loses nothing before its rotating files are used up, and never holds less than three quarters of the budget once that much was written |
| `RotatingLog.FileRotatingStream.SessionFirstFile` | webrtc/base/filerotatingstream.cc:354-381 | until its first file is full a session holds everything in it |
| `RotatingLog.FileRotatingStream.Files` | webrtc/base/filerotatingstream.cc:143-171 | the files of any stream, read oldest first, are its retained bytes, and a session stays in its budget |
| `LogReader.GetFilePath` | webrtc/base/filerotatingstream.cc:326-345 | the name is the prefix, the zeros of the index/10 + 1 rule and the index |
| `LogReader.NameFormat` | webrtc/base/filerotatingstream.cc:326-345 | a name is the prefix, an underscore, zeros and the decimal index; the zeros and a tenth of the index add up to a tenth of the last index |
| `LogReader.DecimalIsValue` | webrtc/base/filerotatingstream.cc:341-341 | the digits of the index have its value |
| `LogReader.NameOrder` | webrtc/base/filerotatingstream.cc:326-345 | for every number of files, a smaller index has the lexicographically smaller name |
| `LogReader.SortIsUnique` | webrtc/base/filerotatingstream.cc:60-76 | there is only one increasing list of given names, so sorting a listing in any order gives it |
| `LogReader.NamesIncrease` | webrtc/base/filerotatingstream.cc:326-345 | the names of indices 0, 1, 2, ... are strictly increasing |
| `LogReader.GetFilesWithPrefix` | webrtc/base/filerotatingstream.cc:306-324 | lists exactly the files whose name starts with the prefix, each once |
| `LogReader.OwnNames` | webrtc/base/filerotatingstream.cc:60-76 | in any sorted listing the own names of a stream stand in index order |
| `LogReader.BackwardsOfKept` | webrtc/base/filerotatingstream.cc:93-141 | other files with the prefix only add bytes, and none if and only if they are empty |
| `LogReader.RotatedReader.constructor` | webrtc/base/filerotatingstream.cc:60-76 | a reader starts at the last name with everything unread |
| `LogReader.RotatedReader.Read` | webrtc/base/filerotatingstream.cc:93-141 | a read returns the next bytes and leaves the others, skips empty files, and says end of stream only when nothing is left |
| `LogReader.RotatedReader.ReadAll` | webrtc/base/filerotatingstream.cc:93-141 | repeated reads of any size return the files from the last name to the first |
| `LogReader.BackwardsIsReadBack` | webrtc/base/filerotatingstream.cc:93-141 | the own files of a stream by name backwards are the disk read from its oldest file |
| `LogReader.Recover` | webrtc/base/filerotatingstream.cc:60-141 | a reader over any listing of the directory recovers exactly the retained bytes, oldest first, if and only if every other file that starts with the prefix is empty |
| `LogReader.ForeignFileIsRead` | webrtc/base/filerotatingstream.cc:315-322 | log_old beside log_0 is read as the oldest part of the log |
| `LogReader.ReadStream` | webrtc/base/filerotatingstream.cc:60-171 | after any run of writes to a plain or session stream, a reader gets exactly the bytes of the retention formula, if and only if no other file with the prefix holds bytes |
| `Crc32.PolynomialConstant` | webrtc/base/crc32.cc:20-22 | the set of taps is the constant 0xEDB88320 |
| `Crc32.CrcConcat` | webrtc/base/crc32.cc:41-50 | a checksum may be computed piece by piece |
| `Crc32.DivideIsShifts` | webrtc/base/crc32.cc:41-50 | up to 32 bits may be added to the register first and shifted through afterwards |
| `Crc32.TableStep` | webrtc/base/crc32.cc:46-48 | eight shifts are one table lookup of the low byte and a shift by eight |
| `Crc32.ByteStep` | webrtc/base/crc32.cc:46-48 | one byte of the table loop is eight steps of bit-at-a-time division |
| `Crc32.DivideInverse` | webrtc/base/crc32.cc:41-50 | the division step is undone exactly, in both directions |
| `Crc32.CrcIsBijection` | webrtc/base/crc32.cc:41-50 | for a fixed buffer the checksum is a bijection of its start value, with an explicit inverse |
| `Crc32.BurstDetected` | webrtc/base/crc32.cc:41-50 | different buffers of one length that differ only within 32 consecutive bits, at any bit position, have different checksums |
| `Crc32.DivideIsRemainder` | webrtc/base/crc32.cc:25-50 | the register is the remainder of polynomial division over GF(2) |
| `Crc32.CrcIsPolynomialRemainder` | webrtc/base/crc32.cc:25-50 | the checksum is the complement of the remainder of the complemented message times x^32 |
| `Crc32.EntryNonZero` | webrtc/base/crc32.cc:25-27 | an odd entry, such as the last one that the initialisation test looks at, is not zero |
| `Crc32.Crc32Calculator.EnsureCrc32TableInited` | webrtc/base/crc32.cc:25-39 | the table is complete afterwards, is filled exactly once, and a complete table is left alone |
| `Crc32.Crc32Calculator.FillTable` | webrtc/base/crc32.cc:28-38 | every entry becomes its index shifted eight times |
| `Crc32.Crc32Calculator.ComputeEntry` | webrtc/base/crc32.cc:28-38 | the inner loop computes eight shifts of the index |
| `Crc32.Crc32Calculator.UpdateByte` | webrtc/base/crc32.cc:46-48 | a table step equals dividing the eight bits of the byte |
| `Crc32.Crc32Calculator.UpdateCrc32` | webrtc/base/crc32.cc:41-50 | the table loop equals bit-at-a-time division for every start value and buffer |
| `BitBuffer.LowestBitsExact` | webrtc/base/bitbuffer.cc:20-24 | the mask (1 << n) - 1 keeps exactly the low bits |
| `BitBuffer.HighestBitsExact` | webrtc/base/bitbuffer.cc:26-33 | mask and shift give exactly the high bits |
| `BitBuffer.WritePartialByteExact` | webrtc/base/bitbuffer.cc:40-60 | exactly the addressed bits of the target are replaced if and only if every stray bit of the unmasked source lands on a bit that is set anyway |
| `BitBuffer.BitBufferWriter.constructor` | webrtc/base/bitbuffer.cc:76-80 | the cursor starts at bit 0 of the given bytes |
| `BitBuffer.BitBufferWriter.RemainingBitCount` | webrtc/base/bitbuffer.cc:82-84 | the bits between cursor and end |
| `BitBuffer.BitBufferWriter.PeekBits` | webrtc/base/bitbuffer.cc:110-138 | succeeds exactly when the bits are there, with their value, most significant first |
| `BitBuffer.BitBufferWriter.ConsumeBits` | webrtc/base/bitbuffer.cc:148-156 | moves the cursor by exactly the count, or refuses and stays |
| `BitBuffer.BitBufferWriter.ReadBits` | webrtc/base/bitbuffer.cc:140-142 | returns the value of the next bits and moves past them, or changes nothing |
| `BitBuffer.BitBufferWriter.Seek` | webrtc/base/bitbuffer.cc:211-219 | moves to exactly the given offset, or refuses and stays |
| `BitBuffer.BitBufferWriter.WriteBits` | webrtc/base/bitbuffer.cc:237-280 | replaces exactly the next bits, most significant first, leaves every other bit, and moves past them; or refuses and changes nothing |
| `ExpGolomb.DecodeCode` | webrtc/base/bitbuffer.cc:158-188 | decoding at a code gives its value and its end, wherever it stands |
| `ExpGolomb.CodeOfDecode` | webrtc/base/bitbuffer.cc:158-188 | whatever decodes is the code of its value: no second spelling |
| `ExpGolomb.CodeTable` | webrtc/base/bitbuffer.cc:282-294 | the first codes are 1, 010, 011 and 00100 |
| `ExpGolomb.SignedTable` | webrtc/base/bitbuffer.cc:190-201 | the unsigned values 0, 1, 2, 3, 4 and so on stand for 0, 1, -1, 2, -2 and so on |
| `ExpGolomb.SignedIsBijection` | webrtc/base/bitbuffer.cc:190-201 | the signed mapping is a bijection from 0..2^32-2 onto -(2^31-1)..2^31-1 |
| `BitBuffer.BitBufferWriter.ReadExponentialGolomb` | webrtc/base/bitbuffer.cc:158-188 | reads exactly what the code at the cursor means; a failed read restores the position |
| `BitBuffer.BitBufferWriter.ReadSignedExponentialGolomb` | webrtc/base/bitbuffer.cc:190-201 | half of the decoded value, rounded up and positive if it is odd, negative if it is even, within 31 bits and sign; a failed read restores the position |
| `BitBuffer.BitBufferWriter.CountBits` | webrtc/base/bitbuffer.cc:62-70 | the length of the binary representation |
| `BitBuffer.BitBufferWriter.WriteExponentialGolomb` | webrtc/base/bitbuffer.cc:282-294 | puts exactly the code of the value at the cursor, or refuses and changes nothing |
| `BitBuffer.BitBufferWriter.WriteAll` | webrtc/base/bitbuffer.cc:282-294 | writing a list of values puts their codes one after the other |
| `BitBuffer.BitBufferWriter.ReadAll` | webrtc/base/bitbuffer.cc:158-188 | reading where codes stand returns their values and ends behind them |
| `BitBuffer.BitBufferWriter.RoundTrip` | webrtc/base/bitbuffer.cc:158-294 | from any bit offset over any contents: write any values that fit, seek back, read: the same values and the same end position |
| `Base64.TablesInverse` | webrtc/base/base64.cc:27-76 | the two tables are inverse and agree with IsBase64Char |
| `Base64.StrictRoundTrip` | webrtc/base/base64.cc:98-136 | strict decoding of an encoding gives the data back and uses the whole string |
| `Base64.StrictDecodeIsEncode` | webrtc/base/base64.cc:205-258 | a string that decodes strictly is the encoding of what it decodes to |
| `Base64.StrictIsBijection` | webrtc/base/base64.cc:205-258 | strict decoding succeeds exactly on encodings, with the encoded bytes and the whole string used |
| `Base64.AnyDecodesAlphabet` | webrtc/base/base64.cc:138-190 | under DO_PARSE_ANY the bytes are those of the alphabet characters in sequence, whatever the other flags |
| `Base64.AnyIgnoresTheRest` | webrtc/base/base64.cc:138-190 | dropping everything outside the alphabet does not change the bytes decoded under DO_PARSE_ANY |
| `Base64.WhiteScanIsStrict` | webrtc/base/base64.cc:138-190 | skipping white space while scanning is scanning the string without it |
| `Base64.WhiteIsStrictWithoutSpaces` | webrtc/base/base64.cc:205-258 | under DO_PARSE_WHITE the bytes are those of strict parsing without the white space, with the same pad and term flags |
| `Base64.WhiteSuccess` | webrtc/base/base64.cc:223-258 | the success flags agree too, except exactly when padding is demanded and white space follows complete quanta |
| `Base64.SpaceAfterEncodingFails` | webrtc/base/base64.cc:223-250 | a space behind an unpadded encoding leaves the bytes alone and clears the flag when padding is demanded |
| `Base64.SpaceAfterQuantumFails` | webrtc/base/base64.cc:223-250 | a concrete string on which the flags differ |
| `Base64.EncodeQuantum` | webrtc/base/base64.cc:108-135 | masks and shifts give the four characters of the next quantum, padded at the end |
| `Base64.EncodeFromArray` | webrtc/base/base64.cc:98-136 | the result array is the encoding of the data |
| `Base64.ScanChar` | webrtc/base/base64.cc:143-176 | one character is taken, skipped or refused as the flags say |
| `Base64.ScanQuantum` | webrtc/base/base64.cc:142-176 | the loop stops with the quantum, pads, position and first pad of the scanning function |
| `Base64.GetNextQuantum` | webrtc/base/base64.cc:138-190 | the quantum in qbuf, its length, its padding, and the position after roll-back of bad padding |
| `Base64.QuantumParts` | webrtc/base/base64.cc:226-239 | shifts and masks give the bytes of the quantum and the left-over bits |
| `Base64.DecodeQuantum` | webrtc/base/base64.cc:223-250 | one round: the bytes of the quantum, and for a short one the verdict on padding and left-over bits |
| `Base64.DecodeFromArray` | webrtc/base/base64.cc:205-258 | bytes, success flag and data_used are those of the decoding function, for every mode |
| `Base64Shape.AlphabetInOrder` | webrtc/base/base64.cc:31-34 | the alphabet is the capitals, the small letters, the digits, plus and slash, in order |
| `Base64Shape.OtherCharacters` | webrtc/base/base64.cc:40-69 | which characters are the pad, which are white space, and that all others are illegal |
| `Base64Shape.QuantumIs24Bits` | webrtc/base/base64.cc:108-135 | three bytes and four sextets are the same 24 bits, the highest first |
| `Base64Shape.EveryString` | webrtc/base/base64.cc:143-176 | every string is letters and a tail that does not start with one |
| `Base64Shape.StrictShape` | webrtc/base/base64.cc:205-258 | strict decoding of any string under any padding and termination rule: the bytes of the leading letters; complete padding used and any other given back; success by the left-over bits, the padding and the rest |
| `Base64Shape.BadPaddingIsGivenBack` | webrtc/base/base64.cc:180-188 | one pad behind two letters is given back, so the buffer is not used up |
| `Base64Shape.WhiteRest` | webrtc/base/base64.cc:143-188 | skipping white space stops at the same non-space character as strict decoding without it |
| `Base64Shape.EveryStringAny` | webrtc/base/base64.cc:143-176 | every string is a part that ends in its last letter, and a part without letters |
| `Base64Shape.AnyShape` | webrtc/base/base64.cc:205-258 | decoding of any string under DO_PARSE_ANY and any rule: the bytes of all letters; pads count behind the last letter only, too few are given back from the first on, everything else is used; success by the left-over bits, those pads and the rest |
| `DiskCache.AfterCreate` | webrtc/base/diskcache.cc:299-314 | a new entry keeps accounting and locking consistent |
| `DiskCache.AfterRelock` | webrtc/base/diskcache.cc:99-154 | a lock change that does not turn open readers into writers keeps consistency |
| `DiskCache.AfterOpen` | webrtc/base/diskcache.cc:113-171 | an opened stream keeps both totals equal to the sums over the map |
| `DiskCache.AfterClose` | webrtc/base/diskcache.cc:316-345 | a closed stream, with the bytes it wrote, keeps both totals equal to the sums |
| `DiskCache.AfterErase` | webrtc/base/diskcache.cc:188-212 | erasing an entry without streams keeps both totals equal to the sums |
| `DiskCache.DiskCache.constructor` | webrtc/base/diskcache.cc:62-81 | an empty cache is consistent |
| `DiskCache.DiskCache.GetOrCreateEntry` | webrtc/base/diskcache.cc:299-314 | finds an entry, or creates a new one only if asked |
| `DiskCache.DiskCache.DeleteResource` | webrtc/base/diskcache.cc:188-212 | erases an entry only when it is unlocked and has no open stream |
| `DiskCache.DiskCache.FirstIdle` | webrtc/base/diskcache.cc:227-233 | finds the first entry that is neither locked nor open |
| `DiskCache.DiskCache.PickOldest` | webrtc/base/diskcache.cc:226-242 | the entry that is older than all others from the first idle one on, busy or not, ties going to the one looked at first, which starts behind the first idle one; past the end exactly when the first idle entry is the last entry |
| `DiskCache.PickIsOldestIdle` | webrtc/base/diskcache.cc:238-246 | what is picked is an oldest idle entry or a busy one, and a busy one if and only if some busy entry behind the first idle one is older than every idle one, or as old and looked at before it |
| `DiskCache.VictimIsUnique` | webrtc/base/diskcache.cc:226-242 | the first idle entry and the pick are unique |
| `DiskCache.BusyEntryPicked` | webrtc/base/diskcache.cc:238-246 | of an idle and a locked entry behind it, the locked one is picked if and only if it is not newer |
| `DiskCache.OneEntryPastEnd` | webrtc/base/diskcache.cc:234-239 | with a single idle entry the search starts past the end |
| `DiskCache.DiskCache.EvictOne` | webrtc/base/diskcache.cc:226-246 | one round erases at most one entry, an oldest idle one, and does so exactly when the search finds an idle entry; it goes on unless there was none or its files could not be deleted; undefined if and only if the last entry of the map is the only idle one |
| `DiskCache.DiskCache.CheckLimit` | webrtc/base/diskcache.cc:214-249 | never evicts a locked or open entry, changes no other entry, evicts only what is at least as old as every idle entry left, reports success only within the limit, and gives up only when the search finds no idle entry or files could not be deleted; undefined only over the limit with a single idle entry, and always if that is the only entry |
| `DiskCache.DiskCache.MakeRoom` | webrtc/base/diskcache.cc:105-108 | room is made or not, and the entry to be locked may itself be evicted |
| `DiskCache.DiskCache.LockFree` | webrtc/base/diskcache.cc:105-110 | an entry that is not refused is locked if there is room |
| `DiskCache.DiskCache.LockResource` | webrtc/base/diskcache.cc:99-111 | refused while locked or being read, granted otherwise within the limit; over it, refused only when nothing can be evicted or files could not be deleted; a lock or open stream is never lost; undefined only over the limit, when the entry itself was evicted or the search for room met a single idle entry |
| `DiskCache.DiskCache.WriteResource` | webrtc/base/diskcache.cc:113-139 | opens a writer exactly on a locked entry whose file opens, and discounts the size of the file it overwrites |
| `DiskCache.DiskCache.UnlockResource` | webrtc/base/diskcache.cc:141-154 | succeeds exactly on a locked entry; with open writers it only starts unlocking |
| `DiskCache.DiskCache.ReadResource` | webrtc/base/diskcache.cc:156-171 | opens a reader exactly on an unlocked entry that has the stream and whose file opens |
| `DiskCache.DiskCache.ReleaseResource` | webrtc/base/diskcache.cc:316-345 | the entry of an open stream is always there; a written file is added to its size; exactly the last writer of an unlocking entry unlocks it |
| `DiskCache.DiskCache.Purge` | webrtc/base/diskcache.cc:83-97 | refused with open streams; the accounting survives it if and only if the total size was zero |
| `DiskCache.DiskCache.NeverReadAndWritten` | webrtc/base/diskcache.cc:99-171 | streams open on one entry are all readers or all writers |
| `DiskCache.DiskCache.AnyRun` | webrtc/base/diskcache.cc:99-345 | over every run up to undefined behaviour: totals are sums over the map, no entry is read and written together, open entries exist, unlocking implies an open stream |
| `ByteOrder.BigEndianRoundTrip` | webrtc/base/byteorder.h:38-81 | big-endian bytes give the integer back modulo 256^k, for every width k |
| `ByteOrder.LittleEndianRoundTrip` | webrtc/base/byteorder.h:83-126 | little-endian bytes give the integer back modulo 256^k, for every width k |
| `ByteOrder.BigEndianByte` | webrtc/base/byteorder.h:38-59 | the byte at i of k is the digit of weight 256^(k-1-i) |
| `ByteOrder.LittleEndianByte` | webrtc/base/byteorder.h:83-104 | the byte at i is the digit of weight 256^i |
| `ByteOrder.BigEndianBytes` | webrtc/base/byteorder.h:38-81 | every byte string is the big-endian form of its value |
| `ByteOrder.LittleEndianBytes` | webrtc/base/byteorder.h:83-126 | every byte string is the little-endian form of its value |
| `ByteBuffer.ByteBuffer.constructor` | webrtc/base/bytebuffer.cc:49-63 | the buffer starts with the given contents |
| `ByteBuffer.ByteBuffer.Empty` | webrtc/base/bytebuffer.cc:25-31 | the buffer starts empty with 4096 bytes of room, in the chosen byte order |
| `ByteBuffer.ByteBuffer.Resize` | webrtc/base/bytebuffer.cc:195-211 | growth or compaction keeps the first size bytes of the contents, so all of them whenever they fit, always takes a new version, and grows to the larger of the size asked for and half as much again |
| `ByteBuffer.ByteBuffer.ReserveWriteBuffer` | webrtc/base/bytebuffer.cc:186-193 | makes room behind the contents without changing them |
| `ByteBuffer.ByteBuffer.WriteBytes` | webrtc/base/bytebuffer.cc:182-184 | appends |
| `ByteBuffer.ByteBuffer.ReadBytes` | webrtc/base/bytebuffer.cc:140-148 | removes a prefix, or refuses and changes nothing |
| `ByteBuffer.ByteBuffer.Consume` | webrtc/base/bytebuffer.cc:213-218 | drops a prefix, or refuses and changes nothing |
| `ByteBuffer.ByteBuffer.Clear` | webrtc/base/bytebuffer.cc:232-236 | empties the buffer and takes a new version |
| `ByteBuffer.ByteBuffer.GetReadPosition` | webrtc/base/bytebuffer.cc:220-222 | a position names where reading stands and the version |
| `ByteBuffer.ByteBuffer.SetReadPosition` | webrtc/base/bytebuffer.cc:224-230 | restores the contents at save time plus everything appended since, exactly when nothing moved; otherwise refuses and changes nothing |
| `ByteBuffer.ByteBuffer.WriteUInt` | webrtc/base/bytebuffer.cc:150-176 | appends the low bytes of the integer in the chosen byte order; larger values are cut off |
| `ByteBuffer.ByteBuffer.ReadUInt` | webrtc/base/bytebuffer.cc:69-126 | reads an integer in the chosen byte order, or changes nothing |
| `ByteBuffer.ByteBuffer.IntegerRoundTrip` | webrtc/base/bytebuffer.cc:69-176 | an integer written behind any contents is read back modulo 256^k once those are consumed |
| `ByteBuffer.ByteBuffer.AnyRun` | webrtc/base/bytebuffer.cc:140-236 | a position saved before any run of operations is restored, giving the old contents followed by everything written since, exactly when the version is the same |
| `LowPassFilter.ResponseIsBalanced` | main.cpp:60-74 | the eleven shifts together round by less than six units either way |
| `LowPassFilter.TwoStepsContract` | main.cpp:60-74 | two consecutive equations bound the next output by the earlier ones |
| `LowPassFilter.OutputBounded` | main.cpp:52-87 | for every sequence of 16-bit samples of any length, every output stays within 191000 |
| `LowPassFilter.OutputExtends` | main.cpp:60-61 | the newest sample and cell 0 give the next value of the difference equation |
| `LowPassFilter.CellUpdates` | main.cpp:62-74 | each cell becomes its newest contribution plus what the next cell held |
| `LowPassFilter.CellFromBounded` | main.cpp:62-74 | every history cell stays within 150000 per remaining contribution |
| `LowPassFilter.LowPass.constructor` | main.cpp:106-118 | the cells start at zero, which is the state of silence |
| `LowPassFilter.Clamp` | main.cpp:77-85 | a value in 16 bits is kept, one beyond becomes the limit on its side |
| `LowPassFilter.ClampIsNearest` | main.cpp:77-85 | the stored sample is the 16-bit value nearest to the output |
| `LowPassFilter.LowPass.UpdateHistory` | main.cpp:62-74 | the five cells are updated in place, each from the old value of the next, without 32-bit overflow |
| `LowPassFilter.LowPass.Output` | main.cpp:59-61 | the output is the next value of the difference equation, bounded, without overflow |
| `LowPassFilter.LowPass.Step` | main.cpp:59-74 | one sample: the transposed form computes the difference equation, and no 32-bit operation overflows |
| `LowPassFilter.LowPass.Pass` | main.cpp:58-86 | one pass replaces every sample by the clamped output for it |
| `LowPassFilter.PassedOn` | main.cpp:56-86 | one more pass over the samples the last one left |
| `LowPassFilter.LowPass.PlayProcess` | main.cpp:52-88 | every channel runs the filter over the same samples: the first pass filters the input, each later one the clamped outputs of the one before, and the samples end as the clamped outputs of the last |

## Left out

Assumptions about the outside world:

- Sockets, real files, threads, signals, logging and clocks are not modelled; each is replaced by arbitrary choices or by a log of what happened. File-system calls of the rotating stream succeed, except that a write may be partial.
- A successful stream read or document write moves at least one byte (reads of the receive loop may also deliver none).
- The host is little-endian, where `ByteBuffer` uses host order.

HTTP:

- Formatting of one header line, formatLeader, parseLeader, sscanf of Content-Length and strtoul on lines that are not all hexadecimal digits are arbitrary functions of what they are given; chunk sizes on hexadecimal digits are exact. Hex sizes beyond 64 bits saturate, as strtoul does.
- HttpSend.HttpSender.constructor: requires a leader shorter than the buffer, which is what formatLeader can put there.
- HttpSend.HttpSender.FlushData: follows a bounded number of the rounds in which the source's loop, without a document, finds the network blocked and repeats; the loop itself has no bound.
- HttpReceive.HttpParser.ProcessData: the document stream's end of stream is one of its failures.
- The source's DocumentStream, which drives the same receive loop from the document's side, and connection management are not part of this model.

TCP:

- TcpFraming.AsyncTcpSocket.Send: stops where the assertion on the buffer fails; a build without assertions goes on and sends the cut-off length, whose effect is what FrameIsReadBack says for 65536 bytes and a write past the buffer beyond.
- Listening sockets and SendRaw are not part of this model.

Rotating files:

- GetSize, Flush, buffering and deletion of files left by an earlier process are not modelled; writing starts from an empty disk. Reading and writing go through one object at a time, as in the source.

Bits and words:

- Words of the CRC and of the bit buffer are lists of bits, so that shifts and masks are what they are bit by bit. In Base64 the | of bits that do not overlap is addition.
- BitBuffer.BitBufferWriter.WriteBits: requires a count between 1 and 64, since a zero-width write shifts by 64, which the language leaves undefined (webrtc/base/bitbuffer.cc:244).
- BitBuffer.BitBufferWriter.PeekBits: requires that a zero-width peek is not at the end, where the source reads a byte that is not there (webrtc/base/bitbuffer.cc:116).
- BitBuffer.BitBufferWriter.ReadBits: requires the same as PeekBits.
- ReadUInt8 to ReadUInt32 and their writers are PeekBits and WriteBits with a fixed count.

Disk cache:

- DiskCache.DiskCache.LockResource: what happens after undefined behaviour (a search that dereferences past the end, or an entry evicted while it is being locked) is not modelled; the operation ends there and says so.
- DiskCache.DiskCache.CheckLimit: modification times are any function of the entries, not tied to the times of earlier operations.
- Write, Read and Unlock require that the id exists, since the source dereferences the entry unchecked. File names are left out.

ByteBuffer:

- ByteBuffer.ByteBuffer.Resize: the version counter does not wrap around. Strings are byte writes and reads.

Other code:

- The high-pass branch of the audio driver, WaveIO, HttpClient, HttpRequest, proxies, BandwidthSmoother, FlagList, BufferQueue, Url and the remaining utilities of webrtc/base would add easy members or depend on code outside these files.
