# Verified models of the component libraries

The firmware carries several small libraries whose correctness is a matter of bytes and states: a compressor, an HTTP
and websocket client, a flash file system, an entropy coder, a JSON library, checksums and a ring buffer. This project
models the parts of them that are hard to get right and proves what they are for. Algorithms that work in place on
buffers are methods over arrays and objects; each is tied by its postcondition to a function over sequences, and the
laws of the library are proved about those functions. Read in this order:

- **LZO1X-1** (`LzoFormat`, `LzoAnswers`, `LzoCompress`, `LzoDecompress`): decompressing the compressor's output gives
  back the input, for every input and every outcome of the hash dictionary, in at most `n + n/16 + 4` bytes; the safe
  decoder is total and in bounds on every byte string, and each of its answers is given exactly when it should be, so
  that a stream that was cut is never taken for a whole one. `Adler32` is the library's checksum, on sums that are
  checked not to leave 32 bits.
- **The mango client** (`HexText`, `Chunked`, `ChunkedClient`, `WebSocket`, `WebSocketSend`, `HttpResponse`,
  `MachineModel`, `StateMachine`): what the chunk sender is given arrives whole however the socket cuts it, and that is
  the whole body exactly when no send is longer than 65535 bytes and none but the last ones are empty; websocket
  messages arrive in order under any fragmentation; outgoing frames are read back by a server; and over every sequence
  of calls the state machine does what a function of the answers of socket, headers and processors says, no internal
  check of it fails, what a call returns follows from those answers, and the returned code says whether the connection
  is lost, with one exception stated exactly.
- **SPIFFS** (`SpiffsLayout`, `SpiffsCache`, `SpiffsRun`, `SpiffsFile`, `SpiffsGc`, `SpiffsGcClean`, `SpiffsCandidates`):
  the page cache is transparent over whole runs; a descriptor with its write-back page is a plain byte file; cleaning a
  block loses no data page, and every object index still leads to its data exactly under a stated condition; the block
  chosen for cleaning is a best one.
- **The JPEG encoder** (`BitStrings`, `JpegHuffman`, `JpegScan`, `JpegEncoder`, `JpegSymbols`, `JpegStandard`,
  `JpegDct`, `JpegCosine`, `JpegQuantizer`): canonical tables are prefix-free, and decoding the file gives back every
  coefficient of every block that the tables have codes for; the encoder's own tables have them for every block of
  eight-bit samples at every quality; and the fixed-point transform overflows nowhere, comes within five eighths of its
  exact value, and is the double sum over cosines of the standard.
- **cJSON** (`JsonStrings`, `JsonText`, `JsonParser`, `JsonPrinter`, `JsonMinify`): parsing printed text gives back the
  tree, escapes are read as the code points they stand for, parsing stays in the text and in the memory of its strings
  exactly under a stated condition, and minifying the formatted text in place gives the unformatted one.
- **CRC** (`Crc`): the table-driven, the bit-serial and the polynomial definition agree, and with reflection the register
  that shifts the other way.
- **The camera's ring buffer** (`RingBuffer`): a first-in first-out queue across its temporary stretching.

`Bytes`, `Arith` and `Wrappers` hold sequence facts, arithmetic facts and the option type. `KnownAnswers` has examples
from the standards, as bytes.

Where code and documentation disagree, the code is modelled and a lemma says exactly how far the documentation holds:

- `mango.h` promises an error code when a websocket frame could not be sent (lines 149-156) or the connection could not
  be closed (lines 158-166). The state machine aborts the connection in both cases and returns `MANGO_OK`
  (`mangoSM.c:963-965`, `1002-1004`). `StateMachine.LossReported` shows that these are the only calls that lose the
  connection without a failure code. The frame itself is reported as sent, with nothing sent, when there is no memory for
  it (`mangoWS.c:93-96`), and otherwise exactly when all of it was (`WebSocketSend.FrameSend`).
- `mango_httpDataSend` and `mango_wsFrameSend` take lengths of 32 bits (`mango.h:137`, `156`) and hand on 16 of them
  (`mango.c:382-395`, `414-430`, `mangoTypes.h:179-188`), and an empty send ends the body wherever it stands
  (`mangoDP.c:318-337`). `ChunkedClient.GivenWhole` says for exactly which sends all of the data, and all of the calls,
  are taken; `ChunkedClient.ShortBodies` has the inputs; `WebSocketSend.WsFrameSend` says that a frame reported as sent
  is whole if and only if it has at most 65535 bytes.
- `spiffs_gc_clean` takes the object index entry of a data page out again when a page later in the block carries the same
  object and span and is deleted in its header only (`spiffs_gc.c:445-460`). `SpiffsGc.CleanedConsistent` gives the exact
  condition. `SpiffsGc.CleanUnlinks` gives an image damaged in that way, which `spiffs_page_delete` alone does not produce
  (it clears the lookup entry first, `spiffs_nucleus.c:659-685`), and what becomes of it.
- `SPIFFS_lseek` accepts targets below zero: any target that is not past the end is accepted if and only if the object
  index has the page that the target, as an unsigned word, belongs to (`spiffs_hydrogen.c:471-489`), and in a file never
  written to the end is -1, so that zero is past it. `SpiffsFile.File.Lseek` states the outcome of every call,
  `SpiffsFile.EndReached` when the exact end of a file is refused, and `SpiffsFile.NegativeTargets` a target that every file
  accepts.
- A read from a file never written to answers that its index refers to a free page, not that the file has ended
  (`spiffs_nucleus.c:4-9`, `1616-1692`); `SpiffsFile.File.Read` says so.
- The ring buffer accepts writes that break it. `RingBuffer.WriteExact` says that an accepted write behaves as one to a
  queue if and only if it ends in front of the data or of the end, and inside the normal size while the ring is stretched
  and its data goes round; `RingBuffer.SpaceExact` says when the contiguous space reported is there.
- `mangoHelper_dec2hexstr` scans past its digits for zero and for no other number (`HexText.Dec2HexStr`), and
  `cJSON_Minify` reads past a text exactly when it ends inside a comment or a string (`JsonMinify.Minify`).
- `parse_string` measures a string by stepping over the byte behind every backslash, but decodes `\u` by stepping over
  four bytes without looking at them (`cJSON.c:394-397`, `433-455`), so a quote, a backslash or the end of the text
  among them sets the two passes apart. `JsonStrings.InBounds` is the condition under which both stay in the text and in
  the memory asked for; `JsonStrings.SafeWhateverFollows` says for which strings it holds whatever follows,
  `JsonStrings.QuoteInDigits` and `BackslashAtEnd` give inputs without it, and `JsonText.ParsedInside` a condition on a
  document under which every string has it.

## Model

| member | source | states |
|---|---|---|
| LzoFormat.LenInverse | components/minilzo/minilzo.c:5866-5876 | The decoder's extended length, read from the zero-byte form the compressor writes for any count, is that count plus its base, and the bytes behind it are untouched |
| LzoFormat.RunInverse | components/minilzo/minilzo.c:4891-4914 | A literal run of four bytes or more, in its short and its long form, decodes to exactly those literals and leaves the decoder expecting a match |
| LzoFormat.MatchInverse | components/minilzo/minilzo.c:5019-5069 | A match token of any class (M2, M3, M4, short or long) decodes to the same offset and length, is never taken for a literal run or the end marker, and hands over the literal count in its low bits |
| LzoFormat.SegmentInverse | components/minilzo/minilzo.c:5944-6201 | One match with the literals behind it, folded into the match's last bytes or as a run of their own, decodes to the copy followed by the literals |
| LzoFormat.SegmentsInverse | components/minilzo/minilzo.c:5860-6208 | The decoder undoes the writer for every sequence of matches and literals whose offsets reach only back into the text, ending with success at the end marker |
| LzoFormat.StreamInverse | components/minilzo/minilzo.c:5831-6208 | The same from the first byte, for every way a stream may start: empty, a counted start of up to 238 literals, or a run |
| LzoAnswers.MoreInput | components/minilzo/minilzo.c:5860-6227 | What more input behind a stream changes, for every stream: success becomes input not consumed with the same output, a lack of input keeps the output so far, and every other answer stays |
| LzoAnswers.TruncationNoticed | components/minilzo/minilzo.c:5862-5877 | A stream that decodes with success, cut anywhere, is answered with input overrun and a part of the output |
| LzoAnswers.SuccessExact | components/minilzo/minilzo.c:6056-6208 | A step answers success if and only if it reads the end token, an M4 marker with the distance zero, and nothing is behind it |
| LzoAnswers.SuccessEnds | components/minilzo/minilzo.c:6205-6208 | Every stream that is decoded with success ends with that token |
| LzoAnswers.MoreRoom | components/minilzo/minilzo.c:5849-5880 | More room changes an outcome only if it was an output overrun, and then what was written stays |
| LzoAnswers.StepBehind | components/minilzo/minilzo.c:5944-6223 | A step answers lookbehind overrun if and only if more output before it would let it pass, and otherwise does behind any output what it does without |
| LzoAnswers.NearInverse | components/minilzo/minilzo.c:6105-6133 | The two-byte match behind one to three literals, for every offset of its range |
| LzoAnswers.FarInverse | components/minilzo/minilzo.c:5927-5954 | The three-byte match behind a literal run, for every offset of its range |
| LzoAnswers.M2Tokens | components/minilzo/minilzo.c:5958-6010 | M2 tokens at both ends of their range of lengths and offsets |
| LzoAnswers.M3Tokens | components/minilzo/minilzo.c:6011-6055 | The same for M3 tokens, short and long |
| LzoAnswers.M4Tokens | components/minilzo/minilzo.c:6056-6104 | The same for M4 tokens, short and long |
| LzoAnswers.LiteralTokens | components/minilzo/minilzo.c:5849-5880 | Literal runs at the ends of the short and the long form, and the longest counted start |
| LzoAnswers.CopyBackAt | components/minilzo/minilzo.c:6136-6180 | A copied byte is the one an offset before it, also where that has just been copied |
| LzoCompress.AddMatchCode | components/minilzo/minilzo.c:5016-5069 | Appending a match token to the code of a parse gives the code of the longer parse, and its text is the overlapping back copy of the text so far |
| LzoCompress.AddLitsCode | components/minilzo/minilzo.c:4866-4917 | Writing literals behind a match, for 1 to 3 of them by changing the byte two before the end, gives the code of the longer parse; that byte exists and is the match's own |
| LzoCompress.CopyBackText | components/minilzo/minilzo.c:4918-5015 | When the bytes at the cursor equal those one offset back, the decoder's byte-by-byte copy reproduces the input, also when source and target overlap |
| LzoCompress.LitsSize | components/minilzo/minilzo.c:4866-4917 | A literal header costs at most one byte and a sixteenth of the literals it covers |
| LzoCompress.MatchSize | components/minilzo/minilzo.c:5016-5069 | A match token is at least one byte shorter than the four or more bytes it covers |
| LzoCompress.SegmentFits | components/minilzo/minilzo.c:4866-5069 | Charged that way, the output after any literals and match stays within the bound for the input consumed, so the writer never leaves its buffer |
| LzoCompress.SegmentWritten | components/minilzo/minilzo.c:4866-5069 | Appending the code of literals and a found match keeps the whole invariant of the compressor: output is the code of a parse whose text is the input so far, within the size bound |
| LzoCompress.PutRunHeader | components/minilzo/minilzo.c:4891-4903 | The header loop appends exactly the run header of the format and nothing else changes before it |
| LzoCompress.PutLits | components/minilzo/minilzo.c:4866-4917 | The three ways of emitting literals produce the format's literal bytes, with the folded count written into the earlier byte |
| LzoCompress.PutMatch | components/minilzo/minilzo.c:5016-5069 | The branch over offset and length appends the token of the right class |
| LzoCompress.MatchLength | components/minilzo/minilzo.c:4918-5015 | The found length is at least four, ends before the input does, and covers equal bytes |
| LzoCompress.CompressCore | components/minilzo/minilzo.c:4790-5075 | One block: whatever the dictionary holds, the output remains the code of a parse of the input up to the literals handed on, within the size bound |
| LzoCompress.CompressBlocks | components/minilzo/minilzo.c:5087-5105 | All blocks of 49152 bytes, the dictionary cleared before each and left-over literals carried across |
| LzoCompress.FinishWritten | components/minilzo/minilzo.c:5105-5133 | The left-over literals, as a counted start, folded or as a run, complete the parse of the whole input |
| LzoCompress.Compress | components/minilzo/minilzo.c:5077-5141 | For every input: at most n + n/16 + 4 bytes, and decompressing them into any buffer that holds the input succeeds with exactly the input |
| LzoDecompress.CopyBackBlock | components/minilzo/minilzo.c:6136-6176 | Copying a piece no longer than the offset at once is the same as copying its bytes one by one |
| LzoDecompress.CopyMatchBytes | components/minilzo/minilzo.c:6177-6180 | The byte loop is the overlapping back copy, and bytes beyond it keep their values |
| LzoDecompress.CopyMatchWide | components/minilzo/minilzo.c:6137-6155 | The loop over 8, 4 and 1 bytes, taken for offsets of at least 8, is the same overlapping back copy |
| LzoDecompress.DoTop | components/minilzo/minilzo.c:5860-5942 | A run or short token at the top: the decoder's step, with input and output overruns reported before anything is read or written out of bounds |
| LzoDecompress.DoMatch | components/minilzo/minilzo.c:5956-6176 | A match of any class or the end marker: the decoder's step, with a copy from before the output refused |
| LzoDecompress.DoNext | components/minilzo/minilzo.c:6186-6201 | The 1 to 3 literals behind a match: the decoder's step |
| LzoDecompress.DecompressSafe | components/minilzo/minilzo.c:5800-6227 | On every byte string and buffer: it ends, status and output are those of the format's decoder, and the buffer behind the output keeps its bytes |
| Adler32.AdlerSplit | components/minilzo/minilzo.c:4144-4174 | The checksum of a concatenation continues from the checksum of its first part |
| Adler32.DeferredModulus | components/minilzo/minilzo.c:4153-4172 | Reducing plain sums once at the end equals reducing at every byte |
| Adler32.BoundFits | components/minilzo/minilzo.c:4136-4137 | From halves of 65535, twice the largest second sum after a stretch of at most 5552 bytes is below twice 2^32, so no stretch overflows |
| Adler32.LzoAdler32 | components/minilzo/minilzo.c:4144-4174 | From any starting value, reduced or not, no 32-bit addition overflows and the result is the per-byte checksum of RFC 1950, section 8.2 |
| HexText.Dec2HexStr | components/mango/mangoHelper.c:187-215 | A 32-bit number other than zero is written as its shortest hexadecimal digits, NUL-terminated, in at most eight; for zero, and only for zero, the scan for the first digit finds none |
| HexText.HexStr2Dec | components/mango/mangoHelper.c:243-286 | The digit loop accepts, refuses and wraps as the reading function says, for every text |
| HexText.ScanEnds | components/mango/mangoHelper.c:209 | The scan for the first digit ends inside the eight nibbles if and only if the number is not zero |
| HexText.HexInverse | components/mango/mangoHelper.c:187-286 | Reading the written digits, followed by anything that is neither a digit nor a hexadecimal prefix, gives back the number |
| Chunked.IdpDelivers | components/mango/mangoDP.c:113-254 | From any reachable parser state and any buffer and rest of a chunked stream, the parser takes the next body bytes, keeps an exact account of what remains, and neither fails nor completes early |
| Chunked.ProcessGood | components/mango/mangoSM.c:643-698 | One processing event and the shrink behind it keep that account, and leave room for the next read |
| Chunked.ReceiveGood | components/mango/mangoSM.c:616-698 | Any sequence of reads keeps it, and enough of them complete the body |
| Chunked.FragmentationIndependence | components/mango/mangoSM.c:593-711 | For every list of chunks, every part already in the buffer and every sequence of read sizes: only body bytes are delivered, in order, and the response is complete exactly when the stream is used up, with the whole body |
| ChunkedClient.PiecesWhole | components/mango/mangoDP.c:339-385 | A send is cut into nonempty chunks whose concatenation is the data |
| ChunkedClient.TransmissionIsWire | components/mango/mangoDP.c:305-386 | What any sequence of sends and an empty one behind them put on the wire is the chunked encoding of what the sender was given, up to the first send that gives nothing |
| ChunkedClient.GivenWhole | components/mango/mango.c:382-395 | All of the data is given if and only if the sends have 1 to 65535 bytes each, with at most empty ones behind them; all calls are taken as well if and only if there are no such empty ones |
| ChunkedClient.ShortBodies | components/mango/mangoDP.c:318-337 | An empty send, or one of 65536 bytes, puts the last chunk on the wire and nothing else, whatever calls follow; of one of 65537 bytes the first byte is given |
| ChunkedClient.SendReceive | components/mango/mangoDP.c:113-386 | Through any fragmentation, what was given of the sends is received, and the response is complete at its last byte; the body received is the body of the sends if and only if they are as in GivenWhole |
| ChunkedClient.Client.Shrink | components/mango/mangoSM.c:1029-1054 | The copy loop moves the unread bytes to the front and loses none |
| ChunkedClient.Client.UserFunc | components/mango/mangoDP.c:165-181 | The byte behind the data is overwritten by a terminator for the callback and put back; the application gets exactly the data |
| ChunkedClient.Client.SizeLineRound | components/mango/mangoDP.c:134-156 | A size line, whole, cut short or malformed, as in the parser function |
| ChunkedClient.Client.DataRound | components/mango/mangoDP.c:157-193 | As much of a chunk as is there goes to the application, and the rest is awaited |
| ChunkedClient.Client.CrlfRound | components/mango/mangoDP.c:194-206 | The line end behind a chunk |
| ChunkedClient.Client.EndRound | components/mango/mangoDP.c:207-243 | The line end behind the last chunk completes the body |
| ChunkedClient.Client.IdpChunked | components/mango/mangoDP.c:113-254 | Over the working buffer itself: result code, consumed count, completion, new parser state and delivered bytes are those of the parser function, and the buffer is unchanged |
| ChunkedClient.Client.SendChunk | components/mango/mangoDP.c:349-381 | Size line, data and line end leave as one write of the chunk's encoding; on failure the wire holds a prefix of it |
| ChunkedClient.Client.SendLast | components/mango/mangoDP.c:318-337 | The same for the last chunk |
| ChunkedClient.Client.OdpChunked | components/mango/mangoDP.c:305-386 | With a length of 16 bits, a send succeeds with the encoding of all its pieces on the wire, fails for a small buffer exactly when no byte of data would fit and then sends nothing, or fails half-way with a prefix sent |
| ChunkedClient.Client.HttpDataSend | components/mango/mango.c:382-395 | One call of any length: what 16 bits of it give goes out as the processor sends it, the sending goes on exactly after a success that gave something, and a call outside of it is refused and sends nothing |
| ChunkedClient.Client.SendCalls | components/mango/mangoSM.c:714-790 | Any sequence of calls: unless the socket fails, the wire has exactly their transmission, the calls up to the one that ends the body succeed and all behind it are refused |
| WebSocket.HeadInverse | components/mango/mangoDP.c:437-487 | A header in any of the three length forms is recognised exactly when it is wholly in the buffer, with the payload length it announces |
| WebSocket.IdpDelivers | components/mango/mangoDP.c:414-594 | From any reachable parser state, buffer and rest of a stream of unmasked data and ping frames, the parser hands on the next payload bytes with the message number each belongs to, and never fails |
| WebSocket.IdpWebsocket | components/mango/mangoDP.c:414-594 | The loop over the buffer returns what the parser function says, for every input, errors included |
| WebSocket.ProcessGood | components/mango/mangoSM.c:850-913 | One processing event and the shrink behind it keep the account of what remains, and leave room to read |
| WebSocket.PollGood | components/mango/mangoSM.c:834-943 | Any sequence of reads and further polls keeps it |
| WebSocket.FragmentationIndependence | components/mango/mangoSM.c:834-943 | For every list of frames, any length form and any size against the buffer, and every sequence of reads and polls: the application gets payload bytes in order, each under the number of its message, which advances modulo 256 after a final frame |
| WebSocketSend.MaskTwice | components/mango/mangoWS.c:152-171 | Masking twice with the same key restores the data |
| WebSocketSend.FrameInverse | components/mango/mangoWS.c:34-205 | A server that reads a sent frame by RFC 6455, sections 5.2 and 5.3, finds its type, its unmasked payload and whatever follows it |
| WebSocketSend.PutHeader | components/mango/mangoWS.c:100-150 | The header in one of three length forms, with the mask bit and the key, and the length of the whole frame |
| WebSocketSend.MaskPayload | components/mango/mangoWS.c:152-171 | The loop unrolled by eight and its tail mask every byte with the key byte of its position |
| WebSocketSend.ComposeFrame | components/mango/mangoWS.c:88-171 | The composed frame is the specified one, in eight bytes for control frames, and a server reads the data back from it |
| WebSocketSend.FrameSend | components/mango/mangoWS.c:34-205 | For whatever the allocator and the socket answer: success if and only if the whole frame went out or there was no memory for it; what went out is a prefix of the frame, and nothing without memory; a frame reported as sent from memory is read back by a server |
| WebSocketSend.WsFrameSend | components/mango/mango.c:414-430 | A call of any length frames the bytes that 16 bits of it count, and a server reads all of the data from a frame reported as sent if and only if there are at most 65535 bytes |
| StateMachine.Machine.Dispatch | components/mango/mangoSM.c:143-1023 | Every handler does with the answers it gets what the model's function of its state says, no internal check fails, and the state asked for can be entered: its processor is attached and dataProcessorArgs is that processor's |
| StateMachine.Machine.OnSendingHeaders | components/mango/mangoSM.c:232-377 | What the model says of the request being sent and of its headers; an unknown method cannot occur |
| StateMachine.Machine.AttachOutput | components/mango/mangoSM.c:287-361 | The lookups in the request headers lead where the model says, with a sender and its own arguments, or to an abort |
| StateMachine.Machine.OnRecvingHeaders | components/mango/mangoSM.c:381-589 | What the model says of the response being read, checked and acted on, always under a timeout |
| StateMachine.Machine.AttachInput | components/mango/mangoSM.c:443-515 | The lookups in the response headers lead where the model says, with a receiver and its own arguments |
| StateMachine.Machine.AttachSpecial | components/mango/mangoSM.c:523-576 | Responses without a length: stream, websocket, go-ahead for a PUT or POST, or no body |
| StateMachine.Machine.OnRecvingData | components/mango/mangoSM.c:593-711 | What the model says of the receiver's answer: done, failed, more needed with or without room for it, or some taken |
| StateMachine.Machine.OnSendingData | components/mango/mangoSM.c:714-741 | Waits for data of the application; any other call is refused |
| StateMachine.Machine.OnSendingPacket | components/mango/mangoSM.c:744-790 | What the model says of the sender's answer: the response is awaited when it is done, more data when it is not, and the connection aborted when it has failed |
| StateMachine.Machine.OnWsConnected | components/mango/mangoSM.c:793-831 | The three websocket calls are taken, a new request is refused |
| StateMachine.Machine.OnWsPolling | components/mango/mangoSM.c:834-943 | What the model says of a poll: processing in its entry, and back to rest by its timeout |
| StateMachine.Machine.OnWsSending | components/mango/mangoSM.c:945-1023 | A frame or close that could not be sent aborts the connection and leaves the exit code as it was |
| StateMachine.Machine.Throw | components/mango/mangoSM.c:122-131 | The chain of entries ends, in a state that keeps the invariant, reached by a listed move and recorded as the steps of a run of the model |
| StateMachine.Machine.ProcessCall | components/mango/mangoSM.c:46-100 | A call returns only at rest, with a code that fits the state it came from, the call, and the state it ends in, and behind it is a run of the model that ends in this configuration; a data call rests in the state it came from with success if and only if the sender reported success without completion |
| StateMachine.Machine.RequestNew | components/mango/mango.c:142-200 | The request line of a supported method is put in the buffer, byte for byte, if and only if it fits; otherwise the buffer is empty |
| HttpResponse.Verify | components/mango/mangoHelper.c:37-101 | For every text: zero if and only if the end of the head is missing; a status if and only if the head has three digits and a space behind its first spaces, between 100 and 599; and the body begins inside the text, right behind the first end of head |
| StateMachine.Machine.VerifyResponse | components/mango/mangoSM.c:397-436 | Any response text leads to reading on, to processing with a status of 100 to 599 and the buffer cut at the end of the head, or to an abort, as the model says |
| StateMachine.Machine.Run | components/mango/mangoSM.c:46-1023 | Any sequence of calls keeps the invariant, and leaves a history in which every call reports as above and starts where the one before it ended |
| StateMachine.CallContinues | components/mango/mangoSM.c:66-97 | Every event of a call in progress, from any state it can be in, keeps the promise about its final code |
| StateMachine.LossReported | components/mango/mango.h:107-166 | The documented meaning of the codes: a failure code is returned if and only if the connection was lost, except by the two websocket calls that send a frame themselves, which always return success; a status code means a usable connection |
| StateMachine.LostForGood | components/mango/mangoSM.c:143-191 | In every history, once the connection is aborted or disconnected it stays so and every later call fails |
| StateMachine.HandleMoves | components/mango/mangoSM.c:143-1023 | Whatever is answered, the model makes one of the listed moves of its state, with the exit code that belongs to it |
| MachineModel.DataCallExact | components/mango/mangoSM.c:714-790 | A data call returns success, with more data expected, if and only if the sender has taken its data without ending the body; the response is awaited if and only if it has ended it; and otherwise the connection is aborted with the sender's code |
| MachineModel.RequestSentWhole | components/mango/mangoSM.c:251-275 | While the socket takes the request, however it is cut, the headers are acted on when all of it has been taken, and not before |
| MachineModel.RequestDecides | components/mango/mangoSM.c:287-361 | The headers of a PUT or POST ask for the body if it is framed in exactly one way and nothing is to be waited for, await a response if there is no body or a go-ahead is expected, and otherwise abort; the sender is that of the framing |
| MachineModel.PlainRequestDecides | components/mango/mangoSM.c:278-284 | Every other request is followed by its response |
| MachineModel.ResponseDecides | components/mango/mangoSM.c:443-576 | The headers of a response decide the receiver and the next state: a length before a coding, both before the status, no body for HEAD, and lookups that did not fit are reported |
| MachineModel.SocketCauses | components/mango/mangoSM.c:256-262 | In the middle of a call, the code for a lost connection is set if and only if the socket failed, and that for a timeout if and only if a response was late |
| MachineModel.FormatCauses | components/mango/mangoSM.c:404-423 | The same for requests that are not framed and for responses that are malformed |
| MachineModel.StatusIsRead | components/mango/mangoSM.c:425-433 | A status that a request or data call returns is that of the response read during the call, or 100 when none was read |
| MachineModel.FrameCallExact | components/mango/mangoSM.c:945-1023 | After sending a frame or closing, the connection is aborted if and only if the frame could not be sent |
| BitStrings.OrDisjoint | components/jpge/jpge.c:219-222 | Or-ing a value below a power of two into a multiple of it is addition, so new bits never touch the pending ones |
| JpegHuffman.Aligned | components/jpge/jpge.c:148-156 | Each code, left-aligned in 16 bits, is the code space used by all codes before it |
| JpegHuffman.CodeFits | components/jpge/jpge.c:148-156 | Under the Kraft bound every code fits its length |
| JpegHuffman.PrefixFree | components/jpge/jpge.c:132-165 | No two codes of a canonical table are prefixes of the same bits |
| JpegHuffman.SymInverse | components/jpge/jpge.c:132-165 | Decoding a symbol's code by the same table gives the symbol and the rest |
| JpegHuffman.FillSizes | components/jpge/jpge.c:138-146 | The counts per length expand to the list of code lengths, with its zero at the end |
| JpegHuffman.FillCodes | components/jpge/jpge.c:148-156 | The loop assigns every position its canonical code, 32-bit shifts included |
| JpegHuffman.ComputeHuffmanTable | components/jpge/jpge.c:132-165 | Both tables hold, for every symbol, its code and length, and zero for symbols without one |
| JpegSymbols.ListingExact | components/jpge/jpge.c:32-53 | The AC symbols listed are all different, and are all runs of up to fifteen with sizes of one to ten, the end of block and the sixteen zeros |
| JpegStandard.StandardValid | components/jpge/jpge.c:29-53 | The four standard tables are canonical tables under the Kraft bound, and have codes for exactly these symbols and the twelve DC sizes |
| JpegStandard.AcExact | components/jpge/jpge.c:470-496 | By such a table the AC coefficients can be coded if and only if each is below 1024 in magnitude |
| JpegStandard.BlockExact | components/jpge/jpge.c:434-496 | A block can be coded by the standard tables if and only if its AC coefficients are and its DC difference is below 2048 |
| JpegStandard.ScanStandard | components/jpge/jpge.c:434-503 | Every sequence of blocks with a first coefficient of eleven bits and the others below 1024 in magnitude can be coded by them |
| JpegStandard.EncodeStandard | components/jpge/jpge.c:597-710 | With the tables built by the encoder itself: if all writes succeed, decoding what lies behind the header gives back every coefficient of every block in these ranges |
| JpegDct.Dct1D | components/jpge/jpge.c:96-113 | The butterflies compute the eight rows of a fixed-point cosine matrix, and for values within the bounds of either pass no cast to 16 bits and no 32-bit sum or product loses anything |
| JpegDct.Dct2D | components/jpge/jpge.c:115-129 | In place, rows and then columns: of samples of eight bits, exactly the rounded matrix products, with no overflow on the way |
| JpegDct.DctBound | components/jpge/jpge.c:115-129 | Of samples from -128 to 127 the first coefficient is from -1024 to 1016 and any other at most 1020 in magnitude |
| JpegDct.DctNear | components/jpge/jpge.c:115-129 | Both roundings together put every coefficient within five eighths of the matrix product computed exactly |
| JpegDct.FlatBlock | components/jpge/jpge.c:115-129 | A block of one value has eight times the value as its first coefficient and no other |
| JpegCosine.CosineTurns | components/jpge/jpge.c:96-113 | The table is even and changes its sign after half a turn |
| JpegCosine.CosineFalls | components/jpge/jpge.c:96-113 | It falls strictly through half a turn |
| JpegCosine.CosineProduct | components/jpge/jpge.c:96-113 | It has the product law of the cosine for all angles, to the rounding of its entries |
| JpegCosine.EntryIsCosine | components/jpge/jpge.c:99-113 | Row k of the matrix that the butterflies compute is the cosine of frequency k at the eight places, to one unit |
| JpegCosine.FormIsSum | components/jpge/jpge.c:99-113 | Every output of the butterflies is the sum of the inputs weighted with the entries of its row |
| JpegCosine.DctIsDoubleSum | components/jpge/jpge.c:115-129 | Coefficient 8v + u is the double sum of section A.3.3 of ITU-T T.81, horizontal frequency u and vertical frequency v, to five eighths of one |
| JpegQuantizer.QuantNear | components/jpge/jpge.c:408-432 | The quantizer's two branches give the nearest multiple of the step |
| JpegQuantizer.ZigzagOrder | components/jpge/jpge.c:26 | The table is the walk along the diagonals of the block, up and down in turn |
| JpegQuantizer.PlaceInside | components/jpge/jpge.c:26 | Every coefficient of the block has one place in it |
| JpegQuantizer.CoefficientBound | components/jpge/jpge.c:408-432 | Of samples of eight bits, with steps from 1 to 255, the coefficients stay in the ranges of the transform |
| JpegQuantizer.CoefficientNear | components/jpge/jpge.c:408-432 | A decoder that multiplies by the steps has every coefficient of the transform to half a step |
| JpegQuantizer.LoadQuantized | components/jpge/jpge.c:408-432 | The loop leaves the quantized coefficients in zigzag order, and 16 bits hold them |
| JpegQuantizer.ComputeQuantTable | components/jpge/jpge.c:581-594 | At every quality from 1 to 100 the scaled table, with all its steps from 1 to 255 |
| JpegStandard.Transform | components/jpge/jpge.c:498-503 | A block of samples becomes its quantized coefficients in the ranges that the standard tables can code |
| JpegStandard.EncodeSamples | components/jpge/jpge.c:498-710 | From any blocks of eight-bit samples, at any quality: if all writes succeed, decoding what lies behind the header gives back the quantized coefficients of every block |
| JpegScan.AmpInverse | components/jpge/jpge.c:451-493 | The amplitude bits of any value, negative ones in one's complement, decode to the value |
| JpegScan.DcInverse | components/jpge/jpge.c:446-468 | A coded difference decodes to the difference |
| JpegScan.CoeffInverse | components/jpge/jpge.c:470-493 | A run of zeros and a coefficient, with as many sixteen-zero codes as needed, decode to those zeros and the coefficient |
| JpegScan.AcInverse | components/jpge/jpge.c:470-496 | The 63 coefficients from any position decode to themselves, the end-of-block code included |
| JpegScan.BlockInverse | components/jpge/jpge.c:434-496 | A block of 64 coefficients decodes to itself, given the last DC value of its component |
| JpegScan.ScanInverse | components/jpge/jpge.c:434-503 | Any sequence of blocks of up to three components decodes to itself, each component with its own prediction |
| JpegScan.UnstuffPrefix | components/jpge/jpge.c:225-228 | Taking out the zero after every 0xFF restores the bytes, up to the next marker |
| JpegScan.EntropyInverse | components/jpge/jpge.c:434-503 | The stuffed bytes of a scan, padded with any bits and ended by the end marker, decode to all its blocks |
| JpegEncoder.WindowAdd | components/jpge/jpge.c:219-223 | Or-ing a code into the 24-bit window appends its bits to the pending ones and leaves the unused low bits zero |
| JpegEncoder.WindowTake | components/jpge/jpge.c:224-231 | The byte taken from the window is its first eight bits, and shifting leaves the rest |
| JpegEncoder.Encoder.FlushOutputBuffer | components/jpge/jpge.c:202-209 | The buffered bytes reach the stream once and in order unless a write failed, and the buffer is empty |
| JpegEncoder.Encoder.EmitByte | components/jpge/jpge.c:211-217 | One byte more has been emitted, across a full buffer as well |
| JpegEncoder.Encoder.PutBits | components/jpge/jpge.c:219-232 | The coded bits grow by exactly the given ones, stuffing follows every 0xFF, and at most seven bits stay pending |
| JpegEncoder.Encoder.PutDc | components/jpge/jpge.c:446-468 | A DC difference of any size the tables hold is coded as specified |
| JpegEncoder.Encoder.PutCoeff | components/jpge/jpge.c:470-493 | Zero run and coefficient are coded as specified |
| JpegEncoder.Encoder.CodeCoefficients | components/jpge/jpge.c:434-496 | A whole block of 16-bit values is coded as specified, by the tables and the prediction of its component, which becomes its DC value |
| JpegEncoder.Encoder.FinishScan | components/jpge/jpge.c:699-701 | The last bits are padded with ones to a whole byte and the end marker follows |
| JpegEncoder.Encoder.EncodeImage | components/jpge/jpge.c:597-710 | If all writes succeeded, decoding what lies behind the header in the stream gives back every coefficient of every block |
| SpiffsCache.WriteCoherence | components/spiffs/spiffs_cache.c:169-208 | A cached copy still equals its flash page after a write if and only if it is dropped, or every written byte can be stored by clearing bits alone; a write-through that leaves the copy alone needs a write that changes nothing |
| SpiffsCache.Cache.PageGet | components/spiffs/spiffs_cache.c:14-30 | Finds the one copy of a page if there is one, and touches only its access stamp |
| SpiffsCache.Cache.PageFree | components/spiffs/spiffs_cache.c:33-56 | Frees a slot, writing a dirty flash page back when asked |
| SpiffsCache.Cache.RemoveOldest | components/spiffs/spiffs_cache.c:59-86 | Only a full cache loses a page, and then a flash page none is older than, never a write page; a slot is free afterwards exactly when one could be had |
| SpiffsCache.Cache.Allocate | components/spiffs/spiffs_cache.c:89-107 | Takes a free slot, or none when all are in use |
| SpiffsCache.Cache.DropPage | components/spiffs/spiffs_cache.c:110-115 | The page is no longer cached, everything else is |
| SpiffsCache.Cache.PhysRd | components/spiffs/spiffs_cache.c:120-166 | Returns the cached bytes if there are any and the flash bytes otherwise; every copy that is new equals its page |
| SpiffsCache.Cache.PhysWr | components/spiffs/spiffs_cache.c:169-208 | Flash is programmed once, by clearing bits, and the copy of the page is overwritten, dropped or left as the operation says |
| SpiffsCache.Cache.PageGetByFd | components/spiffs/spiffs_cache.c:212-231 | Finds a descriptor's write page, or there is none |
| SpiffsCache.Cache.AllocateByFd | components/spiffs/spiffs_cache.c:235-249 | An empty write page for a descriptor if and only if a slot can be had; no other write page is touched |
| SpiffsCache.Cache.Release | components/spiffs/spiffs_cache.c:252-265 | A write page is given up, all others stay |
| SpiffsCache.Cache.GcEraseBlock | components/spiffs/spiffs_gc.c:7-25 | After an erase, with its writes around the cache, the drop loop makes every copy equal its flash page again |
| SpiffsCache.ErasePagesAll | components/spiffs/spiffs_gc.c:7-25 | All pages of an erased block are blank |
| SpiffsRun.RoomEvictable | components/spiffs/spiffs_cache.c:59-86 | While a slot is not a write page and the counter has not wrapped, the next operation can have a slot |
| SpiffsRun.CoherentAfterWrite | components/spiffs/spiffs_cache.c:169-208 | A legal write keeps every copy equal to its page |
| SpiffsRun.Step | components/spiffs/spiffs_cache.c:110-208 | One read, write, drop or erase through the cache has the outcome and the flash it has without a cache, and keeps write pages |
| SpiffsRun.Run | components/spiffs/spiffs_cache.c:14-208 | So has any sequence of them |
| SpiffsLayout.IxSpanMonotone | components/spiffs/spiffs_nucleus.h:221-222 | Later data pages are in the same or a later page of the object index |
| SpiffsLayout.IxPlaceUnique | components/spiffs/spiffs_nucleus.h:211-222 | Index page and entry together determine the data page |
| SpiffsFile.PutPut | components/spiffs/spiffs_hydrogen.c:403-414 | Writing into the pending bytes and then writing those to the file is the same as writing to the file with the pending bytes already in it |
| SpiffsFile.PutTwice | components/spiffs/spiffs_hydrogen.c:389-421 | Writing the same bytes to the same place twice is writing them once |
| SpiffsFile.InsideReached | components/spiffs/spiffs_hydrogen.c:475-489 | Every position inside a file has its index page, so a seek there is accepted |
| SpiffsFile.EndReached | components/spiffs/spiffs_hydrogen.c:475-489 | The exact end of a file is refused if and only if the file fills the last page of its object index |
| SpiffsFile.NegativeTargets | components/spiffs/spiffs_hydrogen.c:471-489 | With the page size of the flash driver, one target far below zero is accepted in every file and -1 is not found in a small one |
| SpiffsFile.File.HydroWrite | components/spiffs/spiffs_hydrogen.c:308-328 | Modify and append together overwrite and extend the file by exactly the buffer |
| SpiffsFile.File.StoreOverlay | components/spiffs/spiffs_hydrogen.c:403-414 | A write into or right behind the pending bytes of the write page changes the visible file as a direct write would |
| SpiffsFile.File.WriteSmall | components/spiffs/spiffs_hydrogen.c:370-421 | A small write, whether it starts a page, extends it, forces it out first, or finds no page, has that effect |
| SpiffsFile.File.Write | components/spiffs/spiffs_hydrogen.c:330-447 | The visible file becomes the old one overwritten at the position or, in append mode, at its end; the position advances; a read-only descriptor changes nothing |
| SpiffsFile.File.Read | components/spiffs/spiffs_hydrogen.c:261-306 | Returns the visible bytes at the position, pending ones included, and refuses as a plain file does; in a file never written to, any byte is refused as a free index reference |
| SpiffsFile.File.Lseek | components/spiffs/spiffs_hydrogen.c:449-492 | For every target: past the end it is refused as such; otherwise it is accepted if and only if the object index has its page, below zero as well, and not found if not; the file is unchanged and flushed |
| SpiffsFile.File.FlushCache | components/spiffs/spiffs_hydrogen.c:619-647 | Afterwards the stored bytes are the visible ones and the write page is free |
| SpiffsFile.File.Fflush | components/spiffs/spiffs_hydrogen.c:649-661 | The same, with the visible file unchanged |
| SpiffsFile.WriteReadBack | components/spiffs/spiffs_hydrogen.c:261-492 | What was written is read back from where it was written, by seeking back and reading |
| SpiffsFile.AppendReadBack | components/spiffs/spiffs_hydrogen.c:261-492 | With the append flag it is found at the end, behind all that was there |
| SpiffsFile.ReadSplit | components/spiffs/spiffs_hydrogen.c:261-306 | Two reads in a row are one of the sum of their lengths |
| SpiffsFile.RunCalls | components/spiffs/spiffs_hydrogen.c:261-661 | Any sequence of writes, seeks, reads and flushes gets the replies of a plain byte file with these rules for reads and seeks, and leaves its contents and position, with arbitrary other traffic through the cache |
| SpiffsGc.RunMove | components/spiffs/spiffs_gc.c:424-460 | Moving a live data page and noting it in the loaded index keeps the account of the run |
| SpiffsGc.RunWipe | components/spiffs/spiffs_gc.c:445-460 | Deleting a dead page and taking its entry out of the loaded index keeps it too |
| SpiffsGc.RunStore | components/spiffs/spiffs_gc.c:536-553 | Storing the loaded index finishes the run: the pages of its object index page are out of the block, and their entries resolve exactly when the last of the block's pages for them was not a dead one |
| SpiffsGc.EmptyMove | components/spiffs/spiffs_gc.c:465-496 | Moving an index page leaves every resolution as it was |
| SpiffsGc.CleaningEnds | components/spiffs/spiffs_gc.c:372-567 | When the last step ends, no data or index page is left in the block and every data page of the file system has its contents |
| SpiffsGc.CleanedConsistent | components/spiffs/spiffs_gc.c:372-567 | Every object index still leads to all its data if and only if, for no data page, the last page of the block with its object and span was dead |
| SpiffsGc.CleanUnlinks | components/spiffs/spiffs_gc.c:445-460 | An image with a page deleted in its header only, in order before: it can be cleaned as promised, a free page being there, and however it is, its object index no longer leads to the live page |
| SpiffsGcClean.Gc.ScanForData | components/spiffs/spiffs_gc.c:414-423 | The scan over lookup pages stops at the first data page from its start or at the end of the block |
| SpiffsGcClean.Gc.DataEntry | components/spiffs/spiffs_gc.c:424-463 | One entry of a run: moved, wiped or passed over, or no free page |
| SpiffsGcClean.Gc.MoveData | components/spiffs/spiffs_gc.c:424-463 | The whole block for one index page |
| SpiffsGcClean.Gc.MoveIxs | components/spiffs/spiffs_gc.c:465-496 | All index pages of the block |
| SpiffsGcClean.Gc.BeginRun | components/spiffs/spiffs_gc.c:510-530 | Loads the index page of the data page found, which no earlier run has handled; it is missing only for a dead page without one |
| SpiffsGcClean.Gc.RunOnce | components/spiffs/spiffs_gc.c:424-553 | One run finishes its index page and the scan position moves past the page that started it |
| SpiffsGcClean.Gc.Clean | components/spiffs/spiffs_gc.c:372-567 | Cleaning ends; on success the block is cleaned as above, and it fails only when no page is free outside the block or a dead data page there has no index page |
| SpiffsCandidates.InsertBest | components/spiffs/spiffs_gc.c:312-331 | Inserting a block keeps the table sorted and holding the best of all blocks so far, ties in block order |
| SpiffsCandidates.TableBest | components/spiffs/spiffs_gc.c:234-341 | The table of any list of candidates is its best part |
| SpiffsCandidates.FoundBest | components/spiffs/spiffs_gc.c:234-341 | The first entry has the highest score of all blocks with a deleted page |
| SpiffsCandidates.DeletionRaises | components/spiffs/spiffs_config.h:100-107 | A page that is deleted instead of used makes a block better by 6 |
| SpiffsCandidates.MorePages | components/spiffs/spiffs_config.h:100-107 | A deleted page more makes it better by 5, a used one worse by 1 |
| SpiffsCandidates.WearLevels | components/spiffs/spiffs_config.h:108-112 | Every erasure behind the most erased block makes it better by 50, unless the flash is crammed |
| SpiffsCandidates.InsertCand | components/spiffs/spiffs_gc.c:312-331 | The in-place shift over both halves of the work area inserts the block at its place and drops what no longer fits |
| SpiffsCandidates.FindCandidate | components/spiffs/spiffs_gc.c:234-341 | The work area holds that table, and the count is that of all blocks with a deleted page |
| JsonStrings.QuoteInverse | components/cJSON/cJSON.c:381-629 | Reading a printed string gives back its bytes and stops behind the closing quote, for all bytes 1 to 255 |
| JsonStrings.EscapeClean | components/cJSON/cJSON.c:506-629 | No control character is written as itself |
| JsonStrings.LetterEscapes | components/cJSON/cJSON.c:415-432 | The eight escapes of two characters are read as RFC 8259, section 7, says |
| JsonStrings.Utf8Inverse | components/cJSON/cJSON.c:457-485 | What is stored for a code point is its UTF-8 form, by a decoder after RFC 3629 |
| JsonStrings.ShortEscape | components/cJSON/cJSON.c:433-485 | An escape with four digits, in either case of letters, is read as its code point, except zero, which is dropped |
| JsonStrings.PairEscape | components/cJSON/cJSON.c:443-485 | A surrogate pair is read as the one code point it stands for |
| JsonStrings.StopsFit | components/cJSON/cJSON.c:394-499 | A decoding pass that does not go behind the stop of the measuring one fits into the memory measured, also where the two are out of step |
| JsonStrings.OpenBounds | components/cJSON/cJSON.c:394-499 | A string without an end is decoded in bounds if and only if the end of the text cuts no escape sequence off |
| JsonStrings.HexInBounds | components/cJSON/cJSON.c:394-499 | A string with a byte behind every backslash and four digits behind every backslash with u is decoded in bounds |
| JsonStrings.SafeWhateverFollows | components/cJSON/cJSON.c:394-499 | A string, to its closing quote as measured, is decoded in bounds for every text behind it if and only if the decoding pass stops inside it |
| JsonStrings.QuoteInDigits | components/cJSON/cJSON.c:394-440 | A quote among the four bytes behind u: one byte is measured and three are decoded |
| JsonStrings.BackslashAtEnd | components/cJSON/cJSON.c:394-397 | A backslash as the fourth of them and the last byte of the text: the measuring pass steps over the end, the decoding pass does not |
| JsonStrings.QuoteInBounds | components/cJSON/cJSON.c:381-629 | A printed string is decoded in bounds, whatever follows it |
| JsonStrings.MeasureString | components/cJSON/cJSON.c:394-397 | The first pass counts what the measuring function says, and steps over the end of the text exactly where it says |
| JsonStrings.ParseString | components/cJSON/cJSON.c:381-503 | Both passes and the memory between them: the string goes into memory of the measured size and a NUL, as the reading function says, and they stay in bounds if and only if InBounds holds |
| JsonStrings.PrintString | components/cJSON/cJSON.c:506-629 | Both passes and the shortcut for plain strings give the quoted, escaped text in memory of exactly its size |
| JsonText.NumberInverse | components/cJSON/cJSON.c:126-176 | A printed 32-bit integer, followed by no further part of a number, parses to itself |
| JsonText.FractionInverse | components/cJSON/cJSON.c:126-176 | The digits of a fraction continue the number, each for a tenth |
| JsonText.ExponentInverse | components/cJSON/cJSON.c:126-176 | An exponent with either letter and any sign is read with that sign |
| JsonText.DecimalInverse | components/cJSON/cJSON.c:126-176 | A number in all its parts is its digits and the power of ten of the exponent less the places of the fraction |
| JsonParser.ParseNumberAt | components/cJSON/cJSON.c:126-176 | Every text that begins like a number is one: its digits, with fraction and exponent, as an exact decimal, and where it ends |
| JsonText.ValueInverse | components/cJSON/cJSON.c:717-1357 | The printed text of any tree, at any depth, formatted or not, followed by any delimiter, parses to the tree and leaves the rest |
| JsonText.ElemsInverse | components/cJSON/cJSON.c:844-1040 | The same for the elements of an array up to its bracket |
| JsonText.MembersInverse | components/cJSON/cJSON.c:1043-1357 | The same for the members of an object up to its brace, names in order and repeated ones kept |
| JsonText.PrintParse | components/cJSON/cJSON.c:655-705 | Parsing a printed document gives back the tree and ends at the end of the text |
| JsonText.ParsedInside | components/cJSON/cJSON.c:717-1117 | A document with a byte behind every backslash and four digits behind every backslash with u is accepted or refused with every string in bounds |
| JsonParser.ParseAt | components/cJSON/cJSON.c:717-758 | The cursor parser accepts, refuses or goes out of bounds, builds and stops as the parsing function says, on every text |
| JsonParser.ParseArrayAt | components/cJSON/cJSON.c:844-894 | The same for arrays |
| JsonParser.ParseObjectAt | components/cJSON/cJSON.c:1043-1117 | The same for objects |
| JsonParser.ParseText | components/cJSON/cJSON.c:655-693 | The same for documents; on printed text it succeeds with the tree and uses the text up, and on a text as in ParsedInside it stays in bounds |
| JsonPrinter.PrintNumber | components/cJSON/cJSON.c:240-301 | A 32-bit integer is printed in decimal within the 21 bytes set aside |
| JsonPrinter.ComposeArray | components/cJSON/cJSON.c:985-1035 | The precomputed length is enough, and the composed text is that of the array |
| JsonPrinter.ComposeObject | components/cJSON/cJSON.c:1275-1350 | The same for objects, with tabs and line ends |
| JsonPrinter.PrintArray | components/cJSON/cJSON.c:897-1040 | The text of the elements printed one by one is the text of the array |
| JsonPrinter.PrintObject | components/cJSON/cJSON.c:1120-1357 | The same for objects |
| JsonPrinter.PrintValue | components/cJSON/cJSON.c:761-841 | The text of any printable tree, which the parser inverts |
| JsonMinify.ValueMinified | components/cJSON/cJSON.c:1804-1854 | Minifying the formatted text of a tree before any rest gives its unformatted text before the minified rest |
| JsonMinify.PrintMinify | components/cJSON/cJSON.c:1804-1854 | Minifying a formatted document gives the unformatted one, whatever its strings contain |
| JsonMinify.Minify | components/cJSON/cJSON.c:1804-1854 | In place, for every text: it runs over the end if and only if the text ends inside a comment or a string; otherwise the write position never passes the read position and the buffer ends up with the minified text and its NUL |
| JsonMinify.WhiteSpace | components/cJSON/cJSON.c:1804-1854 | Each of the four white space characters goes |
| JsonMinify.LineComment | components/cJSON/cJSON.c:1804-1854 | A comment to the end of its line goes |
| JsonMinify.BlockComment | components/cJSON/cJSON.c:1804-1854 | A comment in stars goes, unless it begins with a slash, which closes it |
| Crc.StepsLinear | components/crc/crc.c:115-128 | Shifting and dividing any number of bits is linear over exclusive or |
| Crc.TopByteSteps | components/crc/crc.c:222-226 | Eight steps on a word are the eight steps on its top byte, combined with the rest shifted |
| Crc.SerialIsMod | components/crc/crc.c:94-136 | Dividing bit by bit is the remainder of the polynomial division of the message over GF(2) |
| Crc.RemainderIsMod | components/crc/crc.c:94-136 | So is the byte-wise loop, for every width of at least eight, polynomial, initial value and reflection |
| Crc.MessageBit | components/crc/crc.c:27-33 | Which bit of which byte comes when, with and without reflection |
| Crc.ReversedStep | components/crc/crc.c:115-128 | A step of the register, seen from the other end, is one of a register that shifts to the right |
| Crc.ReversedRemainder | components/crc/crc.c:94-136 | So is the whole remainder, with every byte as it is |
| Crc.ResultIs | components/crc/crc.c:131-134 | What is returned is the CRC as defined, for all four combinations of the reflections |
| Crc.OneLeavesPolynomial | components/crc/crc.c:115-128 | The lowest bit of a message leaves the polynomial |
| Crc.Reflect | components/crc/crc.c:56-80 | The loop reverses the bits |
| Crc.Divide | components/crc/crc.c:115-128 | The inner loop makes eight steps |
| Crc.CrcSlow | components/crc/crc.c:94-136 | The result is the CRC as defined: of the right-shifting register when the data is reflected, of the polynomial remainder when it is not, turned round when only one of the two is reflected, exclusive-or the final value |
| Crc.CrcInit | components/crc/crc.c:155-197 | Every entry of the table is eight steps on its index |
| Crc.CrcFast | components/crc/crc.c:211-233 | With that table, the same CRC as defined, for every message |
| RingBuffer.Written | components/jpge/fb_io.h:96-109 | Bytes placed at the head and counted in join the queue at its end |
| RingBuffer.Taken | components/jpge/fb_io.h:79-94 | The bytes at the tail are the front of the queue and leave it; the normal size returns when the reader comes round |
| RingBuffer.Stretched | components/jpge/fb_io.h:111-118 | Stretching an unwrapped ring keeps the queue and makes room for the transfer in one piece |
| RingBuffer.ValidDelivers | components/jpge/fb_io.h:62-94 | A reader of a ring in order gets exactly what it holds and leaves it empty with head and tail together |
| RingBuffer.WriteExact | components/jpge/fb_io.h:96-109 | For every ring in order and every accepted write: whatever the bytes are, a reader gets what was held and then the transfer, and leaves an empty ring, if and only if the write fits |
| RingBuffer.WrappedOverrun | components/jpge/fb_io.h:79-118 | An accepted write that does not fit where the data goes round: the ring is stretched, the size is restored below the head, and the emptied ring has head and tail apart |
| RingBuffer.EndOverrun | components/jpge/fb_io.h:96-109 | An accepted write that does not fit otherwise: it goes past the end, the head is set to the start, and the queue is broken |
| RingBuffer.ReadExact | components/jpge/fb_io.h:79-94 | An accepted read leaves the ring in order if and only if it is contiguous |
| RingBuffer.ResizeExact | components/jpge/fb_io.h:111-118 | A stretch keeps the ring in order if and only if its data does not go round or nothing changes |
| RingBuffer.StretchedOverrun | components/jpge/fb_io.h:96-118 | A ring of four bytes on which such a write is accepted |
| RingBuffer.SpaceExact | components/jpge/fb_io.h:49-59 | The reported contiguous space is the room there is, except in an empty ring away from its start, where it is more; writing all of it keeps the queue under one further condition, and not otherwise |
| RingBuffer.FbIo.IncTail | components/jpge/fb_io.h:79-94 | On every ring the counters move as specified and more than is there is refused; a ring in order stays so if and only if the read is contiguous, and has then lost its front |
| RingBuffer.FbIo.IncHead | components/jpge/fb_io.h:96-109 | On every ring the counters move as specified and more than fits is refused; a ring in order stays so if and only if the accepted write fits, and has then grown by it |
| RingBuffer.FbIo.Resize | components/jpge/fb_io.h:111-118 | On every ring the size changes as specified; a ring in order stays so if and only if its data does not go round or nothing changes, with the same queue |
| RingBuffer.FbIo.Clear | components/jpge/fb_io.h:28-32 | The queue is empty and the size normal |
| RingBuffer.FbIo.Transfer | components/jpge/fb_io.h:96-109 | A transfer of bytes that fit appends them to the queue |
| RingBuffer.FbIo.Read | components/jpge/fb_io.h:62-94 | A contiguous read takes the front of the queue |
| KnownAnswers.SizeLines | components/mango/mangoHelper.c:187-215 | Numbers in hexadecimal, in capital letters |
| KnownAnswers.ChunkText | components/mango/mangoDP.c:318-381 | A chunk and the end of a body, as text |
| KnownAnswers.RequestLines | components/mango/mango.c:142-200 | The request lines of the four methods, as text |
| KnownAnswers.StatusLine | components/mango/mangoHelper.c:37-101 | A status line and the end of a head, as text |
| KnownAnswers.MessageNumbers | components/mango/mangoDP.c:417-560 | When the number of a message advances, and that a ping has none |
| KnownAnswers.FrameLengths | components/mango/mangoDP.c:440-500 | A length in each of the three forms |
| KnownAnswers.FrameTypes | components/mango/mangoWS.c:59-85 | The codes of the frame types, and the status of a close frame |
| KnownAnswers.MaskedAt | components/mango/mangoWS.c:152-171 | Masking is exclusive or, bit by bit, with the byte of the key whose turn it is |
| KnownAnswers.Checksums | components/minilzo/minilzo.c:4136-4174 | The checksum of a short text, and the modulus |
| KnownAnswers.CodeWords | components/jpge/jpge.c:132-180 | The first words of Table K.3 of ITU-T T.81 |
| KnownAnswers.Amplitudes | components/jpge/jpge.c:446-493 | Size categories and additional bits of positive and negative values |
| KnownAnswers.BitOrder | components/jpge/jpge.c:219-232 | Bits go into bytes from the highest down |
| KnownAnswers.Markers | components/jpge/jpge.c:219-245 | The end of an image, and a stuffed byte |
| KnownAnswers.FlashBits | components/spiffs/spiffs_cache.c:169-208 | A write to flash clears the bits that are clear in it and no other, and an erasure sets them all |
| KnownAnswers.Texts | components/cJSON/cJSON.c:894-1357 | An array and an object, as text |

## Left out

Weaker than the code or narrower than its whole range:

- StateMachine.Machine.ProcessCall: covers up to `rounds` rounds of the loop for any `rounds`, because the loop of the code need not end (a socket that keeps accepting no bytes keeps it going).
- MachineModel.DataCallExact: what the sender answers is any answer here; ChunkedClient.Client.HttpDataSend says what it is for the chunked one.
- StateMachine.Machine.RequestNew: the headers added behind the request line are only a longer request.
- Chunked.FragmentationIndependence: asks for a working buffer of at least ten bytes; the application's callback always accepts; trailing headers behind the last chunk are not sent by any sender and are not in the stream.
- WebSocket.FragmentationIndependence: asks for a working buffer of at least ten bytes; streams hold unmasked data frames and pings; the buffer is a sequence, so the moving of bytes in place is shown for the chunked receiver only.
- WebSocketSend.FrameSend: the length of the data with the largest header fits 32 bits; beyond that the code allocates too little. The calls of the application never come near it (WsFrameSend).
- ChunkedClient.Client.HttpDataSend: the working buffer has room for a byte of data; for a smaller one see OdpChunked. What a refused call returns depends on the state that StateMachine models.
- ChunkedClient.Client.SendChunk: one write per chunk as in the code; a short write counts as failure.
- Adler32.LzoAdler32: the buffer is present; a null buffer returns 1 in the code.
- LzoCompress.Compress: input and output do not overlap; copies are byte by byte, so bytes that the wide copies of the code write beyond the end and overwrite later are not seen; the input is shorter than half the address space, so the address check at minilzo.c:5095-5096 never fires.
- LzoAnswers.SuccessExact: the input is shorter than 2^55 bytes, so that a length cannot be too long for a 64-bit word; the laws of more input, more room and truncation have no such bound.
- LzoDecompress.DecompressSafe: input and output do not overlap; sizes are 64 bits wide.
- JpegEncoder.Encoder.CodeCoefficients: leaves out -32768 behind a run of fifteen, whose symbol is no index of the table; the coefficients are passed as a sequence and the tables are held by value.
- JpegEncoder.Encoder.EncodeImage: the header is any bytes. That the tables have codes for the blocks is asked here and proved for the standard tables in JpegStandard.
- JpegStandard.EncodeSamples: the samples are any of eight bits, less 128; colour conversion, subsampling and the order of blocks within an MCU are left out, and the blocks are all transformed before the first is coded, which shares no state with it.
- JpegCosine.EntryIsCosine: the cosines are a table of integers on the scale of the code, known by their laws; real numbers are not used.
- SpiffsCache.Cache.PhysWr: flash operations succeed and stay within one page; the use map is one flag per page; the fields a read page and a write page share in a union are kept apart.
- SpiffsRun.Run: the 32-bit access counter does not wrap within the run, and one slot is not a write page; without either the cache may be unable to give up a page.
- SpiffsCache.Cache.GcEraseBlock: what the erase writes around the cache is any sequence of writes into the block, which covers the erase count and the magic of spiffs_erase_block.
- SpiffsFile.File.HydroWrite: spiffs_object_modify and spiffs_object_append are byte-array operations with arbitrary cache traffic of their own, spiffs_object_read returns the bytes of the array, and none of them fails for lack of space or a damaged index.
- SpiffsFile.RunCalls: leaves out what follows an accepted seek below zero, which leaves a position outside of any file; file sizes stay below 2^31 and one descriptor is open.
- SpiffsFile.File.Lseek: the division by the data page size is one of 32-bit words, as on the target; its divisor contains a sizeof, so a host with 64-bit sizes would extend a negative target to 64 bits first.
- SpiffsGcClean.Gc.Clean: page move, page delete and index lookup are contracts, not the code of spiffs_nucleus.c; other descriptors' cursors and the callbacks to them are left out.
- SpiffsCandidates.FindCandidate: a block's lookup entries are one sequence, not read page by page.
- JsonText.PrintParse: numbers are 32-bit integers; the parser keeps any other number as an exact decimal, before the rounding to a double, and what the printer makes of one is left out.
- JsonParser.ParseText: the tree is a datatype, not linked nodes; what lies behind a read or write out of bounds is not modelled; allocation does not fail; the error position is not modelled.
- JsonPrinter.PrintValue: the printer that allocates each part; the variant with one growing buffer is left out.
- JsonMinify.Minify: a text that ends inside a comment or a string is followed to its end only; what the code does behind it is not modelled.
- Crc.CrcSlow: a word is the string of its bits, for any width of at least eight rather than for 16 and 32 only.
- RingBuffer.FbIo.Transfer: asks for a transfer that fits; WriteExact says that no other is one to a queue.

Not modelled at all:

- `mangoIDP_raw`, `mangoODP_raw` and the decimal helpers: counting against Content-Length, easy beside the chunked coding.
- `lzo1x_decompress` without checks: the safe decoder covers it.
- Sockets, TLS, DNS, timers and memory allocation: their results are arbitrary values where they matter.
- `spiffs_gc_quick`, `spiffs_gc_check` and the statistics: bookkeeping around what is modelled.
- Mounting, formatting, listing and `spiffs_check.c`: recovery from damaged images, mostly in files that are not part of this model.
- Floating-point numbers in cJSON: rounding is their point.
- `my_cache.c`: a thin buffer wrapper.
