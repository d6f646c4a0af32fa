# Verified model of the grpcgi bridge

grpcgi carries HTTP and WebSocket traffic over gRPC. This project models its two incremental
WebSocket deframers (the WASM network filter and the native Envoy filter), the hand-written
protobuf codecs of both WASM crates, the three-task bridges of the Python server, the callback
life cycles of the filters, and the generator of the frozen header table, and proves properties of
whole runs of them. `dafny verify dfyconfig.toml` checks everything.

## How it is built

| files | content |
|---|---|
| `Arithmetic`, `Bits`, `Bytes`, `Search` | words, bit operations, big-endian numbers, first-occurrence search |
| `WsFrame`, `FrameStream` | the frame grammar of section 5.2 of RFC 6455, both parsers and encoders, the message list of a byte stream |
| `Varint`, `ProtoRecords`, `FrameProto`, `HttpProto` | varints with 64-bit shifts, the record grammar, the three hand-written messages |
| `WasmFilter`, `WasmRuns`, `WasmConnection`, `UpgradeCapture` | the WASM network filter as an object, its runs while active, and whole connections |
| `NativeFilter`, `NativeRuns`, `FilterAgreement` | the native filter as an object, its runs, and the two filters against each other |
| `HttpFilter` | the HTTP filter object and its runs |
| `HttpBridge`, `HttpLiveness`, `WsBridge` | the asyncio servicers as steps of pump, application and consumer |
| `EchoSystem` | a client's bytes through the filter to the echo servicer and back |
| `HeaderTable`, `HeaderText`, `Splicing`, `Generator` | layout and rendering, what the rendered block says, splicing of marked regions, `write` and `check` |

Objects whose callbacks change fields are classes. Each method's contract gives the whole new state
as a function of the old one, and the results about runs are lemmas on those functions. Calls into
the host, Envoy or gRPC append an event to a trace; what the host answers is a parameter.
`usize` of the wasm32 targets has 2^32 values and `uint64_t` has 2^64: casts to them are written as
remainders.

Strict reading of the code gives these results that its comments or tests do not promise:

- The tests at wasm/src/lib.rs:713-742 expect a five-byte gRPC prefix in front of an encoded
  `Frame`; the encoder at wasm/src/lib.rs:430-445 writes none, and the model follows it.
- A close frame ends one call of the WASM filter's drain loop, and the next call resumes behind it.
  Without further initial metadata the whole trace is independent of segmentation exactly when no
  ping follows the first close frame (`WasmRuns.FullTraceIff`, failing input `WasmRuns.LatePong`). Metadata behind the close frame
  reopens the stream, so over all runs nothing but pongs and frames with unknown opcodes may follow
  it (`WasmRuns.EveryTraceIff`, with `WasmRuns.LateMetadataReopens` as a failing input).
- Client bytes behind CRLFCRLF in the call that completes the upgrade request, and those of the
  calls between it and the 101 line, are not read by the filter (`WasmConnection.WholeConnection`). That changes nothing for any
  continuation exactly when they are whole frames to which the filter never reacts
  (`WasmConnection.LossHarmlessIff`, failing input `WasmConnection.PipelinedLost`).
- In the native filter an `end_stream` that arrives before the stream is ready is forgotten
  (`NativeRuns.EndStreamIff`, failing input `NativeRuns.EndForgotten`). A call beyond 2^32 - 1 bytes loses events exactly when a reacting
  message ends behind that length (`NativeRuns.OversizeIff`, `NativeRuns.OversizeLost`).
- The parsers of the two filters differ on exactly the frames that declare at least 2^32 bytes and
  whose declared length modulo 2^32 is present (`WsFrame.ParsersAgreeIff`), and the filters act
  differently exactly when what the 32-bit parser reads from such a frame on contains data, a ping
  or a close frame (`FilterAgreement.FiltersAgree`, `FilterAgreement.HugeTextDiverges`).
- `Handle` and `Process` give the same response exactly when no body bytes follow the first final
  body (`HttpBridge.UnaryAgreesIff`, failing input `HttpBridge.TrailingBody`).
- An uncancelled `Process` comes to rest finished exactly when the application asks for no more
  request events than there are before it ends the response; a further receive waits forever,
  because nothing queues a disconnect (`HttpLiveness.FinishesIff`, failing input
  `HttpLiveness.SecondReceiveHangs`).
- The echo connection completes exactly when every text frame decodes; otherwise the pump dies and
  the connection hangs (`WsBridge.CompletesIff`, failing input `WsBridge.BadTextHangs`).
- `check` succeeds after `write` exactly when some request region of the file lies outside the
  response regions, where markers inside a request region are disregarded because `write` erases
  them (`Generator.CheckAfterWrite`); `Generator.NestedCheckFails` gives a file on which it fails.

## Model

| member | source | states |
|---|---|---|
| WsFrame.ParseIffGrammar | wasm/src/lib.rs:331-394 | the parser accepts exactly the buffers that start with a frame of the grammar, and reports its opcode modulo 16, unmasked payload and length |
| WsFrame.ParseByBytes | wasm/src/lib.rs:331-394 | what a parse tells of single bytes: opcode from the low bits of the first, length from the second and the 2 or 8 behind it, and payload byte `i`, when masked, is the byte in the buffer combined with byte `i` modulo 4 of the four in front of the payload |
| WsFrame.ParseIffPresent | wasm/src/lib.rs:331-394 | a buffer parses exactly when its length bytes, its key and as many payload bytes as they declare are there |
| Bits.XorBits | wasm/src/lib.rs:387 | the combination of two bytes is the exclusive or of each of their bits |
| WsFrame.ParseExtend | wasm/src/lib.rs:331-394 | a frame that parses still parses identically when more bytes arrive |
| WsFrame.StrictPrefixIncomplete | wasm/src/lib.rs:331-394 | every strict prefix of a frame asks for more data |
| WsFrame.UnparseSound | wasm/src/lib.rs:331-394 | the consumed bytes are the print of the frame that was reported |
| WsFrame.MaskInvolution | wasm/src/lib.rs:375-391 | masking with a key is its own inverse |
| WsFrame.EncodeParse | wasm/src/lib.rs:331-417 | parsing an encoded frame in front of any bytes gives back opcode modulo 16, payload and length, in all three length classes |
| WsFrame.EncodeHead | wasm/src/lib.rs:397-402 | the first byte of a written frame is 0x80 plus the opcode, the second has no mask bit |
| WsFrame.EncodeByBytes | wasm/src/lib.rs:397-417 | a written frame has two, four or ten bytes that declare the size of the payload, and then the payload |
| WsFrame.EncodeShortest | wasm/src/lib.rs:397-417 | no unmasked frame of the grammar with that payload is shorter, and one as short has the same length form |
| WsFrame.EncodeWsFrame | wasm/src/lib.rs:397-417 | the branches on the length write the unmasked final frame that EncodeHead, EncodeByBytes and EncodeParse describe |
| WsFrame.ParseFrame | envoy-filter/ws_grpc_bridge_filter.cc:413-483 | the native parser, with its byte loops, finds the same frames as the grammar on 64-bit lengths, reports the FIN bit and the opcode of the first byte, unmasks byte `i` with key byte `i` modulo 4, and consumes nothing when incomplete |
| WsFrame.ReadLength | envoy-filter/ws_grpc_bridge_filter.cc:430-448 | the shift loop computes the big-endian length of each form |
| WsFrame.Unmask | envoy-filter/ws_grpc_bridge_filter.cc:471-478 | the byte loop computes the masked payload |
| WsFrame.EncodeFrameNative | envoy-filter/ws_grpc_bridge_filter.cc:489-523 | the shifts produce the same bytes as the WASM encoder |
| WsFrame.EncodeThenParse | envoy-filter/ws_grpc_bridge_filter.cc:413-523 | a frame the native encoder writes is read by the native parser as complete and final with the same opcode and payload |
| WsFrame.ParsersAgreeIff | wasm/src/lib.rs:355-364 | on every buffer the 32-bit and the 64-bit parser differ exactly when the declared length is 2^32 or more and the bytes of its remainder modulo 2^32, with header and key, are there |
| FrameStream.Split | wasm/src/lib.rs:259-320 | parsing in two instalments with the tail kept in between is parsing at once: same messages, same rest |
| FrameStream.Conservation | wasm/src/lib.rs:259-320 | bytes received are the prints of the consumed frames followed by the rest, and the messages are those frames' |
| FrameStream.PrintedFrames | wasm/src/lib.rs:259-320 | a stream of printed frames carries exactly their messages in order, whatever follows |
| Varint.WriteVarint | wasm/src/lib.rs:498-509 | the loop appends the encoding of the value |
| Varint.EncodeAtMostTen | wasm/src/lib.rs:498-509 | an encoding has as many bytes as the value has 7-bit groups, between one and ten |
| Varint.RoundTrip | wasm/src/lib.rs:498-532 | reading a written 64-bit value in front of any bytes gives the value and its length |
| Varint.DecodeIff | wasm/src/lib.rs:513-532 | exactly the encodings of at most ten bytes with the continuation bits set are accepted, and mean the sum of their groups modulo 2^64 |
| Varint.ReadVarintAt | wasm/src/lib.rs:513-532 | the shift-and-or loop from an offset computes that meaning, also when the tenth byte overflows |
| Varint.ReadVarintSlice | wasm/http-bridge/src/lib.rs:313-323 | so does the loop over a slice |
| Varint.ReadBoth | wasm/http-bridge/src/lib.rs:313-323 | the two crates' readers agree on every buffer and in-range offset |
| ProtoRecords.RecordsIff | wasm/src/lib.rs:451-490 | bytes read as a record list exactly when they are its print, so a message has one reading |
| ProtoRecords.RecordShape | wasm/src/lib.rs:535-571 | the wire type in the low bits of the tag decides the kind and the size of a record |
| ProtoRecords.RecordsAppend | wasm/src/lib.rs:451-490 | records of a concatenation are the concatenated records |
| ProtoRecords.RecordAt | wasm/src/lib.rs:535-571 | `skip_field` moves the cursor to the end of the record there, or fails exactly when there is none |
| FrameProto.DecodeFrameProto | wasm/src/lib.rs:451-490 | the cursor loop returns the fold of the records, and nothing exactly when the bytes are not a record list |
| FrameProto.EncodeFrameProto | wasm/src/lib.rs:430-445 | writes the encoding without default values and without a prefix |
| FrameProto.RoundTripFrame | wasm/src/lib.rs:430-490 | decoding an encoded frame gives payload and flag back |
| FrameProto.LastPayload | wasm/src/lib.rs:467-475 | the payload is the data of the last length-delimited field 1 |
| FrameProto.LastFlag | wasm/src/lib.rs:478-482 | the flag is set exactly if the last varint field 2 is not zero |
| FrameProto.Defaults | wasm/src/lib.rs:454-455 | without such fields the payload is empty and the flag is not set |
| FrameProto.MergeLaw | wasm/src/lib.rs:451-490 | behind an accepted message a concatenation is accepted exactly when its second part is, and takes each field from there when carried and otherwise from the first |
| FrameProto.UnknownIgnored | wasm/src/lib.rs:482-485 | unknown records inserted anywhere between records change neither the result nor its existence |
| UpgradeCapture.ParseHttpRequestHeaders | wasm/src/lib.rs:579-611 | the line loop computes method, path and the fields before the first empty line |
| UpgradeCapture.Spelled | wasm/src/lib.rs:585-596 | the separators and the names of the pseudo-headers, spelled out |
| UpgradeCapture.LinesJoin | wasm/src/lib.rs:585-586 | the lines hold no CRLF and give the block back when joined by it |
| UpgradeCapture.FieldAt | wasm/src/lib.rs:603-607 | a line is split at its first colon, both sides trimmed and the name in lower case; a line without colon is no field |
| UpgradeCapture.TrimIs | wasm/src/lib.rs:604-605 | trimming removes white space from both ends, all of it, and nothing else |
| Bytes.LowerLetters | wasm/src/lib.rs:604 | each of the letters A to Z becomes the same letter of a to z, every other byte stays |
| UpgradeCapture.FieldsStop | wasm/src/lib.rs:599-602 | nothing behind the first empty line is read |
| UpgradeCapture.PrintedRequest | wasm/src/lib.rs:579-611 | parsing a printed well-formed request returns method, path and headers in order, names in lower case |
| UpgradeCapture.CapturedExtend | wasm/src/lib.rs:156-177 | what was captured does not depend on any byte behind the first CRLFCRLF |
| Search.FindExtend | wasm/src/lib.rs:638-642 | a first occurrence stays the first when the haystack grows |
| WasmFilter.WsBridgeStream.constructor | wasm/src/lib.rs:64-73 | a new connection awaits the upgrade request with empty buffer and no stream |
| WasmFilter.WsBridgeStream.OnGrpcStreamInitialMetadata | wasm/src/lib.rs:103-110 | metadata sets the stream id whatever happened before |
| WasmFilter.WsBridgeStream.OnGrpcStreamMessage | wasm/src/lib.rs:112-139 | a decodable message is relayed as one frame of its kind, anything else changes nothing |
| WasmFilter.RelaysByFlag | wasm/src/lib.rs:112-139 | a message with the flag set or not is written as one final unmasked frame with opcode 2 or 1 and its payload |
| WasmFilter.UndecodableIgnored | wasm/src/lib.rs:112-139 | a message that cannot be read or decoded changes nothing |
| WasmFilter.WsBridgeStream.OnGrpcStreamClose | wasm/src/lib.rs:141-150 | a close frame with code 1000 is written and the stream id cleared |
| WasmFilter.CloseTells | wasm/src/lib.rs:141-150 | what is written is one final frame with opcode 8 whose two bytes are the number 1000 |
| WasmFilter.WsBridgeStream.OnDownstreamData | wasm/src/lib.rs:154-198 | capture ends with the call that completes CRLFCRLF; active bytes are appended and drained; a failed read changes nothing |
| WasmFilter.WsBridgeStream.OnUpstreamData | wasm/src/lib.rs:200-254 | a chunk with the 101 line activates the filter and opens the stream with the captured headers, also when opening fails |
| WasmFilter.Spelled | wasm/src/lib.rs:209 | the bytes looked for are those of `HTTP/1.1 101` |
| WasmFilter.WsBridgeStream.Dispatch | wasm/src/lib.rs:272-316 | the reaction to one message, and that exactly a close frame stops the loop |
| WasmFilter.ReactsByOpcode | wasm/src/lib.rs:272-316 | on the wire: 1 and 2 send one message that decodes to the payload and the flag, 8 half-closes, 9 writes one final frame with opcode 10 and the same payload, anything else does nothing, and without stream only 9 does something |
| WasmFilter.WsBridgeStream.ProcessWsFrames | wasm/src/lib.rs:259-320 | the terminating loop takes the messages through the first close frame, reacts to each and keeps the bytes behind them |
| WasmFilter.TakenThroughClose | wasm/src/lib.rs:292-299 | one call takes exactly the messages up to and including the first close frame |
| WasmFilter.TakenLeft | wasm/src/lib.rs:259-320 | what a call takes and what the kept bytes still hold are together all messages; without a close frame nothing complete is kept |
| WasmRuns.SegmentationIndependence | wasm/src/lib.rs:186-196 | however bytes are cut into calls and metadata and replies interleave, the trace of sends, pongs and half-close through the first half-close is that of the whole stream; without a close frame also the buffer, and it holds no complete frame |
| WasmRuns.FullTraceIff | wasm/src/lib.rs:292-299 | over all cuttings, with replies and failed reads but no further metadata, the full trace is the same exactly when no ping follows the first close frame |
| WasmRuns.LatePong | wasm/src/lib.rs:292-299 | an input on which it differs: the ping behind the close frame is answered only in a call of its own |
| WasmRuns.EveryTraceIff | wasm/src/lib.rs:103-110 | over all runs, metadata at any point included, the full trace is that of the messages through the first close frame exactly when no data, close or ping message follows it |
| WasmRuns.LateMetadataReopens | wasm/src/lib.rs:103-110 | an input on which that fails: metadata behind a close frame makes a later frame be sent after the half-close |
| WasmRuns.CaptureSegmentation | wasm/src/lib.rs:156-177 | for every list of chunks, headers and state depend only on the bytes through the first CRLFCRLF |
| WasmConnection.FatePartition | wasm/src/lib.rs:154-198 | every client byte is part of the request, lost or parsed, in this order on the wire |
| WasmConnection.WholeConnection | wasm/src/lib.rs:154-254 | from construction on, the bytes through the first CRLFCRLF alone give the stream's metadata, those behind the call with the 101 line alone decide what is sent, and those in between influence nothing |
| WasmConnection.NothingSentWhenClosed | wasm/src/lib.rs:141-150 | with the stream closed by the server or never opened, nothing is sent or half-closed unless metadata arrives |
| WasmConnection.ClosedByServer | wasm/src/lib.rs:141-150 | when the server closes an explained connection, the client-driven trace goes on with exactly the reactions without stream, pongs, to what is taken afterwards, and taken and buffered messages are those of the buffer and all later bytes |
| WasmConnection.FailedOpen | wasm/src/lib.rs:231-243 | when opening the stream fails, the client-driven trace is those reactions to what is taken of the bytes behind the 101 line |
| WasmConnection.LossHarmlessIff | wasm/src/lib.rs:172-184 | losing bytes changes what is sent for no continuation of the stream if and only if they are whole frames to which the filter never reacts |
| WasmConnection.NothingMissing | wasm/src/lib.rs:172-184 | with such losses a connection sends what all bytes behind the request mean |
| WasmConnection.PipelinedLost | wasm/src/lib.rs:172-184 | an input on which bytes are missed: a text frame in the segment of CRLFCRLF is lost, and sent when it comes behind the 101 line |
| NativeFilter.WsGrpcBridgeFilter.constructor | envoy-filter/ws_grpc_bridge_filter.h:179-198 | a new filter passes traffic through |
| NativeFilter.WsGrpcBridgeFilter.OnDestroy | envoy-filter/ws_grpc_bridge_filter.cc:76-82 | the stream is reset exactly if there is one, and the filter is closed |
| NativeFilter.WsGrpcBridgeFilter.OnDecodeHeaders | envoy-filter/ws_grpc_bridge_filter.cc:93-117 | only upgrades start a stream; a failed start closes the filter with a local reply |
| NativeFilter.WsGrpcBridgeFilter.OnDecodeData | envoy-filter/ws_grpc_bridge_filter.cc:119-139 | data is buffered while connecting, processed while active and otherwise dropped |
| NativeFilter.WsGrpcBridgeFilter.OnReceiveInitialMetadata | envoy-filter/ws_grpc_bridge_filter.cc:169-182 | activates a connecting filter once and flushes the buffered data |
| NativeFilter.WsGrpcBridgeFilter.OnReceiveMessage | envoy-filter/ws_grpc_bridge_filter.cc:186-199 | a message is relayed as one frame while active or closing |
| NativeFilter.WsGrpcBridgeFilter.OnRemoteClose | envoy-filter/ws_grpc_bridge_filter.cc:203-223 | unless closed, a close frame is written, the stream dropped and the connection reset |
| NativeFilter.WsGrpcBridgeFilter.DoCloseGrpcStream | envoy-filter/ws_grpc_bridge_filter.cc:399-407 | half-closes an active filter once |
| NativeFilter.WsGrpcBridgeFilter.Dispatch | envoy-filter/ws_grpc_bridge_filter.cc:333-366 | the reaction to one frame; only a close frame leaves the active phase |
| NativeFilter.WsGrpcBridgeFilter.ProcessWebSocketData | envoy-filter/ws_grpc_bridge_filter.cc:295-377 | the offset loop over remainder and data reacts to all messages through the first close frame and keeps exactly the unparsed tail |
| NativeFilter.WsGrpcBridgeFilter.BuildCloseFrame | envoy-filter/ws_grpc_bridge_filter.cc:525-531 | the close frame carries code 1000 |
| NativeRuns.ReactsByOpcode | envoy-filter/ws_grpc_bridge_filter.cc:333-366 | 1 and 2 send the payload as text or binary, 8 half-closes, 9 writes one final frame with opcode 10 and the same payload, anything else does nothing |
| NativeRuns.RelaysByFlag | envoy-filter/ws_grpc_bridge_filter.cc:186-199 | a relayed message is one final unmasked frame with opcode 2 or 1 and its payload, and there is none outside the active and closing phases |
| NativeRuns.RemoteCloseTells | envoy-filter/ws_grpc_bridge_filter.cc:203-223 | unless the filter is closed it writes one final frame with opcode 8 whose two bytes are the number 1000, then resets the client |
| NativeRuns.UpgradeStarts | envoy-filter/ws_grpc_bridge_filter.cc:93-117 | an upgrade starts one stream; a failed start is answered locally and closes the filter |
| NativeRuns.SegmentationIndependence | envoy-filter/ws_grpc_bridge_filter.cc:119-182 | for every cutting and every arrival time of initial metadata the trace of sends, pongs and half-close is that of parsing the whole stream at once; while active the remainder is exactly its unparsed tail |
| NativeRuns.EndStreamIff | envoy-filter/ws_grpc_bridge_filter.cc:124-127 | the end of the request half-closes exactly if a close frame did or the stream was ready by then |
| NativeRuns.EndForgotten | envoy-filter/ws_grpc_bridge_filter.cc:124-127 | an input on which it fails: end, then readiness, gives no half-close; the other order gives one |
| NativeRuns.EndedRun | envoy-filter/ws_grpc_bridge_filter.cc:76-223 | when the server closes or the filter is destroyed, the client-driven trace is the meaning of what came before, whatever callbacks follow |
| NativeRuns.OversizeIff | envoy-filter/ws_grpc_bridge_filter.cc:316-325 | one call of an active filter has the events of all its bytes exactly when no reacting message through the first close frame ends behind byte 2^32 - 1 |
| NativeRuns.OversizeLost | envoy-filter/ws_grpc_bridge_filter.cc:316-325 | a stream whose text frame is sent when cut into two calls and lost in one |
| NativeRuns.LifeCycle | envoy-filter/ws_grpc_bridge_filter.cc:76-223 | over every callback sequence the phase rank never decreases, the trace grows and stays disciplined, an active filter has its stream, and a closed one does nothing more |
| NativeRuns.AtMostOnce | envoy-filter/ws_grpc_bridge_filter.cc:203-223 | in every allowed run there is one half-close at most and no send behind it, one close frame at most and no pong, relayed frame or local reply behind it |
| NativeRuns.NoStreamLeft | envoy-filter/ws_grpc_bridge_filter.cc:76-223 | in every allowed run that ends closed, a started stream was reset, refused or ended by its server |
| NativeRuns.PlainUntouched | envoy-filter/ws_grpc_bridge_filter.cc:93-139 | without an upgrade request no callback sequence causes anything |
| FilterAgreement.SameMessagesIff | envoy-filter/ws_grpc_bridge_filter.cc:413-483 | both parsers see the same messages through the first close frame exactly when no frame up to there is present with its declared length cut to 32 bits |
| FilterAgreement.FiltersAgree | wasm/src/lib.rs:259-445 | on the same bytes, cut in unrelated ways, the WASM filter's decoded messages, pongs and half-close are the native filter's if and only if no data, ping or close message is read at or behind a frame that declares 2^32 bytes |
| FilterAgreement.HugeTextDiverges | wasm/src/lib.rs:355-364 | ten bytes on which they differ |
| FilterAgreement.EndToEnd | wasm/src/lib.rs:112-139 | client data frames parsed, encoded, decoded, framed and parsed again give back the same opcodes and payloads with nothing left over |
| EchoSystem.ServedIs | wasm/src/lib.rs:272-290 | what the filter sends decodes to the data messages through the first close frame |
| EchoSystem.EchoReturns | python/examples/echo.py:78-99 | over every segmentation and every interleaving of the echo servicer, what is relayed to the client parses to a prefix of its data messages with nothing left over, and to all of them once the servicer stopped and its replies arrived |
| EchoSystem.AskedOfFrames | wasm/src/lib.rs:259-320 | for a stream of printed data frames those messages are the frames' |
| HttpProto.PushLenField | wasm/http-bridge/src/lib.rs:297-302 | appends one length-delimited field |
| HttpProto.EncodeHttpRequest | wasm/http-bridge/src/lib.rs:193-211 | the loop writes the nested header fields and, when not empty, the body |
| HttpProto.RequestRoundTrip | wasm/http-bridge/src/lib.rs:193-211 | a decoder of the message definition recovers every header list and body through both levels of nesting |
| HttpProto.RequestHolds | wasm/http-bridge/src/lib.rs:193-211 | an encoded request is, in order, one field 1 for each header that reads back as it, and one field 2 with the body if there is one |
| HttpProto.RequestInjective | wasm/http-bridge/src/lib.rs:193-211 | two requests share their bytes only if they are equal |
| HttpProto.DecodeHeader | wasm/http-bridge/src/lib.rs:263-293 | of the records in front of the first fixed-width one the last key and value count, and an empty key gives no header |
| HttpProto.HeaderReadBack | wasm/http-bridge/src/lib.rs:193-293 | an encoded header decodes to itself, key as key and value as value, and to none when the key is empty |
| HttpProto.LastKey | wasm/http-bridge/src/lib.rs:275-280 | the key is the data of the last length-delimited field 1 |
| HttpProto.LastValue | wasm/http-bridge/src/lib.rs:281-286 | the value is the data of the last length-delimited field 2 |
| HttpProto.NoKeyNoValue | wasm/http-bridge/src/lib.rs:264-265 | without such fields key and value are empty |
| HttpProto.HeaderMeaningIs | wasm/http-bridge/src/lib.rs:263-293 | the same of whole header messages, whatever stands in front of and behind these fields |
| HttpProto.PlainPartEnds | wasm/http-bridge/src/lib.rs:289 | reading stops at the first field of fixed width |
| HttpProto.DecodeHttpResponse | wasm/http-bridge/src/lib.rs:217-261 | on every record list whose headers are record lists the cursor loop ends and returns the fold of the records |
| HttpProto.AnyOrder | wasm/http-bridge/src/lib.rs:217-261 | records in any order decode to the last status (200 without one), the headers in order and the joined bodies |
| HttpProto.ResponseRoundTrip | wasm/http-bridge/src/lib.rs:217-261 | a response printed as field 1, fields 2 and field 3 decodes to its status, headers and body |
| HttpProto.UnknownIgnored | wasm/http-bridge/src/lib.rs:252-256 | an unknown record of any wire type, at any place among others, leaves the response as it is |
| HttpFilter.HttpBridgeFilter.constructor | wasm/http-bridge/src/lib.rs:52-62 | a new filter has nothing pending and nothing dispatched |
| HttpFilter.HttpBridgeFilter.DispatchHandle | wasm/http-bridge/src/lib.rs:115-138 | one call with the encoded request is dispatched; failure turns the filter to passthrough |
| HttpFilter.HttpBridgeFilter.OnHttpRequestHeaders | wasm/http-bridge/src/lib.rs:142-164 | WebSocket upgrades pass; a request without body is dispatched, and paused exactly if that worked |
| HttpFilter.UpgradeIff | wasm/http-bridge/src/lib.rs:145-150 | a request passes as an upgrade exactly when a header `upgrade` has the value `websocket`, in any case of their letters |
| HttpFilter.HttpBridgeFilter.OnHttpRequestBody | wasm/http-bridge/src/lib.rs:166-181 | chunks accumulate until the end of the stream dispatches them; other callbacks change nothing |
| HttpFilter.DispatchOnce | wasm/http-bridge/src/lib.rs:115-181 | over any body callbacks at most one call is dispatched, with the headers and the concatenated chunks, whatever the chunk boundaries |
| HttpFilter.CallOrPass | wasm/http-bridge/src/lib.rs:115-181 | once the request has ended the filter either holds the token of its call or lets the request pass |
| HttpBridge.Process.constructor | python/grpcgi/http.py:158-163 | both queues start empty |
| HttpBridge.Process.PumpBody | python/grpcgi/http.py:179-199 | one turn of the pump queues a body chunk, skips another message, or signals the end of the stream |
| HttpBridge.Process.Receive | python/grpcgi/http.py:207 | the application gets the oldest request event |
| HttpBridge.Process.Send | python/grpcgi/http.py:207 | an application event is queued last |
| HttpBridge.Process.FinishApp | python/grpcgi/http.py:212-214 | the sentinel is queued last however the application ends |
| HttpBridge.Process.ConsumeOne | python/grpcgi/http.py:219-262 | one entry is taken, turned into at most one chunk, and stops the loop if it is the sentinel, a disconnect or a final body |
| HttpBridge.ResponseSafety | python/grpcgi/http.py:219-262 | in every reachable state the chunks are the image of the application's events in order, cut at the first final body; only the last ends the stream; body bytes are conserved |
| HttpBridge.FinalChunk | python/grpcgi/http.py:219-262 | in every reachable state whose consumer took a final body last, the stream ends with a chunk that carries its bytes, if any, and ends the stream; no other body chunk is empty |
| HttpBridge.ChunksExplained | python/grpcgi/http.py:219-262 | in every reachable state each chunk answers one consumed event in order, with its status, headers, bytes and end flag, and exactly starts, final bodies and bodies with bytes are answered |
| HttpBridge.StopsWhere | python/grpcgi/http.py:219-262 | the consumer stops exactly at the first sentinel, disconnect or final body |
| HttpBridge.RequestSafety | python/grpcgi/http.py:179-199 | in every reachable state the application has seen the request chunks in order, at most one of them final, and that one last |
| HttpBridge.RequestsExplained | python/grpcgi/http.py:179-199 | request event by request event: the bytes of the chunk in its place, final exactly if the chunk is, or the empty final one behind them |
| HttpBridge.ConsumerStops | python/grpcgi/http.py:205-262 | once the application has ended the consumer never blocks and stops within the length of the send queue |
| HttpBridge.Handle | python/grpcgi/http.py:96-146 | the response has the status of the last start event, all headers in order and all body bytes, also those behind a final body; if the application raises there is none |
| HttpBridge.HandleGives | python/grpcgi/http.py:96-126 | what the loop accumulates is the status of the last start event (200 by default), all headers and all body bytes in order |
| HttpBridge.UnaryAgreesIff | python/grpcgi/http.py:118-126 | for one start and then bodies, streaming and buffering agree exactly when no bytes follow the first final body |
| HttpBridge.TrailingBody | python/grpcgi/http.py:118-126 | an input on which they differ: bytes behind the final body |
| HttpBridge.StreamingRefinesUnary | python/grpcgi/http.py:148-272 | for a proper script every interleaving of the streaming call gives the status, headers and body of the unary call |
| HttpLiveness.FinishesIff | python/grpcgi/http.py:148-272 | every uncancelled interleaving is bounded by request and script, and at rest finished exactly if the application asks for no more request events than the request has before it ends the response |
| HttpLiveness.SecondReceiveHangs | python/grpcgi/http.py:179-199 | an input on which it hangs: a second receive on a request without body |
| WsBridge.Connection.constructor | python/grpcgi/ws.py:125-134 | the receive queue is seeded with the connect event |
| WsBridge.Connection.PumpFrames | python/grpcgi/ws.py:137-156 | one turn queues the event of a frame, signals disconnect at the end, or dies on text that does not decode |
| WsBridge.Connection.ConsumeOne | python/grpcgi/ws.py:174-209 | one entry of any kind is taken and yields a frame exactly if it carries text, which wins, or bytes; the sentinel and a close event stop the loop |
| WsBridge.EchoSafety | python/grpcgi/ws.py:115-219 | in every reachable state of pump, echo application and consumer the yielded frames are a prefix of the client's, none is lost, copied or reordered while the consumer runs, and they are equal when it stops on the sentinel |
| WsBridge.TextStaysText | python/grpcgi/ws.py:137-198 | in every reachable state text is carried as text and binary as binary, in both queues, and an event carries one of them |
| WsBridge.ConsumeYields | python/grpcgi/ws.py:174-198 | a sent text yields a text frame, bytes alone a binary one, anything else none |
| WsBridge.CompletesIff | python/grpcgi/ws.py:137-156 | without cancellation every interleaving comes to rest within 4n + 7 steps, and the echo is then complete exactly if all text frames decode |
| WsBridge.BadTextHangs | python/grpcgi/ws.py:137-156 | an input on which it hangs: one text frame that does not decode |
| HeaderTable.Layout | docs/spec/tools/header_table.py:147-172 | hot headers fill the numbers from the start to 15 that typed ones leave, the rest follows from 16 on; too many of either is an error |
| HeaderTable.LayoutPartition | docs/spec/tools/header_table.py:147-191 | numbers strictly increase, and 16..199 is split exactly into used numbers and the rendered reserved range |
| HeaderText.LayoutIff | docs/spec/tools/header_table.py:147-172 | there is a layout exactly when the hot headers fit the free numbers up to 15 and at most 184 headers follow |
| HeaderText.RowsDeclared | docs/spec/tools/header_table.py:143-172 | every row declares its number in digits, the typed ones with their own declaration, the others as `repeated bytes` with underscores for hyphens, and these are all the headers in order |
| HeaderText.DecimalReads | docs/spec/tools/header_table.py:162 | a printed number reads back, with digits only and no leading zero |
| HeaderText.ReservedExactly | docs/spec/tools/header_table.py:187-190 | the numbers from 16 to 199 without a row are exactly those from the last row on |
| HeaderTable.RenderBlock | docs/spec/tools/header_table.py:175-191 | the block is the intro, one line per row with a heading at 16, and the reserved range; without a one-byte row there is none |
| HeaderText.BlockSays | docs/spec/tools/header_table.py:175-191 | the block has the intro, each row with its header as comment, the heading in front of number 16, and, unless the table is full, a reserved line whose numbers read as the last one plus one and 199; it has no other lines |
| HeaderText.JoinedLines | docs/spec/tools/header_table.py:191 | lines joined are the lines of the text |
| HeaderTable.BlockClean | docs/spec/tools/header_table.py:175-191 | a rendered block of a clean table never contains a letter of the markers |
| Splicing.SubIdempotent | docs/spec/tools/header_table.py:250-256 | on every text, refilling all regions twice is refilling them once, and the markers are still there |
| Splicing.SpliceIdempotent | docs/spec/tools/header_table.py:250-256 | `splice` accepts its own result and returns it unchanged |
| Splicing.MatchIffRegion | docs/spec/tools/header_table.py:253-254 | the search finds something exactly when a begin marker is followed by an end marker |
| Splicing.StableIff | docs/spec/tools/header_table.py:253-256 | a text is a fixed point of the substitution exactly when every region in it is the filling |
| Splicing.OutsideKept | docs/spec/tools/header_table.py:253-256 | what is outside the regions is not changed |
| Splicing.NoOverlap | docs/spec/tools/header_table.py:246-247 | two different markers never overlap in any text |
| Splicing.Interplay | docs/spec/tools/header_table.py:250-256 | on every text, refilling the regions of one kind keeps those of the other filled, and keeps one at all exactly if one lies outside the refilled regions |
| Splicing.InFrontSurvives | docs/spec/tools/header_table.py:250-263 | a first region in front of every begin marker of the other kind survives both splices |
| Splicing.SurvivesMarks | docs/spec/tools/header_table.py:250-263 | which regions survive depends on the text and the markers, not on what is filled in |
| Splicing.SpliceBothFixed | docs/spec/tools/header_table.py:262 | both splices leave a text as it is exactly when regions of both kinds are there and all are filled |
| Splicing.SpliceBothAgain | docs/spec/tools/header_table.py:262 | both splices applied to their own result are the identity, or stop exactly if no region of the first kind survived |
| Generator.GenerateAgain | docs/spec/tools/header_table.py:259-263 | applied to its own output the generator returns it unchanged if a request region survived, and otherwise stops for missing markers |
| Generator.WrittenRegions | docs/spec/tools/header_table.py:250-263 | after a successful `write` every region of the file, of both kinds, is begin marker, newline, rendered block, newline, end marker |
| Generator.RequestMarkers | docs/spec/tools/header_table.py:246-252 | the markers of the request table, spelled out |
| Generator.ResponseMarkers | docs/spec/tools/header_table.py:246-252 | the markers of the response table, spelled out |
| Generator.Stops | docs/spec/tools/header_table.py:250-263 | without a request region or a renderable table both modes stop and change nothing |
| Generator.CheckAfterWrite | docs/spec/tools/header_table.py:259-279 | after a successful `write`, `check` and a second `write` succeed exactly when a request region of the file lies outside the response regions, a condition on file and markers alone, and never change the files |
| Generator.CheckIff | docs/spec/tools/header_table.py:264-279 | `check` succeeds exactly when `write` would change nothing; for clean tables, when the registry is current, regions of both kinds are there and each is, literally, its markers around the rendered block |
| Generator.CheckAfterWriteInOrder | docs/spec/tools/header_table.py:259-279 | if the first request region of the file ends in front of every response begin marker, `check` succeeds after every successful `write` |
| Generator.NestedFails | docs/spec/tools/header_table.py:259-279 | for all renderable clean tables, on a file with the request region inside the response region `write` succeeds and `check` then fails |
| Generator.NestedCheckFails | docs/spec/tools/header_table.py:259-279 | the same for concrete tables, so the general condition is needed |

## Left out

- WsFrame.ParseFrame: the sum of header and payload length is unbounded, so a declared length within 14 of 2^64 does not wrap as `uint64_t` would.
- WsFrame.ParseIffGrammar: likewise the sum of offset and payload length does not wrap at 2^32 (the cast of the declared length to `usize` is modelled).
- FrameProto.DecodeFrameProto: cursor plus length does not wrap at 2^32; the casts of length and field number are modelled.
- ProtoRecords.RecordAt: the same for `skip_field`.
- HttpProto.DecodeHttpResponse: bytes that are not a record list, or whose header fields are not, carry no promise beyond termination; slices out of range are the outcome `Panicked`.
- HttpProto.DecodeHeader: `from_utf8_lossy` is the identity, which holds on valid UTF-8.
- WasmRuns.SegmentationIndependence: `get_downstream_data` is read as returning the new bytes only and `set_downstream_data(0, 0, x)` as appending, as wasm/src/lib.rs:135-138 and 188-193 assume.
- NativeRuns.LifeCycle: `decodeHeaders` comes once and first, and gRPC callbacks are not delivered inside the call that starts the stream.
- WasmConnection.WholeConnection: gRPC callbacks come only behind the call that opens the stream, as its host guarantees; a stream that the server closes or that fails to open is the subject of WasmConnection.ClosedByServer and WasmConnection.FailedOpen, without initial metadata afterwards.
- NativeRuns.SegmentationIndependence: for runs whose calls stay within 2^32 - 1 bytes; what one longer call loses is NativeRuns.OversizeIff.
- FilterAgreement.FiltersAgree: the same for the native filter's calls.
- UpgradeCapture.ParseHttpRequestHeaders: blocks that are not ASCII count as undecodable, and trimming and lower-casing are those of ASCII.
- HttpBridge.Handle: the receive side is not modelled.
- WsBridge.EchoSafety: the application is the echo example, which never closes; the subprotocol metadata is not modelled.
- Generator.CheckAfterWrite: the contents of the tables are parameters, assumed free of the letter D (they are lower-case names and declarations); the registry text is a parameter.
- Reassembly of fragments, UTF-8 checks at the edge and forwarding of close codes: the filters ignore FIN and drop opcode 0.
- A 101 response split across two chunks, which the network filter does not recognise.
- Responses of the HTTP filter to the client (`on_grpc_call_response`), and header `raw_value` and trailers.
- The first message of `Process`, scope building, authority and JSON parsing, server start-up, demo applications other than echo.
- asyncio beyond unbounded FIFO queues, steps between awaits, and cancellation.
- Envoy, gRPC and proxy-wasm themselves, logging, configuration, and metrics.
- Sessions, detach and resume, and status translation, which docs/spec specifies and no code implements.
