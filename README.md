# smf RPC core in Dafny

This project models the core of smf, a binary RPC framework for Seastar (C++), with Java (Netty) and Go bindings. It also models a few self-contained data structures of the same repository.

- **Frame header.** Every request and response is a 16-byte little-endian header followed by a body. The header fields are compression (int8), bitflags, session (u16), size (u32), checksum (u32) and meta, the method id (u32). The checksum is the low 32 bits of xxhash64 over the body as sent.
- **Java binding.** The three encoders and three decoders over a Netty `ByteBuf` (a class with reader and writer indices and their marks). The compression service. The session-id generator. The two pending-call dispatchers. The server's request handler.
- **Go binding.** `BuildHeader` and `NewHeader`. The server's service registry, `MethodHandle` and the per-connection loop.
- **C++ receive path.** `parse_header` and `parse_payload`. The connection's error history. The client's slot table: `raw_send`, `process_one_request` and `fail_outstanding_futures`.
- **C++ compression.** The lz4 and zstd codecs with their 4-byte length prefix and size checks, `codec::make_unique`, and the zstd and lz4 filters.
- **Data structures.** The reconnect back-off ladder. The CLOCK-Pro cache lists and cache. The page-cache bump and bucket allocators. The write-ahead-log chunk. The code generator's template printer and its identifier and token helpers.

xxhash64, zstd and lz4 are foreign libraries. They are function-valued parameters (`XxHash64`, `JavaCodecs`, `Lz4Lib`, `ZstdLib`). The round-trip behaviour expected of a codec is a hypothesis of the round-trip lemmas, never an axiom.

Integers are unbounded. The model writes out each wrap-around, truncation and sign the source relies on:
- Java's 32-bit `int` and its truncating `%` (`Wire.WrapInt32`, `Wire.JavaRem`);
- the `int8` reading of the compression byte (`Wire.Int8`);
- the narrowing casts into the header fields (`FrameHeader.CreateHeader`);
- the 16-bit session counter of the C++ client.

Module layout follows the program: one module per source file or class. A few shared modules are added: `Wire` (byte encodings and the checksum), `FrameHeader` (the struct layout), `Routing` (first-match lookup, shared by the Java and Go servers) and `Interop` (Go and Java frames as the C++ receiver judges them).

## Model

| member | source | states |
|---|---|---|
| Wire.WrapInt32 | src/java/src/main/java/smf/core/SessionIdGenerator.java:24 | The value an `AtomicInteger` holds after an overflow: a Java `int` congruent to the exact result modulo 2^32, equal to it when it is in range. |
| Wire.WrapInt32Add | src/java/src/main/java/smf/core/SessionIdGenerator.java:43 | Incrementing a wrapped counter is the same as wrapping the exact sum, so wrap-around composes across the attempts of `next`. |
| Wire.JavaRem | src/java/src/main/java/smf/core/SessionIdGenerator.java:43 | Java's `%`: the usual remainder for a non-negative dividend; for a negative one, a result in (-b, 0] that is the negated remainder of the magnitude. |
| Wire.Int8 | src/core/rpc_recv_context.cc:104 | The signed reading of a header byte: a value in [-128, 128) that is congruent to the byte modulo 256. |
| Wire.LeU16RoundTrip | src/go/smf/header_utils.go:25 | The session is stored as a little-endian u16, and it is read back as the value written. |
| Wire.ReadLeU16Encodes | src/go/smf/header_utils.go:13-15 | The two bytes the session is read from are exactly the little-endian encoding of the value read. |
| Wire.LeU32RoundTrip | src/core/compression.cc:124-136 | Reading back a little-endian u32 that was written gives the written value. |
| Wire.ReadLeU32Encodes | src/java/src/main/java/smf/common/compression/CompressionService.java:113 | The bytes a u32 is read from are exactly that value's little-endian encoding. |
| FrameHeader.Encode | src/go/smf/header_utils.go:22-29 | The flatbuffers struct is exactly 16 bytes long. |
| FrameHeader.DecodeEncode | src/go/smf/header_utils.go:12-17 | Viewing the bytes of an encoded header gives back every field, whatever body follows the header. |
| FrameHeader.Decode | src/java/src/main/java/smf/client/core/RpcResponseDecoder.java:42-47 | The header is read from the buffer's first 16 bytes. Re-encoding it reproduces exactly those bytes, so no header bits are lost. |
| FrameHeader.EncodeInjective | src/go/smf/header_utils.go:19-36 | Two headers with the same 16 bytes are the same header. |
| FrameHeader.CreateHeader | src/java/src/main/java/smf/client/core/RpcRequestEncoder.java:49-52 | Each `createHeader` argument is narrowed to its field width (8, 16 or 32 bits) and stored unchanged otherwise. |
| FrameHeader.FinishedBytes | src/go/smf/header_utils.go:30 | The finished builder is 20 bytes: a 4-byte root offset, then the struct. |
| FrameHeader.FinishedStructBytes | src/go/smf/header_utils.go:31-35 | Skipping the first 4 finished bytes leaves exactly the encoded header, and those 4 bytes hold the root offset 4. |
| GoHeaderUtils.NewHeader | src/go/smf/header_utils.go:12-17 | A slice of at least 16 bytes is viewed as the header those bytes encode. A shorter slice has no header (reading the whole header from it would panic). |
| GoHeaderUtils.BuildHeader | src/go/smf/header_utils.go:19-36 | Exactly 16 bytes. Decoded, they give compression and bitflags 0, the session and meta, `uint32(len(body))` and the body's checksum. |
| GoHeaderUtils.BuiltHeaderReadsBack | src/go/smf/header_test.go:20-27 | The unit test's property: `NewHeader(BuildHeader(...))` reports the given session, meta, body length and `MaxUint32 & xxhash(body)`. |
| JavaBuffers.ByteBuf.Readable | src/java/src/main/java/smf/client/core/RpcResponseDecoder.java:50 | The readable bytes number `writerIndex - readerIndex`. |
| JavaBuffers.ByteBuf.constructor | src/java/src/main/java/smf/client/core/RpcRequestEncoder.java:59 | A buffer whose readable bytes are exactly `content`, as the empty `heapBuffer()` is: reader index 0, writer index at the end, both marks 0. |
| JavaBuffers.ByteBuf.WriteBytes | src/java/src/main/java/smf/client/core/RpcRequestEncoder.java:59-61 | The readable bytes grow by exactly `src`. The reader index and the bytes already written stay as they were. |
| JavaBuffers.ByteBuf.MarkReaderIndex | src/java/src/main/java/smf/client/core/RpcResponseDecoder.java:38 | The mark becomes the current reader index. |
| JavaBuffers.ByteBuf.MarkWriterIndex | src/java/src/main/java/smf/client/core/RpcResponseDecoder.java:39 | The mark becomes the current writer index. |
| JavaBuffers.ByteBuf.ReadBytes | src/java/src/main/java/smf/client/core/RpcResponseDecoder.java:43 | Asking for more than is readable fails (`IndexOutOfBoundsException`) and moves nothing. Otherwise it returns the next `n` readable bytes and advances the reader index by `n`. |
| JavaBuffers.ByteBuf.ResetReaderIndex | src/java/src/main/java/smf/client/core/RpcResponseDecoder.java:71 | The reader index returns to its mark, unless the mark lies beyond the writer index; in that case the call fails and nothing moves. |
| JavaBuffers.ByteBuf.ResetWriterIndex | src/java/src/main/java/smf/client/core/RpcResponseDecoder.java:72 | The writer index returns to its mark, unless the mark lies below the reader index; in that case the call fails and nothing moves. |
| JavaBuffers.NioBuffer.Remaining | src/java/src/main/java/smf/server/core/RequestHandler.java:36 | `remaining()` is `limit - position` bytes, a Java array length. |
| JavaBuffers.NioBuffer.constructor | src/java/src/main/java/smf/server/core/RequestHandler.java:42 | `ByteBuffer.wrap`: position 0, limit the content's length. |
| JavaBuffers.NioBuffer.Drain | src/java/src/main/java/smf/server/core/RequestHandler.java:36-37 | `get(new byte[remaining()])` returns exactly the remaining bytes and leaves the position at the limit. |
| JavaCompression.Lz4Frame | src/java/src/main/java/smf/common/compression/CompressionService.java:128-134 | The lz4 frame is 4 bytes longer than the block. The first 4 bytes read the original length; the block follows. |
| JavaCompression.CompressBody | src/java/src/main/java/smf/common/compression/CompressionService.java:42-54 | `none` and `disabled` return the body unchanged. `zstd` gives the zstd output; `lz4` gives the length-prefixed frame. Every other flag throws `UnsupportedOperationException`, and exactly those flags do. |
| JavaCompression.DecompressZstd | src/java/src/main/java/smf/common/compression/CompressionService.java:96-105 | The decompressed-size estimate is cast to `int`. The call fails (negative array size) exactly when that cast is negative. |
| JavaCompression.DecompressLz4 | src/java/src/main/java/smf/common/compression/CompressionService.java:107-117 | Fewer than 4 bytes underflow. A prefix above `Integer.MAX_VALUE` is a negative array size. Otherwise the block after offset 4 is decoded to the prefixed length. |
| JavaCompression.DecompressBody | src/java/src/main/java/smf/common/compression/CompressionService.java:82-94 | The same dispatch as compression: identity for `none`/`disabled`, zstd, lz4, and `UnsupportedOperationException` for the rest. |
| JavaCompression.CompressRoundTrip | src/java/src/main/java/smf/common/compression/CompressionService.java:42-54 | For `none`, `disabled`, `zstd` and `lz4`, decompressing the compressed body with the same flag gives back the body, given codecs that round-trip. |
| JavaCompression.UnsupportedFlag | src/java/src/main/java/smf/common/compression/CompressionService.java:51-52 | An unknown flag is refused in both directions. |
| JavaCompression.CompressUsingLz4 | src/java/src/main/java/smf/common/compression/CompressionService.java:119-137 | The array built by `putInt` then `arraycopy` is exactly the lz4 frame of the body. |
| JavaCompression.CompressBuffer | src/java/src/main/java/smf/common/compression/CompressionService.java:59-63 | The `ByteBuffer` overload drains the remaining bytes and compresses exactly them. |
| JavaEncoders.Frame | src/java/src/main/java/smf/core/RpcCallEncoder.java:33-48 | A frame is the header then the body. Its header has bitflags 0, the body's length narrowed to 32 bits, and the body's checksum. |
| JavaEncoders.FrameHeaderFields | src/java/src/main/java/smf/client/core/RpcRequestEncoder.java:40-52 | Every header field of a frame, each narrowed to its width: flag, bitflags 0, session, body length, checksum, meta. |
| JavaEncoders.RequestFrameLayout | src/java/src/main/java/smf/client/core/RpcRequestEncoder.java:29-64 | For a supported flag, the frame is 16 header bytes, then the compressed body. Size and checksum describe the compressed bytes. Session, meta and flag come from the request. |
| JavaEncoders.ResponseFrameLayout | src/java/src/main/java/smf/server/core/RpcResponseEncoder.java:28-63 | The response keeps the request header's compression byte, session and meta. Size and checksum describe the compressed response body. |
| JavaEncoders.CallFrameLayout | src/java/src/main/java/smf/core/RpcCallEncoder.java:21-51 | The call frame is 16 + body bytes. It carries flag 0, bitflags 0, the body length and `0xFFFFFFFF & xx64(body)`. |
| JavaEncoders.WriteFrame | src/java/src/main/java/smf/client/core/RpcRequestEncoder.java:49-61 | `finish`, the 16-byte `arraycopy` from offset 4 and the two `writeBytes` produce the struct bytes, then the body. |
| JavaEncoders.EncodeRequest | src/java/src/main/java/smf/client/core/RpcRequestEncoder.java:29-64 | The method emits exactly the request frame the specification function describes, or the compression error. |
| JavaEncoders.EncodeResponse | src/java/src/main/java/smf/server/core/RpcResponseEncoder.java:28-63 | The method emits exactly the response frame, or the compression error. |
| JavaEncoders.EncodeCall | src/java/src/main/java/smf/core/RpcCallEncoder.java:21-51 | The method emits exactly the uncompressed call frame. |
| JavaDecoders.ResponseStep | src/java/src/main/java/smf/client/core/RpcResponseDecoder.java:35-75 | With fewer than 16 readable bytes nothing is emitted. Otherwise every readable byte is consumed and the message carries the decoded header. It is an `RpcResponse` exactly when the checksum of the bytes after the header matches, and its body is all of those bytes. Otherwise it is an `InvalidRpcResponse` carrying the checksum computed over those bytes. |
| JavaDecoders.SizedStep | src/java/src/main/java/smf/server/core/RpcRequestDecoder.java:33-41 | A frame is cut exactly when 16 header bytes and `(int) header.size()` body bytes are readable. It consumes exactly those bytes and returns the decoded header and body. |
| JavaDecoders.ReadHeader | src/java/src/main/java/smf/server/core/RpcRequestDecoder.java:29-38 | The marks are set. With 16 readable bytes their header is returned and 16 bytes are consumed; otherwise nothing is consumed. |
| JavaDecoders.Rewind | src/java/src/main/java/smf/server/core/RpcRequestDecoder.java:64-65 | The catch block puts the reader index back on its mark and leaves the writer index where it is. |
| JavaDecoders.DecodeResponse | src/java/src/main/java/smf/client/core/RpcResponseDecoder.java:35-75 | The method emits what `ResponseStep` describes and consumes its byte count. On failure it emits nothing and consumes nothing. The buffer's bytes and writer index stay unchanged. |
| JavaDecoders.ReadSizedFrame | src/java/src/main/java/smf/server/core/RpcRequestDecoder.java:33-41 | The header, `new byte[(int) size]` and `readBytes` follow `SizedStep`. A short or negative-size read rewinds. |
| JavaDecoders.DecodeRequest | src/java/src/main/java/smf/server/core/RpcRequestDecoder.java:24-68 | It emits one `RpcRequest(header, body)` for a complete frame and consumes exactly that frame. It does no checksum test. With a partial frame it emits nothing and consumes nothing. |
| JavaDecoders.DecodeCall | src/java/src/main/java/smf/core/RpcCallDecoder.java:24-54 | The same framing as the request decoder, emitting one `RpcResponse`. |
| JavaDecoders.RequestRoundTrip | src/java/src/main/java/smf/server/core/RpcRequestDecoder.java:40-57 | A request frame, followed by any bytes, is cut at exactly its end by the server decoder. The header keeps the session and meta, and decompressing the body with the header's flag gives back the request body. |
| JavaDecoders.FrameCut | src/java/src/main/java/smf/core/RpcCallDecoder.java:31-43 | A frame whose size field is its body length is cut at its end, alone or followed by more bytes. |
| JavaDecoders.CallRoundTrip | src/java/src/main/java/smf/core/RpcCallDecoder.java:24-54 | The call decoder cuts a call frame at its end and returns the unchanged body. |
| JavaDecoders.ResponseRoundTrip | src/java/src/main/java/smf/client/core/RpcResponseDecoder.java:57-63 | A response frame alone in the buffer passes the checksum test and is emitted with its compressed body. |
| JavaDecoders.SizedPrefixPostpones | src/java/src/main/java/smf/server/core/RpcRequestDecoder.java:59-66 | Any proper prefix of a complete frame is postponed. |
| JavaDecoders.SizedStepExtends | src/java/src/main/java/smf/server/core/RpcRequestDecoder.java:40-41 | The bytes after a complete frame do not change how it is cut, so repeated calls decode a stream frame by frame. |
| JavaDecoders.ResponseStepConsumesPartialFrame | src/java/src/main/java/smf/client/core/RpcResponseDecoder.java:50-51 | As written: a header plus part of its body, which the sized decoders postpone, is consumed whole by the client decoder. |
| JavaDecoders.ResponseStepSwallowsNextFrame | src/java/src/main/java/smf/client/core/RpcResponseDecoder.java:50-51 | As written: a frame followed by more bytes is consumed together with them, and the first frame's body is never emitted alone. |
| JavaDecoders.ResponseStepSized | src/java/src/main/java/smf/client/core/RpcResponseDecoder.java:50-64 | Corrected: it cuts where `SizedStep` cuts, or postpones where it postpones. |
| JavaDecoders.ResponseStepSizedCutsFrame | src/java/src/main/java/smf/client/core/RpcResponseDecoder.java:50-64 | Corrected: a frame with a matching checksum is emitted with its own body whatever follows, and a proper prefix is postponed. |
| JavaDecoders.ResponseStepSizedFrames | src/java/src/main/java/smf/server/core/RpcResponseEncoder.java:28-63 | Corrected: every response frame the server encodes, followed by any bytes, is emitted with its body and consumes exactly its own length. |
| SessionIds.ExpectedStep | src/java/src/main/java/smf/core/SessionIdGenerator.java:45-64 | A taken candidate leaves the outcome of `next` to the attempts after it. |
| SessionIds.NextFrom | src/java/src/main/java/smf/core/SessionIdGenerator.java:37-65 | A success returns a candidate that was not pending and adds exactly it to the pending set. A failure leaves the pending set unchanged. |
| SessionIds.NextFromAttempts | src/java/src/main/java/smf/core/SessionIdGenerator.java:37-65 | From any iteration, the loop either fails with every remaining candidate taken, or returns the first free candidate. |
| SessionIds.NextSpec | src/java/src/main/java/smf/core/SessionIdGenerator.java:34-67 | A call makes at most 7 attempts and the counter advances by one per attempt. It throws `SessionIdGenerationException` exactly when all 7 candidates are pending, and then only the counter changes. Otherwise it returns the first free candidate, which was absent before and is pending after. |
| SessionIds.NextInRange | src/java/src/main/java/smf/core/SessionIdGenerator.java:43 | Corrected (floor remainder): every id returned lies in [0, 65536). |
| SessionIds.JavaRemGivesNegativeId | src/java/src/main/java/smf/core/SessionIdGenerator.java:43 | As written: with the counter at `Integer.MIN_VALUE`, `next` returns -65535. |
| SessionIds.SessionIdGenerator.constructor | src/java/src/main/java/smf/core/SessionIdGenerator.java:23-24 | No pending sessions; the counter is 0. |
| SessionIds.SessionIdGenerator.Next | src/java/src/main/java/smf/core/SessionIdGenerator.java:34-67 | The `while (true)` loop returns, and leaves the counter and pending set, exactly as `NextSpec` describes for Java's `%`. |
| SessionIds.SessionIdGenerator.Release | src/java/src/main/java/smf/core/SessionIdGenerator.java:69-71 | The id is no longer pending. Releasing an id that is not pending changes nothing. |
| Dispatchers.ResultFuture.constructor | src/java/src/main/java/smf/client/core/Dispatcher.java:70 | A new future is pending. |
| Dispatchers.ResultFuture.Complete | src/java/src/main/java/smf/client/core/Dispatcher.java:46 | `complete` takes effect only on a pending future and reports whether it did. |
| Dispatchers.ResultFuture.CompleteExceptionally | src/java/src/main/java/smf/client/core/Dispatcher.java:42 | `completeExceptionally` takes effect only on a pending future and reports whether it did. |
| Dispatchers.FailedWith | src/java/src/main/java/smf/client/core/Dispatcher.java:67 | A pending state fails with the cause; a completed or failed state stays as it is. |
| Dispatchers.FailedWithIdempotent | src/java/src/main/java/smf/client/core/Dispatcher.java:65-67 | Failing twice is the same as failing once, so a future listed under two ids ends in the same state. |
| Dispatchers.ClientDispatcher.constructor | src/java/src/main/java/smf/client/core/Dispatcher.java:26-28 | An empty table bound to the given generator. |
| Dispatchers.ClientDispatcher.ChannelRead0 | src/java/src/main/java/smf/client/core/Dispatcher.java:30-54 | The frame's session leaves the table, so a second frame finds nothing, and it is released from the generator on every path. A registered future is failed with the checksum cause for an `InvalidRpcResponse` and completed with the body otherwise. No other future changes, and none changes for an unknown session. |
| Dispatchers.ClientDispatcher.ForceCloseOnAwaitingRequests | src/java/src/main/java/smf/client/core/Dispatcher.java:62-68 | Every future in the table is failed with `ClosedRpcRequestException(cause)` if it was still pending. The table keeps its entries. |
| Dispatchers.ClientDispatcher.AssignCallback | src/java/src/main/java/smf/client/core/Dispatcher.java:70-72 | `put`: the id now maps to the future, replacing any earlier entry. |
| Dispatchers.CoreDispatcher.constructor | src/java/src/main/java/smf/core/Dispatcher.java:23-25 | An empty table bound to the given generator. |
| Dispatchers.CoreDispatcher.ChannelRead0 | src/java/src/main/java/smf/core/Dispatcher.java:27-44 | The session leaves the table and is released on every path. A registered pending future is completed with the response body, and no other future changes. |
| Dispatchers.CoreDispatcher.AssignCallback | src/java/src/main/java/smf/core/Dispatcher.java:46-48 | The id now maps to the future, replacing any earlier entry. |
| Routing.FirstMatch | src/go/smf/server.go:24-31 | The index of the first service that recognises the id, with none before it recognising it. There is none exactly when no service recognises it. |
| Routing.Lookup | src/java/src/main/java/smf/server/core/RequestHandler.java:25-28 | `findFirst` over non-null handlers: nothing exactly when no service matches, otherwise the first matching service's handler. |
| Routing.LookupAppend | src/java/src/main/java/smf/server/core/RequestHandler.java:46-48 | Registering a service later never shadows an earlier one. An id that was unrouted goes to the new service if it recognises it. |
| JavaRequestHandler.Route | src/java/src/main/java/smf/server/core/RequestHandler.java:20-44 | `NoSuchElementException` exactly when no service has a handler for the meta. Otherwise the response reuses the request header unchanged and carries the first handler's result on the body. |
| JavaRequestHandler.RequestHandler.constructor | src/java/src/main/java/smf/server/core/RequestHandler.java:18 | No services registered. |
| JavaRequestHandler.RequestHandler.RegisterStorageService | src/java/src/main/java/smf/server/core/RequestHandler.java:46-48 | The service is appended; registration order is kept. |
| JavaRequestHandler.RequestHandler.ChannelRead0 | src/java/src/main/java/smf/server/core/RequestHandler.java:20-44 | The result is `Route` over the request's remaining body bytes. Without a handler the body is left unread; with one it is drained. |
| GoServer.Serve | src/go/smf/server.go:47-73 | There are never more replies than requests, and the loop ends on a failed receive exactly when every request got a reply. |
| GoServer.ServeReplies | src/go/smf/server.go:47-73 | The replies answer the first requests one for one. Each has the request's session, status 200 and the routed handler's response. The loop ends on a failed receive exactly when every request was answered. Otherwise the first unanswered request ended it because its method id is unknown or its handler failed. |
| GoServer.Server.constructor | src/go/smf/server.go:13-15 | No services. |
| GoServer.Server.RegisterService | src/go/smf/server.go:17-20 | `append`: registration order is kept. |
| GoServer.Server.MethodHandle | src/go/smf/server.go:22-32 | The loop with early return gives the first non-nil handle in registration order, or nil. |
| GoServer.Server.HandleConnection | src/go/smf/server.go:35-74 | The connection loop writes exactly the replies `ServeReplies` describes and returns its end. |
| RpcConnection.JoinError | src/include/smf/rpc_connection.h:57-65 | The first error is stored as it is. A later one is appended after " :: ", keeping the earlier history as a prefix and the new error as a suffix. |
| RpcConnection.ErrorAfter | src/include/smf/rpc_connection.h:57-65 | After at least one `set_error` there is an error; after none the state is unchanged. |
| RpcConnection.ErrorHistoryKept | src/include/smf/rpc_connection.h:63-64 | Errors are never lost: the history after some calls is a prefix of the history after more calls. |
| RpcConnection.Connection.constructor | src/include/smf/rpc_connection.h:77-78 | Enabled, no error, not at end of stream, no active parser. |
| RpcConnection.Connection.Disable | src/include/smf/rpc_connection.h:41-44 | The connection is disabled, so `is_valid` is false from then on. |
| RpcConnection.Connection.HasError | src/include/smf/rpc_connection.h:53-56 | True exactly when an error is stored. |
| RpcConnection.Connection.IsValid | src/include/smf/rpc_connection.h:49-52 | Valid exactly when enabled, without an error and not at end of stream. |
| RpcConnection.Connection.SetError | src/include/smf/rpc_connection.h:57-65 | The stored error becomes the joined history, and the connection is no longer valid. |
| RpcConnection.Connection.GetError | src/include/smf/rpc_connection.h:66-70 | "" when no error was set, otherwise the whole history. |
| RecvContext.Normalize | src/core/rpc_recv_context.cc:116-119 | `disabled` is rewritten to `none`; every other field and flag is unchanged. |
| RecvContext.ParseHeaderBytes | src/core/rpc_recv_context.cc:90-120 | A header is accepted exactly when the read returned 16 bytes, the size is non-zero, the signed compression is at most the maximum, and checksum and meta are non-zero. The accepted header is the decoded one, normalized. |
| RecvContext.ParsePayload | src/core/rpc_recv_context.cc:46-78 | A context is built exactly when the body length equals the header size, the size is at most 2^31 - 1, the payload-headers bit is clear and the checksum matches. The context satisfies `header.size() == payload.size()`. |
| RecvContext.ParseHeader | src/core/rpc_recv_context.cc:80-123 | A second active parser is refused up front. Otherwise the result is `ParseHeaderBytes` of the read. The active-parser counter ends as it began. |
| RecvContext.NegativeCompressionAccepted | src/core/rpc_recv_context.cc:104 | As written: a header with compression byte 0xFF (int8 -1) passes the range test and is accepted with a flag no codec knows. |
| RecvContext.ParseHeaderBytesCheckedFlags | src/core/rpc_recv_context.cc:104-107 | Corrected: an accepted header carries `none`, `zstd` or `lz4`. The corrected check agrees with the original on every compression byte below 0x80. |
| RpcClient.WorkItem.constructor | src/core/rpc_client.cc:96 | A slot for the session whose promise is still waiting. |
| RpcClient.CheckResponseCompression | src/core/rpc_client.cc:118-122 | A context still compressed after the incoming filters is refused; an uncompressed one passes unchanged. |
| RpcClient.Client.IsConnValid | src/core/rpc_client.cc:86 | A connection exists and is valid. |
| RpcClient.Client.constructor | src/core/rpc_client.cc:83 | No connection, session index and read counter 0, no slots. |
| RpcClient.Client.RawSend | src/core/rpc_client.cc:83-127 | An invalid connection is refused with nothing changed. Otherwise the u16 session index is incremented with wrap-around and the read counter raised. A taken slot is refused. A free one gets a fresh waiting work item, and the envelope is stamped with the new session. |
| RpcClient.Client.FailOutstandingFutures | src/core/rpc_client.cc:196-217 | A still-valid connection is disabled, and no other connection field changes. Every slot's promise fails with `remote_connection_error`, and the table is left empty. |
| RpcClient.Client.FailSlots | src/core/rpc_client.cc:210-216 | The drain loop fails every slot's promise and empties the table. |
| RpcClient.Client.FailWith | src/core/rpc_client.cc:226-227 | The error is appended to the connection, then every slot's promise fails and the table is emptied. The read counter, the session counter, the enabled flag, the end-of-stream flag and the parser count stay as they were. |
| RpcClient.Client.Deliver | src/core/rpc_client.cc:230-251 | A bad payload or an unknown session appends its error and fails every slot. A matching response fulfils and erases exactly its slot and lowers the read counter, with the connection's error left alone. The connection's flags never change. |
| RpcClient.Client.ProcessOneRequest | src/core/rpc_client.cc:219-254 | A bad header, a bad payload or an unknown session each append their error to the connection and fail every slot. A matching response fulfils and erases exactly its slot and lowers the read counter. A zero read counter or an interleaved parser are reported as errors, with the slots and the connection's error left as they were. No path disables the connection or touches its end-of-stream flag. |
| Interop.DecodePrefix | src/java/src/main/java/smf/server/core/RpcRequestDecoder.java:33-38 | Decoding copies of the first 16 bytes is decoding the buffer. |
| Interop.GoReplyAccepted | src/core/rpc_recv_context.cc:80-123 | A Go-built header for a non-empty body with non-zero checksum and meta passes `parse_header` with its fields intact, and the body then passes `parse_payload`. |
| Interop.JavaCallAccepted | src/core/rpc_recv_context.cc:46-123 | A Java call frame with non-zero checksum and meta passes both `parse_header` and `parse_payload`, which deliver its body. |
| NativeCompression.Lz4Compress | src/core/compression.cc:104-127 | A negative compressor result and a zero one (destination too small) throw. Exactly a positive one succeeds, with the 32-bit original length as a little-endian prefix followed by the compressed bytes. |
| NativeCompression.Lz4CompressBuffer | src/core/compression.cc:104-127 | Compressing at offset 4, `write_le` and `trim` produce exactly that frame. |
| NativeCompression.Lz4Uncompress | src/core/compression.cc:134-154 | The block after offset 4 is decoded to at most the prefixed length. A negative or zero result throws; a positive one returns the decoded bytes. |
| NativeCompression.Lz4RoundTrip | src/test/compressor/main.cc:42-55 | For a non-empty body, and given an lz4 library that round-trips, uncompress(compress(b)) == b. |
| NativeCompression.Lz4EmptyOriginalRejected | src/core/compression.cc:149-151 | A frame announcing length 0 is always rejected. |
| NativeCompression.ZstdCompress | src/core/compression.cc:66-88 | A zstd error code throws; otherwise the compressed bytes are returned. |
| NativeCompression.ZstdUncompress | src/core/compression.cc:37-59 | It succeeds exactly when the content size is known and the decoder produces that many bytes. An error size and an unknown size each throw their own message. |
| NativeCompression.ZstdRoundTrip | src/test/compressor/main.cc:42-55 | Given a zstd library that round-trips, uncompress(compress(b)) == b. |
| NativeCompression.MakeCodec | src/core/compression.cc:157-167 | Only `lz4` (0) and `zstd` (1) make a codec, of that kind and level. Any other value fails with "Cannot find codec". |
| NativeCompression.CodecRoundTrip | src/test/compressor/main.cc:42-55 | Every codec round-trips a non-empty body, given libraries that round-trip. |
| Filters.ChecksumRpc | src/core/zstd_filter.cc:30 | `checksum_rpc`: afterwards size and checksum describe the body; nothing else of the header changes. |
| Filters.FlagFor | src/core/lz4_filter.cc:29-30 | The flag a codec stamps is a compressed flag: lz4 for lz4, zstd for zstd. |
| Filters.CompressLetter | src/core/zstd_filter.cc:17-33 | An envelope already compressed, or with a body of at most `min_compression_size`, passes unchanged. Otherwise the body is compressed, the header gets the codec's flag and fresh size and checksum, and a codec failure propagates. |
| Filters.DecompressContext | src/core/zstd_filter.cc:35-45 | Only a context carrying the codec's flag is decompressed. It then gets flag `none` and fresh size and checksum. Any other context passes unchanged. |
| Filters.FilterRoundTrip | src/core/lz4_filter.cc:16-46 | An uncompressed letter whose header describes its body comes out of the incoming filter exactly as it went into the outgoing one, for either codec and any threshold. |
| Filters.Envelope.constructor | src/core/zstd_filter.cc:18 | An envelope holding the header and body. |
| Filters.Context.constructor | src/core/zstd_filter.cc:36 | A receive context holding the header and payload. |
| Filters.CompressInPlace | src/core/zstd_filter.cc:17-33 | The envelope's header and body are updated in place to `CompressLetter`'s result. On a codec failure they are left as they were. |
| Filters.DecompressInPlace | src/core/zstd_filter.cc:35-45 | The context's header and payload are updated in place to `DecompressContext`'s result. On a codec failure they are left as they were. |
| Filters.ZstdCompressionFilter | src/core/zstd_filter.cc:17-33 | The zstd outgoing filter, with the fastest zstd codec. |
| Filters.ZstdDecompressionFilter | src/core/zstd_filter.cc:35-45 | The zstd incoming filter. |
| Filters.Lz4CompressionFilter | src/core/lz4_filter.cc:16-34 | An absent envelope passes; a present one is filtered like the zstd one, with lz4. |
| Filters.Lz4DecompressionFilterAsWritten | src/core/lz4_filter.cc:36-48 | As written: every present context that is not refused reaches the end of the function without returning. |
| Filters.Lz4DecompressionFilter | src/core/lz4_filter.cc:36-48 | Corrected: an absent context passes; a present one is returned after `DecompressContext`. |
| Backoff.LadderSorted | src/include/smf/reconnect_client.h:78-84 | The clamp table is strictly increasing. |
| Backoff.ClampFromLeast | src/include/smf/reconnect_client.h:85-91 | The scan lands on a rung. It is the least rung at least its input, or the maximum above the table. |
| Backoff.NextBackoff | src/include/smf/reconnect_client.h:72-93 | `++b` yields one of the table values, strictly above `b` whenever `b` is below the maximum. |
| Backoff.NextBackoffRung | src/include/smf/reconnect_client.h:72-93 | `++b` always yields one of the 11 table values. Below the maximum it strictly increases to the next rung; at or above the maximum (short of the u16 wrap) it stays at 1800. |
| Backoff.RungOrder | src/include/smf/reconnect_client.h:78-84 | Rungs are ordered as their positions. |
| Backoff.NextBackoffClimbs | src/include/smf/reconnect_client.h:74-90 | From a rung, `++` climbs exactly one rung, and the top rung stays put. |
| Backoff.AfterFailuresRung | src/include/smf/reconnect_client.h:105-110 | After k failures in a row from `none`, the back-off is rung min(k, 10): one failure gives `wait_1_sec`. |
| Backoff.Increment | src/include/smf/reconnect_client.h:72-93 | The increment and the table loop compute exactly `NextBackoff`. |
| Backoff.ReconnectClient.constructor | src/include/smf/reconnect_client.h:66 | The back-off starts at `none`. |
| Backoff.ReconnectClient.Connect | src/include/smf/reconnect_client.h:94-118 | A valid client or a closed gate does nothing. A successful reconnect resets the back-off to `none`. A failure raises it by one `++` and sleeps that many seconds plus `rand % 100` milliseconds. |
| ClockLists.Keys | src/utils/caching/clock_pro/clock_list.h:134 | The key set contains the key of every chunk in the list. |
| ClockLists.RemoveAt | src/utils/caching/clock_pro/clock_list.h:95 | `erase(it)`: the list without that one element, the others in order. |
| ClockLists.RemoveAtKeys | src/utils/caching/clock_pro/clock_list.h:92-95 | Erasing a chunk keeps keys distinct, and the key set loses exactly that key. |
| ClockLists.KeysAdded | src/utils/caching/clock_pro/clock_list.h:39-49 | Joining two lists with disjoint key sets keeps keys distinct and unites the key sets. |
| ClockLists.Offset | src/utils/caching/clock_pro/clock_list.h:114-117 | The distance the hand travels from its start to a position, wrapping at the end, is below the size. |
| ClockLists.ClockList.constructor | src/utils/caching/clock_pro/clock_list.h:29 | Empty, with the hand at `end()`. |
| ClockLists.ClockList.Size | src/utils/caching/clock_pro/clock_list.h:66-69 | The number of chunks. |
| ClockLists.ClockList.Contains | src/utils/caching/clock_pro/clock_list.h:53-55 | The index lookup is true exactly when some chunk of the list has the key, so `lookup` and `allocated` agree. |
| ClockLists.ClockList.IndexOf | src/utils/caching/clock_pro/clock_list.h:58-62 | For a held key, the position of the chunk with that key. |
| ClockLists.ClockList.EmplaceBack | src/utils/caching/clock_pro/clock_list.h:39-42 | The chunk is appended and indexed, so size grows by one and `contains` holds. A hand at `end()` stays at `end()`. |
| ClockLists.ClockList.EmplaceFront | src/utils/caching/clock_pro/clock_list.h:46-49 | The chunk is prepended and indexed, and the hand keeps pointing at the same chunk. |
| ClockLists.ClockList.FixHand | src/utils/caching/clock_pro/clock_list.h:101-105 | The hand moves to `begin()` only when the list is non-empty and the hand is at `end()`. |
| ClockLists.ClockList.Touch | src/utils/caching/clock_pro/clock_pro.h:165-166 | `get(k)->ref = true`: the chunk with that key gets its bit set; nothing else changes. |
| ClockLists.ClockList.HandCold | src/utils/caching/clock_pro/clock_list.h:75-97 | An empty list yields nothing and is unchanged. Otherwise the chunk under the hand (wrapped to the front) is always removed from the list and the index. It is returned exactly when its bit was set. |
| ClockLists.ClockList.TakeAt | src/utils/caching/clock_pro/clock_list.h:92-95 | `it = hand; ++hand; erase(it)`: the chunk leaves list and index, and the hand stands on its successor. |
| ClockLists.ClockList.TakeUnreferenced | src/utils/caching/clock_pro/clock_list.h:118-125 | The scan's stop: the first clear chunk leaves list and index and is returned. |
| ClockLists.ClockList.HandHot | src/utils/caching/clock_pro/clock_list.h:110-131 | At most `size()` steps from the hand, clearing each set bit passed. The first clear chunk is removed and returned, or nothing if every bit was set. The index loses exactly the returned key. |
| ClockLists.HotScan | src/utils/caching/clock_pro/clock_list.h:114-129 | The loop stops at the first clear chunk in hand order, having cleared exactly the bits before it. Without a stop, every chunk was set and is now cleared. |
| ClockLists.FoundResult | src/utils/caching/clock_pro/clock_list.h:118-125 | The removal after a stop leaves distinct keys, loses only the returned key, and is the outcome `HandHot` promises. |
| ClockLists.NotFoundResult | src/utils/caching/clock_pro/clock_list.h:126-130 | A full turn without a stop keeps every key and returns nothing. |
| ClockLists.Cleared | src/utils/caching/clock_pro/clock_list.h:126-127 | After `steps` steps from the hand, exactly the chunks passed have a clear bit; the others are unchanged. |
| ClockLists.HotScanUnique | src/utils/caching/clock_pro/clock_list.h:118-125 | There is only one first clear chunk, so the outcome of `hand_hot` is determined. |
| ClockLists.KeysCleared | src/utils/caching/clock_pro/clock_list.h:126-127 | Clearing bits changes no key. |
| ClockPro.ClockProCache.constructor | src/utils/caching/clock_pro/clock_pro.h:117 | Two empty lists and zeroed statistics. |
| ClockPro.ClockProCache.Size | src/utils/caching/clock_pro/clock_pro.h:125 | Hot count plus cold count. |
| ClockPro.ClockProCache.Contains | src/utils/caching/clock_pro/clock_pro.h:153-155 | Present in either list's index. |
| ClockPro.ClockProCache.GetChunk | src/utils/caching/clock_pro/clock_pro.h:156-160 | The chunk with the key, asked of the hot list first. An absent key throws. |
| ClockPro.ClockProCache.RunColdHand | src/utils/caching/clock_pro/clock_pro.h:128-142 | The cold chunk under the hand always leaves the cold list. A referenced one moves to the front of the hot list and counts `cold_to_hot`; the size never grows. |
| ClockPro.ClockProCache.RunHotHand | src/utils/caching/clock_pro/clock_pro.h:144-151 | The hot hand's demoted chunk, if any, goes to the back of the cold list and counts `hot_to_cold`; the size is unchanged. |
| ClockPro.ClockProCache.GetPage | src/utils/caching/clock_pro/clock_pro.h:161-177 | A held key gets its bit set in the list holding it, hot first, and counts `hot_hits` or `cold_hits`. An absent key throws and changes nothing. |
| ClockPro.ClockProCache.SetAsWritten | src/utils/caching/clock_pro/clock_pro.h:181-188 | As written: refused only when the size already exceeds `max_pages`. Otherwise the new chunk, clear, goes to the back of the cold list and counts `total_allocation`. |
| ClockPro.ClockProCache.Set | src/utils/caching/clock_pro/clock_pro.h:181-188 | Corrected: refused when the new page would exceed `max_pages` (as `force_add_*` test it), so the size bound is preserved. |
| ClockPro.ClockProCache.SetChunk | src/utils/caching/clock_pro/clock_pro.h:179 | `set(chunk)`: appended to the cold list without any check. |
| ClockPro.ClockProCache.FixHands | src/utils/caching/clock_pro/clock_pro.h:190-193 | Both hands are fixed as `fix_hand` does. |
| ClockPro.ClockProCache.ForceAddHotChunk | src/utils/caching/clock_pro/clock_pro.h:195-201 | It throws exactly when size + 1 > `max_pages`. Otherwise the chunk goes to the back of the hot list, so the size bound is kept. |
| ClockPro.ClockProCache.ForceAddColdChunk | src/utils/caching/clock_pro/clock_pro.h:202-208 | The same for the cold list. |
| ClockProScenarios.FirstHotRunDemotes24 | src/test/clock_pro/main.cc:76-77 | The first hot run of the test demotes 24 and leaves the hot list the last run starts from. |
| ClockProScenarios.LastHotRunStop | src/test/clock_pro/main.cc:86-90 | The last hot run passes 23 and 22 and stops on 21. |
| ClockProScenarios.LastHotRunClearsTwo | src/test/clock_pro/main.cc:86-90 | After it, 23 and 22 are still hot with clear bits, and 21 has left the hot list. |
| ClockProScenarios.EvictFive | src/test/clock_pro/main.cc:63-67 | `run_cold_hand` on the test's cold list evicts 5. |
| ClockProScenarios.PromoteFour | src/test/clock_pro/main.cc:74-75 | The next cold run promotes the referenced 4 to the front of the hot list. |
| ClockProScenarios.DemoteTwentyFour | src/test/clock_pro/main.cc:76-82 | `run_hot_hand` moves 24 to the back of the cold list. |
| ClockProScenarios.ClearTwentyThreeAndTwentyTwo | src/test/clock_pro/main.cc:86-90 | The last run clears 23 and 22 and demotes 21. |
| ClockProScenarios.SetOverfills | src/utils/caching/clock_pro/clock_pro.h:181-182 | As written: `set` on a full cache succeeds and breaks the `max_pages` bound. |
| PageAlloc.BumpAllocator.constructor | src/filesystem/page_cache_bucket_allocator.h:21-23 | A fresh buffer with nothing handed out or returned. |
| PageAlloc.BumpAllocator.IsEmpty | src/filesystem/page_cache_bucket_allocator.h:58-60 | Nothing handed out yet. |
| PageAlloc.BumpAllocator.IsFull | src/filesystem/page_cache_bucket_allocator.h:63-65 | The whole 256 KiB buffer has been handed out. |
| PageAlloc.BumpAllocator.IsEvictable | src/filesystem/page_cache_bucket_allocator.h:71-73 | Nothing handed out, or every byte handed back. |
| PageAlloc.BumpAllocator.Evict | src/filesystem/page_cache_bucket_allocator.h:76-79 | Both counters reset, so the allocator is empty and evictable. |
| PageAlloc.BumpAllocator.Alloc | src/filesystem/page_cache_bucket_allocator.h:50-55 | A full allocator throws. Otherwise it returns the current offset and advances by a page. The page is aligned and inside the buffer. |
| PageAlloc.BumpAllocator.DeallocAsWritten | src/filesystem/page_cache_bucket_allocator.h:34-47 | As written: in a debug build, any pointer past `data() + page_size` is refused. |
| PageAlloc.BumpAllocator.Dealloc | src/filesystem/page_cache_bucket_allocator.h:34-47 | Corrected: a pointer inside the buffer is accepted. Each accepted call adds a page to the returned count and a refused one changes nothing. |
| PageAlloc.FillFresh | src/filesystem/page_cache_bucket_allocator.h:50-55 | Filling a fresh allocator hands out the pages 0, ps, 2ps, ... and leaves it full. |
| PageAlloc.ThirdPageRefused | src/filesystem/page_cache_bucket_allocator.h:44-45 | As written, the third 4096-byte page of a buffer is refused on return; the corrected check accepts it. |
| PageAlloc.Dispose | src/filesystem/page_cache_bucket_allocator.h:116-119 | `page::dispose` hands the page back through `dealloc` as written. A debug build refuses it exactly when it starts past `data() + page_size`, and then nothing changes. Otherwise the page's own allocator counts one more page returned. |
| PageAlloc.FirstEvictable | src/filesystem/page_cache_bucket_allocator.h:204-205 | The first evictable allocator from a position on, with none before it, or the end when there is none. |
| PageAlloc.SwapPop | src/filesystem/page_cache_bucket_allocator.h:206-208 | Swap with the last and pop: one element fewer, the same multiset minus that element, the last moved into its place. |
| PageAlloc.ReclaimOne | src/filesystem/page_cache_bucket_allocator.h:203-212 | `reclaim_one` drops the first evictable allocator by swap-and-pop, or changes nothing when none is evictable. |
| PageAlloc.BucketAllocator.constructor | src/filesystem/page_cache_bucket_allocator.h:127-133 | No allocators, with the given budget bounds. |
| PageAlloc.BucketAllocator.UsedBytes | src/filesystem/page_cache_bucket_allocator.h:195-197 | Every allocator counts a whole buffer, used or not. |
| PageAlloc.BucketAllocator.SetMaxBytes | src/filesystem/page_cache_bucket_allocator.h:147-149 | The budget becomes the new value. |
| PageAlloc.BucketAllocator.Alloc | src/filesystem/page_cache_bucket_allocator.h:151-192 | As written. `bad_alloc` exactly when sz does not divide 4096, and no allocator exactly for the other divisors. Memory full exactly when, on entry, the size's last allocator is full and the budget is spent. No other error occurs. A page comes from the last allocator of the size's vector, aligned and in bounds. That vector is unchanged or gains one fresh allocator. The other vector is unchanged. No allocator other than the page's own changes. |
| PageAlloc.BucketAllocator.AllocReclaiming | src/filesystem/page_cache_bucket_allocator.h:151-192 | Corrected: `alloc` with the corrected `reclaim`. It has the same three errors under the same size conditions. Memory full means the last allocator is full and the budget is spent after reclaiming. A page comes from the last allocator of the size's vector, aligned and in bounds. Usage grows by at most one buffer. |
| PageAlloc.BucketAllocator.ReclaimAsWritten | src/filesystem/page_cache_bucket_allocator.h:199-219 | As written: `reclaim` leaves both vectors as they were. |
| PageAlloc.BucketAllocator.AllocAfterReclaim | src/filesystem/page_cache_bucket_allocator.h:179-191 | The switch on the page size after reclaiming. A size other than 512 and 4096 has no allocator. Memory full exactly when the size's last allocator is full and the budget is spent, and no other error occurs. Otherwise the page is aligned and comes from the vector's last allocator. Only that vector changes, by at most one fresh allocator, and no allocator other than the page's own changes. |
| PageAlloc.BucketAllocator.Reclaim | src/filesystem/page_cache_bucket_allocator.h:199-219 | Corrected: a no-op within budget. Over budget it drops only evictable allocators. It ends within budget or with nothing evictable left in either vector. |
| PageAlloc.GetAlloc | src/filesystem/page_cache_bucket_allocator.h:161-176 | It refuses exactly when the last allocator is full and the budget is spent. Otherwise it returns the vector's last allocator, which is not full: either the old last one or a fresh one appended to the vector. |
| PageAlloc.AllocPage | src/filesystem/page_cache_bucket_allocator.h:182-191 | `get_alloc(vec)->alloc()`: an aligned in-bounds page of the vector's last allocator. |
| PageAlloc.ReclaimLoop | src/filesystem/page_cache_bucket_allocator.h:213-218 | Corrected loop: it drops only evictable allocators and ends within budget or with none evictable. |
| PageAlloc.ReturnedAllocator | src/filesystem/page_cache_bucket_allocator.h:34-79 | Once every page of a full allocator has come back, it is evictable. |
| PageAlloc.EvictableKeptAsWritten | src/filesystem/page_cache_bucket_allocator.h:199-219 | As written: with a budget of one buffer, a full 512 allocator that got nothing back and a full 4096 allocator that got everything back, `alloc(4096)` runs out of memory. |
| PageAlloc.EvictableDroppedCorrected | src/filesystem/page_cache_bucket_allocator.h:151-219 | Corrected: from that same state, reclaiming and then switching on the size hands out a page. |
| PageAlloc.KeptUnlessEvictable | src/filesystem/page_cache_bucket_allocator.h:203-212 | An allocator that is not evictable survives reclamation. |
| PageAlloc.DropsTheOnlyOne | src/filesystem/page_cache_bucket_allocator.h:203-212 | A vector holding one evictable allocator is empty once nothing evictable is left. |
| PageAlloc.ReclaimAsWrittenNeverIterates | src/filesystem/page_cache_bucket_allocator.h:215 | As written: whenever `reclaim` gets past its early return, the loop condition is already false. |
| PageAlloc.ReclaimGuard | src/filesystem/page_cache_bucket_allocator.h:213-215 | Corrected: over budget, with allocators left to visit, the guard is the opposite of the written one, so the loop runs. |
| PageAlloc.ReclaimStep | src/filesystem/page_cache_bucket_allocator.h:216-217 | One `reclaim_one`: it drops one evictable allocator if there is one. |
| PageAlloc.DropsOneMore | src/filesystem/page_cache_bucket_allocator.h:206-208 | Dropping one more evictable allocator keeps "only evictable ones were dropped". |
| WalChunk.Chunk.constructor | src/filesystem/wal_segment.h:20-22 | A buffer of `alignment` bytes with nothing written. |
| WalChunk.Chunk.IsFull | src/filesystem/wal_segment.h:24-27 | Full exactly when no space is left. |
| WalChunk.Chunk.SpaceLeft | src/filesystem/wal_segment.h:28-31 | Space left and position add up to the size. |
| WalChunk.Chunk.Append | src/filesystem/wal_segment.h:37-43 | It copies min(sz, space_left) bytes after `pos`, advances `pos` by that count and returns it. The rest of the buffer is untouched. |
| WalChunk.Chunk.ZeroTail | src/filesystem/wal_segment.h:45-48 | Bytes [pos, size) become 0; bytes [0, pos) are unchanged. |
| WalChunk.Appended | src/filesystem/wal_segment.h:37-43 | Appending keeps what was written as a prefix and never exceeds the size. Either everything fits or the chunk is full. |
| WalChunk.AppendedConcat | src/filesystem/wal_segment.h:37-43 | Two appends write the same as one append of both. |
| PrinterText.Find | src/smfc/smf_printer.h:19-21 | `find`: a position at or after `from` holding the character. |
| PrinterText.FindFirst | src/smfc/smf_printer.h:19-21 | It is the first such position, or there is none. |
| PrinterText.FindSkip | src/smfc/smf_printer.h:21 | A search may skip a stretch without the character. |
| PrinterText.Placeholder | src/smfc/smf_printer.h:19-26 | A placeholder is a pair of escapes enclosing a known name. |
| PrinterText.SubstituteOnce | src/smfc/smf_printer.h:19-28 | One replacement happens exactly when a placeholder is found. The unscanned text after it shrinks, which bounds the corrected loop. |
| PrinterText.SubstituteAsWritten | src/smfc/smf_printer.h:19-29 | The loop as written, where each search restarts at position 0 and `None` means it did not stop within the bound. A template with no placeholder comes back unchanged after one search. |
| PrinterText.AsWrittenStopsClean | src/smfc/smf_printer.h:19-29 | When the loop as written stops, no placeholder is left to find from the start of its result. |
| PrinterText.SelfReferenceDiverges | src/smfc/smf_printer.h:19-29 | As written: with `a` mapped to `$a$`, the template `$a$` never finishes, for any bound on the steps. |
| PrinterText.SelfReferenceExpandsOnce | src/smfc/smf_printer.h:19-29 | Corrected: the same template expands once to `$a$`. |
| PrinterText.ExpandFrom | src/smfc/smf_printer.h:19-29 | The corrected loop resumes each search just past the value it put in. The text before its starting point is never rewritten. |
| PrinterText.AgreesWithoutEscapesInValues | src/smfc/smf_printer.h:19-29 | When no value contains the escape character, the loop as written ends and gives exactly the corrected expansion. |
| PrinterText.ExpandTemplate | src/smfc/smf_printer.h:15-29 | The replace loop computes the corrected expansion of the C string template. |
| PrinterText.CString | src/smfc/smf_printer.h:15 | The text up to the first NUL: a prefix without NUL, ended by the NUL when shorter. |
| PrinterText.Body | src/smfc/smf_printer.h:36-49 | The printed text is never shorter than its input. |
| PrinterText.DedentIndented | src/smfc/smf_printer.h:36-49 | Removing the indentation from every printed line gives back the input. |
| PrinterText.IndentedLine | src/smfc/smf_printer.h:40-44 | A line feed ends a line with its indentation; the text after it continues on an indented line, unless it is at the end. |
| SmfPrinter.Printer.constructor | src/smfc/smf_printer.h:10-82 | The defaults: the given escape, empty output, level 0, indent character ' ', step 2. |
| SmfPrinter.Printer.Indentation | src/smfc/smf_printer.h:38 | `indent_ * indent_step_` copies of the indent character. |
| SmfPrinter.Printer.Print | src/smfc/smf_printer.h:33-50 | It appends the text up to its first NUL, with the current indentation before every line. No indentation follows a final line feed. |
| SmfPrinter.Printer.PrintTemplate | src/smfc/smf_printer.h:12-31 | It appends the corrected expansion of the template, printed as `print(s.c_str())` prints. |
| SmfPrinter.Printer.Indent | src/smfc/smf_printer.h:52-55 | The level rises by one. |
| SmfPrinter.Printer.Outdent | src/smfc/smf_printer.h:56-60 | The level falls by one and stays non-negative. |
| SmfPrinter.Printer.SetIndentChar | src/smfc/smf_printer.h:69-72 | The indent character is replaced. |
| SmfPrinter.Printer.SetIndentStep | src/smfc/smf_printer.h:73-76 | The indent step is replaced by a 16-bit value. |
| CppNames.HighNibble | src/smfc/cpp_generator.cc:30 | `(c >> 4) & 0xf` on the signed char is the byte's high nibble. |
| CppNames.LowNibble | src/smfc/cpp_generator.cc:31 | `c & 0xf` is the byte's low nibble. |
| CppNames.HexDigit | src/smfc/cpp_generator.cc:28 | The `hex` table gives a digit or a lower-case letter a-f. |
| CppNames.Escape | src/smfc/cpp_generator.cc:22-32 | One byte becomes 1 to 3 identifier characters. |
| CppNames.FileNameIdentifier | src/smfc/cpp_generator.cc:18-35 | The loop builds exactly the mangled name: alnum upper-cased, '_' kept, any other byte as '_' followed by two lower-case hex digits. |
| CppNames.IdentifierAlphabet | src/smfc/cpp_generator.cc:18-35 | The mangled name uses only upper-case letters, digits, '_' and a-f, and is 1 to 3 times as long as the file name. |
| CppNames.IdentifierConcat | src/smfc/cpp_generator.cc:21-33 | Mangling works byte by byte: the name of a concatenation is the concatenation of the names. |
| CppNames.IdentifierOfWord | src/smfc/cpp_generator.cc:23-26 | A name of letters, digits and '_' is just upper-cased. |
| CppNames.CaseCollision | src/smfc/cpp_generator.cc:23-24 | `a.h` and `A.h` give the same guard `A_2eH`. |
| CppNames.EscapeCollision | src/smfc/cpp_generator.cc:25-31 | `_12` and the single byte 0x12 give the same guard `_12`. |
| CppNames.IsCamelCase | src/smfc/cpp_generator.cc:37-40 | True exactly when some character is upper-case. |
| CppNames.LowerVec | src/smfc/cpp_generator.cc:42-53 | The two loops give the concatenation of the parts with every upper-case letter lowered. |
| CppNames.LoweredFacts | src/smfc/cpp_generator.cc:49-51 | Lowering keeps the length and every non-upper-case character, is idempotent, and never leaves camel case. |
| CppNames.CapitalizeFacts | src/smfc/cpp_generator.cc:59-60 | `s[0] = toupper(s[0])` keeps the length and the lowered text, and keeps camel case. |
| CppNames.PostfixToken | src/smfc/cpp_generator.cc:55-64 | The result is camel case exactly when `s` is. In camel case it has the length of `s` plus `postfix` and lowers to `s + postfix`. It is `s` with its head upper-cased, then `postfix` with its head upper-cased, and every other character unchanged. Otherwise it is lower(s) + "_" + lower(postfix). |
| CppNames.PrefixToken | src/smfc/cpp_generator.cc:66-75 | The same rule with the prefix first, judged by the camel case of `s`. In camel case it is `prefix` with its head upper-cased, then `s` with its head upper-cased, and every other character unchanged. |

## Left out

- I/O, futures and concurrency. Seastar streams, Netty pipelines, Go connections, timers and sleeps are left out, and concurrent maps are modelled sequentially. Each operation is modelled on the bytes a read returned, and on what a write would send.
- xxhash64, zstd and lz4 are parameters. Their correctness is a hypothesis of each round-trip lemma.
- The schema file rpc.fbs is not part of this model. The flag values `none` = 0, `disabled` = 1, `zstd` = 2, `lz4` = 3 (maximum 3) and `has_payload_headers` = 1 are assumed from its uses.
- `checksum_rpc` (rpc_header_utils.h) is not part of this model. `Filters.ChecksumRpc` assumes it sets size and checksum from the body.
- JavaBuffers.ByteBuf: capacity, growth and reference counting are left out, because the decoders never reach them.
- ClockLists.ClockList.EmplaceBack: requires the key to be absent, because a duplicate in the intrusive index would split list and index. The same holds for EmplaceFront and for the ClockPro insertion methods.
- ClockPro.ClockProCache.GetChunk: the pointer it returns is modelled as the chunk's value.
- Statistics counters and `max_pages` are unbounded naturals. The u64 and u32 overflow is left out.
- NativeCompression.Lz4Uncompress: requires at least 4 bytes. The source reads the prefix unconditionally, which is undefined behaviour on shorter input.
- PageAlloc.BumpAllocator.Dealloc: pointers are modelled as offsets into the buffer. The debug thread-id check is left out. The debug-only range check is a `debug` parameter.
- PageAlloc.BucketAllocator.Alloc: requires `sz > 0`, because `4096 % 0` is undefined behaviour. Its `min_bytes` alignment assertions are debug-only and left out. The same holds for AllocReclaiming.
- PageAlloc.BucketAllocator.AllocReclaiming: does not state the vectors it leaves, because the allocators the corrected `reclaim` drops are known only in the state between `reclaim` and `get_alloc`. Reclaim states them.
- PageAlloc.Dispose: the debug build's pointer check follows `dealloc` as written. The corrected check is Dealloc.
- RpcClient.Client.RawSend: the debug-only slot check is modelled as always on. The outgoing filter stage and the concurrent write are left out.
- RpcClient.Client.ProcessOneRequest: the debug-only counter assertion is an error result. It is tested before the payload is parsed, which has no effect here because parsing changes no state.
- RecvContext.ParseHeader: the debug-only interleaving check is an error result.
- Backoff.ReconnectClient.Connect: the random jitter is a parameter. The sleep and the recursive retry are left out.
- SmfPrinter.Printer.PrintTemplate: expands with the corrected loop; the as-written loop is SubstituteAsWritten.
- Backoff.NextBackoffRung: states nothing for the value 0xFFFF, whose successor wraps to `none` in the 16-bit cast.
- GoServer.Server.HandleConnection: errors of `WritePayload` and `Flush` are left out, because the writer is I/O. The deferred flush and close are left out too.
- SmfPrinter.Printer.Outdent: the debug assertion `indent_ >= 0` is a requires. The `int32_t` level and the product of indentation width are unbounded.
- PrinterText.SubstituteAsWritten: bounded by a step count, because the loop as written need not terminate (see Findings).
- CppNames: characters are bytes below 0x100. `isalnum`, `toupper` and `tolower` follow the C locale. `isalnum` of a negative `char` is undefined behaviour and is modelled on the byte's value.
- CppNames.PostfixToken: the `CHECK` is a requires. An empty string's head is the NUL terminator, so it stays as it is.
- The rest of the code generator is left out. This covers cpp_generator.cc's `print_header_*` printers (`print_header_service`, `print_header_client` and their helpers) and every smfc generator other than cpp_generator's name helpers. The `smf_printer` buffer they write to is modelled in printer.dfy.
- Left out for length: the vector clock of src/filesystem/clock_pro.h, `go_public_name`, `estimate_request_size`, the max-merge of `set_reply_partition_tuple`, `rpc_filter_apply`, and the Go client's u16 session increment.

## Findings

| source | as written | input that shows it | evidently intended | confidence | as-written member | corrected member |
|---|---|---|---|---|---|---|
| src/java/src/main/java/smf/core/SessionIdGenerator.java:43 | `incrementAndGet() % 65536` with Java's truncating `%` on a wrapping `int` | the counter at `Integer.MIN_VALUE` gives id -65535 | ids in [0, 65536), as the 16-bit session field needs | not executed | SessionIds.JavaRemGivesNegativeId | SessionIds.NextInRange |
| src/java/src/main/java/smf/client/core/RpcResponseDecoder.java:50-51 | the body is every readable byte, not `header.size()` bytes | a frame split across two reads, or two frames in one read | cut `header.size()` body bytes and postpone a partial frame, as the request decoder does | not executed | JavaDecoders.ResponseStepConsumesPartialFrame, JavaDecoders.ResponseStepSwallowsNextFrame | JavaDecoders.ResponseStepSized, JavaDecoders.ResponseStepSizedCutsFrame, JavaDecoders.ResponseStepSizedFrames |
| src/core/rpc_recv_context.cc:104 | the `int8` compression is compared with `> compression_flags_MAX` | compression byte 0xFF reads as -1 and is accepted | refuse every flag outside 0..MAX | not executed; low, as it depends on the generated accessor's signedness | RecvContext.NegativeCompressionAccepted | RecvContext.ParseHeaderBytesCheckedFlags |
| src/core/lz4_filter.cc:47-48 | after the lz4 branch, only a null context returns | any present context falls off the end of a function returning a future | return the context | not executed | Filters.Lz4DecompressionFilterAsWritten | Filters.Lz4DecompressionFilter |
| src/utils/caching/clock_pro/clock_pro.h:182 | `set(k, v)` refuses only when `size() > max_pages` | `set` on a cache holding exactly `max_pages` pages succeeds | refuse at `size() + 1 > max_pages`, as `force_add_*` do | not executed | ClockPro.ClockProCache.SetAsWritten, ClockProScenarios.SetOverfills | ClockPro.ClockProCache.Set |
| src/filesystem/page_cache_bucket_allocator.h:44-45 | the debug check refuses `ptr > data() + page_size` | returning the third 4096-byte page of a buffer | refuse pointers outside the whole buffer | not executed | PageAlloc.BumpAllocator.DeallocAsWritten, PageAlloc.ThirdPageRefused, PageAlloc.Dispose | PageAlloc.BumpAllocator.Dealloc |
| src/filesystem/page_cache_bucket_allocator.h:215 | the loop runs while `used_bytes() <= max_bytes_` | any over-budget call: past the early return the condition is false at once | loop while over budget | not executed | PageAlloc.ReclaimAsWrittenNeverIterates, PageAlloc.BucketAllocator.ReclaimAsWritten, PageAlloc.BucketAllocator.Alloc, PageAlloc.EvictableKeptAsWritten | PageAlloc.ReclaimGuard, PageAlloc.BucketAllocator.Reclaim, PageAlloc.BucketAllocator.AllocReclaiming, PageAlloc.EvictableDroppedCorrected |
| src/smfc/smf_printer.h:19-29 | each search restarts at the beginning of the substituted text | vars `{"a": "$a$"}` with template `$a$` loops for ever | substitute each placeholder once and continue after its value | not executed | PrinterText.SubstituteAsWritten, PrinterText.SelfReferenceDiverges | PrinterText.SelfReferenceExpandsOnce, PrinterText.AgreesWithoutEscapesInValues, SmfPrinter.Printer.PrintTemplate |
