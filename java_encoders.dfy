/** The three Java encoders. Each computes the header fields of a frame,
    lets a flatbuffers builder lay the struct out, copies the 16 struct
    bytes out of the finished builder (skipping its 4-byte root offset) and
    writes them, then the body, into a fresh `ByteBuf`. */
module JavaEncoders {
  import opened Wire
  import opened Wrappers
  import opened FrameHeader
  import opened JavaBuffers
  import opened JavaCompression

  /** A Java `byte`. */
  type JavaByte = x: int | -128 <= x < 128

  /** What the client hands to `RpcRequestEncoder`. */
  datatype PreparedRpcRequest = PreparedRpcRequest(
    sessionId: int, methodMeta: int, body: Bytes, compression: JavaByte)

  /** What `RpcCallEncoder` encodes. */
  datatype RpcCall = RpcCall(sessionId: int, methodMeta: int, body: Bytes)

  /** What a server handler hands to `RpcResponseEncoder`: the request's
      header and the (not yet compressed) response body. */
  datatype RpcResponse = RpcResponse(header: Header, body: Bytes)

  /** The header every encoder builds for an already compressed body. */
  function FrameHeaderFor(xx: XxHash64, compression: int, session: int, meta: int, body: Bytes): Header
  {
    CreateHeader(compression, 0, session, |body|, Checksum(xx, body), meta)
  }

  /** Header bytes then body. */
  function Frame(xx: XxHash64, compression: int, session: int, meta: int, body: Bytes): (r: Bytes)
    ensures |r| == HeaderSize + |body| && r[HeaderSize..] == body
    ensures var h := Decode(r);
      h == FrameHeaderFor(xx, compression, session, meta, body)
      && h.bitflags == 0 && h.size == |body| % 0x1_0000_0000
      && h.checksum == Checksum(xx, body)
  {
    var h := FrameHeaderFor(xx, compression, session, meta, body);
    FinishedStructBytes(h);
    DecodeEncode(h, body);
    FinishedBytes(h)[4..] + body
  }

  /** `RpcRequestEncoder.encode`: the body is compressed with the request's
      flag first; size and checksum describe the compressed bytes. */
  function RequestFrame(c: JavaCodecs, xx: XxHash64, msg: PreparedRpcRequest): (r: Result<Bytes, CompressionError>)
    requires IsJavaLength(|msg.body|)
  {
    match CompressBody(c, msg.compression, msg.body)
    case Err(e) => Err(e)
    case Ok(body) => Ok(Frame(xx, msg.compression, msg.sessionId, msg.methodMeta, body))
  }

  /** `RpcResponseEncoder.encode`: compression flag, session and method id
      come from the request's header; the bit flags are reset to 0. */
  function ResponseFrame(c: JavaCodecs, xx: XxHash64, msg: RpcResponse): (r: Result<Bytes, CompressionError>)
    requires IsJavaLength(|msg.body|)
  {
    var flag := msg.header.CompressionSigned();
    match CompressBody(c, flag, msg.body)
    case Err(e) => Err(e)
    case Ok(body) => Ok(Frame(xx, flag, msg.header.session, msg.header.meta, body))
  }

  /** `RpcCallEncoder.encode`: the body goes out uncompressed, flag 0. */
  function CallFrame(xx: XxHash64, msg: RpcCall): (r: Bytes)
  {
    Frame(xx, 0, msg.sessionId, msg.methodMeta, msg.body)
  }

  /** The header of any frame, field by field. */
  lemma FrameHeaderFields(xx: XxHash64, compression: int, session: int, meta: int, body: Bytes)
    ensures Decode(Frame(xx, compression, session, meta, body))
      == Header(compression % 0x100, 0, session % 0x1_0000, |body| % 0x1_0000_0000,
                Checksum(xx, body), meta % 0x1_0000_0000)
  {
  }

  /** The frame's layout, for the request encoder: a header whose size and
      checksum describe the compressed body, session, method id and flag
      narrowed to their field widths, then the compressed body. */
  lemma RequestFrameLayout(c: JavaCodecs, xx: XxHash64, msg: PreparedRpcRequest)
    requires IsJavaLength(|msg.body|) && IsSupported(msg.compression)
    ensures var f := RequestFrame(c, xx, msg); var body := CompressBody(c, msg.compression, msg.body).value;
      f.Ok? && |f.value| == HeaderSize + |body| && f.value[HeaderSize..] == body
      && Decode(f.value) == Header(msg.compression, 0, msg.sessionId % 0x1_0000,
           |body| % 0x1_0000_0000, Checksum(xx, body), msg.methodMeta % 0x1_0000_0000)
  {
    var body := CompressBody(c, msg.compression, msg.body).value;
    FrameHeaderFields(xx, msg.compression, msg.sessionId, msg.methodMeta, body);
  }

  /** The response keeps the request header's session, method id and
      compression flag; nothing else of it survives. */
  lemma ResponseFrameLayout(c: JavaCodecs, xx: XxHash64, msg: RpcResponse)
    requires IsJavaLength(|msg.body|) && IsSupported(msg.header.CompressionSigned())
    ensures var f := ResponseFrame(c, xx, msg);
      var body := CompressBody(c, msg.header.CompressionSigned(), msg.body).value;
      f.Ok? && |f.value| == HeaderSize + |body| && f.value[HeaderSize..] == body
      && Decode(f.value) == Header(msg.header.compression, 0, msg.header.session,
           |body| % 0x1_0000_0000, Checksum(xx, body), msg.header.meta)
  {
    var flag := msg.header.CompressionSigned();
    var body := CompressBody(c, flag, msg.body).value;
    FrameHeaderFields(xx, flag, msg.header.session, msg.header.meta, body);
    assert flag % 0x100 == msg.header.compression;
  }

  lemma CallFrameLayout(xx: XxHash64, msg: RpcCall)
    ensures var f := CallFrame(xx, msg);
      |f| == HeaderSize + |msg.body| && f[HeaderSize..] == msg.body
      && Decode(f) == Header(0, 0, msg.sessionId % 0x1_0000, |msg.body| % 0x1_0000_0000,
           xx(msg.body) % 0x1_0000_0000, msg.methodMeta % 0x1_0000_0000)
  {
    FrameHeaderFields(xx, 0, msg.sessionId, msg.methodMeta, msg.body);
  }

  /** The copying part every encoder shares: `finish`, `sizedByteArray`,
      `arraycopy(bytes, 4, dest, 0, 16)` and the two `writeBytes`. */
  method WriteFrame(h: Header, body: Bytes) returns (out: Bytes)
    ensures out == FinishedBytes(h)[4..] + body
  {
    var bytes := FinishedBytes(h);
    var dest := new u8[16];
    var i := 0;
    while i < 16
      invariant 0 <= i <= 16
      invariant forall k :: 0 <= k < i ==> dest[k] == bytes[4 + k]
    {
      dest[i] := bytes[4 + i];
      i := i + 1;
    }
    assert dest[..] == bytes[4..];
    var byteBuf := new ByteBuf([]);
    byteBuf.WriteBytes(dest[..]);
    byteBuf.WriteBytes(body);
    out := byteBuf.Readable();
  }

  method EncodeRequest(c: JavaCodecs, xx: XxHash64, msg: PreparedRpcRequest)
    returns (out: Result<Bytes, CompressionError>)
    requires IsJavaLength(|msg.body|)
    ensures out == RequestFrame(c, xx, msg)
  {
    var body := CompressBody(c, msg.compression, msg.body);
    if body.Err? {
      return Err(body.error);
    }
    var h := FrameHeaderFor(xx, msg.compression, msg.sessionId, msg.methodMeta, body.value);
    var bytes := WriteFrame(h, body.value);
    out := Ok(bytes);
  }

  method EncodeResponse(c: JavaCodecs, xx: XxHash64, msg: RpcResponse)
    returns (out: Result<Bytes, CompressionError>)
    requires IsJavaLength(|msg.body|)
    ensures out == ResponseFrame(c, xx, msg)
  {
    var flag := msg.header.CompressionSigned();
    var body := CompressBody(c, flag, msg.body);
    if body.Err? {
      return Err(body.error);
    }
    var h := FrameHeaderFor(xx, flag, msg.header.session, msg.header.meta, body.value);
    var bytes := WriteFrame(h, body.value);
    out := Ok(bytes);
  }

  method EncodeCall(xx: XxHash64, msg: RpcCall) returns (out: Bytes)
    ensures out == CallFrame(xx, msg)
  {
    var h := FrameHeaderFor(xx, 0, msg.sessionId, msg.methodMeta, msg.body);
    out := WriteFrame(h, msg.body);
  }
}
