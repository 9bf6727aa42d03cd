/** The three Java decoders. Each marks both indices of the inbound
    `ByteBuf`, reads a 16-byte little-endian header, then a body, and appends
    one message to `out`; any exception on the way resets both indices, so the
    bytes stay for the next call. The client's response decoder takes every
    readable byte as the body and checks the checksum; the other two read
    exactly `header.size()` bytes and check nothing. */
module JavaDecoders {
  import opened Wire
  import opened Wrappers
  import opened FrameHeader
  import opened JavaBuffers
  import opened JavaCompression
  import E = JavaEncoders

  datatype Decoded =
    | RpcRequest(header: Header, body: Bytes)
    | RpcResponse(header: Header, body: Bytes)
    /** A checksum mismatch; `computed` is the checksum of the received body. */
    | InvalidRpcResponse(header: Header, computed: u32)

  /** One call of the client's `RpcResponseDecoder.decode` on the readable
      bytes: the message it emits and how many bytes it consumes, or `None`
      when it resets. */
  function ResponseStep(xx: XxHash64, readable: Bytes): (r: Option<(Decoded, nat)>)
    ensures r.None? <==> |readable| < HeaderSize
    ensures r.Some? ==> r.value.1 == |readable|
    ensures r.Some? ==> r.value.0.header == Decode(readable)
    ensures r.Some? ==> (r.value.0.RpcResponse? <==> Checksum(xx, readable[HeaderSize..]) == Decode(readable).checksum)
    ensures r.Some? ==> r.value.0.RpcResponse? || r.value.0.InvalidRpcResponse?
    ensures r.Some? && r.value.0.RpcResponse? ==> r.value.0.body == readable[HeaderSize..]
    ensures r.Some? && r.value.0.InvalidRpcResponse? ==> r.value.0.computed == Checksum(xx, readable[HeaderSize..])
  {
    if |readable| < HeaderSize then None
    else
      var header := Decode(readable);
      var body := readable[HeaderSize..];
      var checkSum := Checksum(xx, body);
      if checkSum != header.checksum then Some((InvalidRpcResponse(header, checkSum), |readable|))
      else Some((RpcResponse(header, body), |readable|))
  }

  /** The frame the request and call decoders cut: a header, then exactly
      `(int) header.size()` bytes. A size that the cast makes negative fails
      the array allocation, just as a short body fails `readBytes`. */
  function SizedStep(readable: Bytes): (r: Option<(Header, Bytes, nat)>)
    ensures r.Some? <==> |readable| >= HeaderSize && Decode(readable).size <= Int32Max
                         && |readable| >= HeaderSize + Decode(readable).size
    ensures r.Some? ==> var n := r.value.2;
      n == HeaderSize + r.value.0.size && n <= |readable|
      && r.value.0 == Decode(readable) && r.value.1 == readable[HeaderSize..n]
  {
    if |readable| < HeaderSize then None
    else
      var header := Decode(readable);
      var size := WrapInt32(header.size);
      if size < 0 || |readable| - HeaderSize < size then None
      else Some((header, readable[HeaderSize..HeaderSize + size], HeaderSize + size))
  }

  /** The indices after a decode call: both marks at the old indices, the
      writer index and the bytes untouched, the reader index advanced by the
      consumed count (0 when the call reset). */
  ghost predicate Consumed(buf: ByteBuf, oldBytes: Bytes, oldReader: nat, oldWriter: nat, n: nat)
    reads buf
  {
    buf.Valid() && buf.bytes == oldBytes && buf.writerIndex == oldWriter
    && buf.readerIndex == oldReader + n
    && buf.markedReaderIndex == oldReader && buf.markedWriterIndex == oldWriter
  }

  /** Mark both indices, read and parse the 16 header bytes. */
  method ReadHeader(buf: ByteBuf) returns (header: Option<Header>)
    requires buf.Valid()
    modifies buf`readerIndex, buf`markedReaderIndex, buf`markedWriterIndex
    ensures header.None? <==> old(|buf.Readable()|) < HeaderSize
    ensures header.None? ==> Consumed(buf, old(buf.bytes), old(buf.readerIndex), old(buf.writerIndex), 0)
    ensures header.Some? ==>
              header.value == Decode(old(buf.Readable()))
              && Consumed(buf, old(buf.bytes), old(buf.readerIndex), old(buf.writerIndex), HeaderSize)
  {
    buf.MarkReaderIndex();
    buf.MarkWriterIndex();
    var hdrbytes := buf.ReadBytes(HeaderSize);
    if hdrbytes.None? {
      return None;
    }
    assert hdrbytes.value == old(buf.Readable())[..HeaderSize];
    header := Some(Decode(hdrbytes.value));
  }

  /** The `catch` block: `resetReaderIndex` then `resetWriterIndex`. */
  method Rewind(buf: ByteBuf)
    requires buf.Valid() && buf.markedReaderIndex <= buf.markedWriterIndex == buf.writerIndex
    modifies buf`readerIndex, buf`writerIndex
    ensures buf.Valid() && buf.readerIndex == buf.markedReaderIndex && buf.writerIndex == old(buf.writerIndex)
  {
    var ok1 := buf.ResetReaderIndex();
    var ok2 := buf.ResetWriterIndex();
  }

  /** `RpcResponseDecoder.decode` (client side). */
  method DecodeResponse(xx: XxHash64, buf: ByteBuf) returns (out: seq<Decoded>)
    requires buf.Valid()
    modifies buf`readerIndex, buf`writerIndex, buf`markedReaderIndex, buf`markedWriterIndex
    ensures match ResponseStep(xx, old(buf.Readable()))
      case None => out == [] && Consumed(buf, old(buf.bytes), old(buf.readerIndex), old(buf.writerIndex), 0)
      case Some((m, n)) => out == [m] && Consumed(buf, old(buf.bytes), old(buf.readerIndex), old(buf.writerIndex), n)
  {
    ghost var readable := buf.Readable();
    var header := ReadHeader(buf);
    if header.None? {
      Rewind(buf);
      return [];
    }
    var bodyArray := buf.ReadBytes(buf.writerIndex - buf.readerIndex);
    assert bodyArray.value == readable[HeaderSize..];
    var checkSum := Checksum(xx, bodyArray.value);
    if checkSum != header.value.checksum {
      out := [InvalidRpcResponse(header.value, checkSum)];
    } else {
      out := [RpcResponse(header.value, bodyArray.value)];
    }
  }

  /** The body of `RpcRequestDecoder.decode` and `RpcCallDecoder.decode`:
      `new byte[(int) header.size()]` then `readBytes`. */
  method ReadSizedFrame(buf: ByteBuf) returns (frame: Option<(Header, Bytes)>)
    requires buf.Valid()
    modifies buf`readerIndex, buf`writerIndex, buf`markedReaderIndex, buf`markedWriterIndex
    ensures match SizedStep(old(buf.Readable()))
      case None => frame == None && Consumed(buf, old(buf.bytes), old(buf.readerIndex), old(buf.writerIndex), 0)
      case Some((h, b, n)) => frame == Some((h, b)) && Consumed(buf, old(buf.bytes), old(buf.readerIndex), old(buf.writerIndex), n)
  {
    ghost var readable := buf.Readable();
    var header := ReadHeader(buf);
    if header.None? {
      Rewind(buf);
      return None;
    }
    var size := WrapInt32(header.value.size);
    if size < 0 {
      Rewind(buf);
      return None;
    }
    var body := buf.ReadBytes(size);
    if body.None? {
      Rewind(buf);
      return None;
    }
    assert body.value == readable[HeaderSize..HeaderSize + size];
    frame := Some((header.value, body.value));
  }

  /** `RpcRequestDecoder.decode` (server side). */
  method DecodeRequest(buf: ByteBuf) returns (out: seq<Decoded>)
    requires buf.Valid()
    modifies buf`readerIndex, buf`writerIndex, buf`markedReaderIndex, buf`markedWriterIndex
    ensures match SizedStep(old(buf.Readable()))
      case None => out == [] && Consumed(buf, old(buf.bytes), old(buf.readerIndex), old(buf.writerIndex), 0)
      case Some((h, b, n)) => out == [RpcRequest(h, b)] && Consumed(buf, old(buf.bytes), old(buf.readerIndex), old(buf.writerIndex), n)
  {
    var frame := ReadSizedFrame(buf);
    out := if frame.Some? then [RpcRequest(frame.value.0, frame.value.1)] else [];
  }

  /** `RpcCallDecoder.decode`. */
  method DecodeCall(buf: ByteBuf) returns (out: seq<Decoded>)
    requires buf.Valid()
    modifies buf`readerIndex, buf`writerIndex, buf`markedReaderIndex, buf`markedWriterIndex
    ensures match SizedStep(old(buf.Readable()))
      case None => out == [] && Consumed(buf, old(buf.bytes), old(buf.readerIndex), old(buf.writerIndex), 0)
      case Some((h, b, n)) => out == [RpcResponse(h, b)] && Consumed(buf, old(buf.bytes), old(buf.readerIndex), old(buf.writerIndex), n)
  {
    var frame := ReadSizedFrame(buf);
    out := if frame.Some? then [RpcResponse(frame.value.0, frame.value.1)] else [];
  }

  // ---------------------------------------------------------------------
  // Encoders against decoders.

  /** A request frame from the client encoder, followed by anything, is cut
      by the server decoder at exactly its end; decompressing the body with
      the header's flag gives back the caller's body. */
  lemma {:induction false} RequestRoundTrip(c: JavaCodecs, xx: XxHash64, msg: E.PreparedRpcRequest, rest: Bytes)
    requires IsJavaLength(|msg.body|) && IsSupported(msg.compression) && CodecsRoundTrip(c, msg.body)
    requires |CompressBody(c, msg.compression, msg.body).value| <= Int32Max
    ensures var f := E.RequestFrame(c, xx, msg).value;
      var s := SizedStep(f + rest);
      s.Some? && s.value.2 == |f| && s.value.0 == Decode(f)
      && s.value.0.session == msg.sessionId % 0x1_0000
      && s.value.0.meta == msg.methodMeta % 0x1_0000_0000
      && DecompressBody(c, s.value.0.CompressionSigned(), s.value.1) == Ok(msg.body)
  {
    E.RequestFrameLayout(c, xx, msg);
    CompressRoundTrip(c, msg.compression, msg.body);
    var f := E.RequestFrame(c, xx, msg).value;
    var body := CompressBody(c, msg.compression, msg.body).value;
    FrameCut(f, body, rest);
    assert Int8(msg.compression % 0x100) == msg.compression;
  }

  /** Any frame whose header gives the length of the body behind it is cut
      at its end by the sized decoders. */
  lemma FrameCut(f: Bytes, body: Bytes, rest: Bytes)
    requires |f| == HeaderSize + |body| && f[HeaderSize..] == body
    requires Decode(f).size == |body| && |body| <= Int32Max
    ensures SizedStep(f + rest) == Some((Decode(f), body, |f|))
    ensures SizedStep(f) == Some((Decode(f), body, |f|))
  {
    assert (f + rest)[..HeaderSize] == f[..HeaderSize];
    assert Decode(f + rest) == Decode(f);
    assert (f + rest)[HeaderSize..|f|] == body;
    assert f[HeaderSize..|f|] == body;
  }

  /** The same for the uncompressed call encoder and decoder. */
  lemma {:induction false} CallRoundTrip(xx: XxHash64, msg: E.RpcCall, rest: Bytes)
    requires |msg.body| <= Int32Max
    ensures var f := E.CallFrame(xx, msg);
      SizedStep(f + rest) == Some((Decode(f), msg.body, |f|))
  {
    E.CallFrameLayout(xx, msg);
    FrameCut(E.CallFrame(xx, msg), msg.body, rest);
  }

  /** A response frame from the server encoder, arriving alone, passes the
      client decoder's checksum test and is emitted with its compressed body. */
  lemma {:induction false} ResponseRoundTrip(c: JavaCodecs, xx: XxHash64, msg: E.RpcResponse)
    requires IsJavaLength(|msg.body|) && IsSupported(msg.header.CompressionSigned())
    ensures var f := E.ResponseFrame(c, xx, msg).value;
      ResponseStep(xx, f)
        == Some((RpcResponse(Decode(f), CompressBody(c, msg.header.CompressionSigned(), msg.body).value), |f|))
  {
    E.ResponseFrameLayout(c, xx, msg);
  }

  /** With too few bytes for the whole frame the sized decoders reset:
      nothing is emitted and nothing consumed. */
  lemma {:induction false} SizedPrefixPostpones(readable: Bytes, k: nat)
    requires SizedStep(readable).Some? && k < SizedStep(readable).value.2
    ensures SizedStep(readable[..k]) == None
  {
    if k >= HeaderSize {
      assert readable[..k][..HeaderSize] == readable[..HeaderSize];
      assert Decode(readable[..k]) == Decode(readable);
    }
  }

  /** Bytes after a complete frame do not change how it is cut, so the
      repeated calls of the framework decode a stream frame by frame. */
  lemma {:induction false} SizedStepExtends(readable: Bytes, more: Bytes)
    requires SizedStep(readable).Some?
    ensures SizedStep(readable + more) == SizedStep(readable)
  {
    assert (readable + more)[..HeaderSize] == readable[..HeaderSize];
    assert Decode(readable + more) == Decode(readable);
    var n := SizedStep(readable).value.2;
    assert (readable + more)[HeaderSize..n] == readable[HeaderSize..n];
  }

  // ---------------------------------------------------------------------
  // The client decoder ignores `header.size()`.

  /** As written: a response frame of which only part has arrived is not
      postponed; the client decoder consumes the partial bytes and emits a
      message for them, so the rest of the frame is later read as a header. */
  lemma {:induction false} ResponseStepConsumesPartialFrame(xx: XxHash64, frame: Bytes, k: nat)
    requires SizedStep(frame).Some? && HeaderSize <= k < SizedStep(frame).value.2
    ensures ResponseStep(xx, frame[..k]).Some?
    ensures ResponseStep(xx, frame[..k]).value.1 == k
    ensures SizedStep(frame[..k]).None?
  {
    SizedPrefixPostpones(frame, k);
  }

  /** As written: when a second frame is already buffered behind the first,
      both are consumed at once and the emitted message never carries the
      first frame's body alone. */
  lemma {:induction false} ResponseStepSwallowsNextFrame(xx: XxHash64, first: Bytes, next: Bytes)
    requires SizedStep(first).Some? && SizedStep(first).value.2 == |first| && |next| > 0
    ensures var r := ResponseStep(xx, first + next);
      r.Some? && r.value.1 == |first| + |next|
      && r.value.0 != RpcResponse(Decode(first), SizedStep(first).value.1)
  {
    var r := ResponseStep(xx, first + next);
    assert (first + next)[..HeaderSize] == first[..HeaderSize];
    assert Decode(first + next) == Decode(first);
    assert |(first + next)[HeaderSize..]| > |SizedStep(first).value.1|;
  }

  /** Corrected: the client decoder cutting the body at `header.size()`, as
      the request and call decoders do, before testing the checksum. */
  function ResponseStepSized(xx: XxHash64, readable: Bytes): (r: Option<(Decoded, nat)>)
    ensures r.None? <==> SizedStep(readable).None?
    ensures r.Some? ==> r.value.1 == SizedStep(readable).value.2
  {
    match SizedStep(readable)
    case None => None
    case Some((header, body, n)) =>
      var checkSum := Checksum(xx, body);
      if checkSum != header.checksum then Some((InvalidRpcResponse(header, checkSum), n))
      else Some((RpcResponse(header, body), n))
  }

  /** Corrected: a frame whose checksum matches its body is emitted intact
      whatever follows it, and exactly its own bytes are consumed; a partial
      frame is postponed. */
  lemma {:induction false} ResponseStepSizedCutsFrame(xx: XxHash64, f: Bytes, rest: Bytes, k: nat)
    requires SizedStep(f).Some? && SizedStep(f).value.2 == |f|
    requires Decode(f).checksum == Checksum(xx, SizedStep(f).value.1)
    ensures ResponseStepSized(xx, f + rest) == Some((RpcResponse(Decode(f), SizedStep(f).value.1), |f|))
    ensures k < |f| ==> ResponseStepSized(xx, f[..k]) == None
  {
    SizedStepExtends(f, rest);
    if k < |f| {
      SizedPrefixPostpones(f, k);
    }
  }

  /** Corrected, end to end: a server response frame followed by any further
      bytes is emitted with its body and the checksum accepted. */
  lemma {:induction false} ResponseStepSizedFrames(c: JavaCodecs, xx: XxHash64, msg: E.RpcResponse, rest: Bytes)
    requires IsJavaLength(|msg.body|) && IsSupported(msg.header.CompressionSigned())
    requires |CompressBody(c, msg.header.CompressionSigned(), msg.body).value| <= Int32Max
    ensures var f := E.ResponseFrame(c, xx, msg).value;
      var body := CompressBody(c, msg.header.CompressionSigned(), msg.body).value;
      ResponseStepSized(xx, f + rest) == Some((RpcResponse(Decode(f), body), |f|))
  {
    E.ResponseFrameLayout(c, xx, msg);
    var f := E.ResponseFrame(c, xx, msg).value;
    var body := CompressBody(c, msg.header.CompressionSigned(), msg.body).value;
    FrameCut(f, body, rest);
    ResponseStepSizedCutsFrame(xx, f, rest, 0);
  }
}
