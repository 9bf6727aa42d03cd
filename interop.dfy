/** The wire format is shared by the C++, Java and Go implementations: a
    frame one of them writes is one the C++ receive path accepts, provided
    the values the receiver refuses (an empty body, a zero checksum, method
    id 0) are avoided. */
module Interop {
  import opened Wire
  import opened Wrappers
  import opened FrameHeader
  import opened GoHeaderUtils
  import opened JavaEncoders
  import opened RecvContext

  /** The header is read from the first 16 bytes alone. */
  lemma DecodePrefix(b: Bytes)
    requires |b| >= HeaderSize
    ensures Decode(b[..HeaderSize]) == Decode(b)
  {
    var p := b[..HeaderSize];
    assert forall i :: 0 <= i < HeaderSize ==> p[i] == b[i];
  }

  /** A Go reply, `BuildHeader` followed by the body, passes `parse_header`
      unchanged and `parse_payload` hands back exactly that body. */
  lemma {:induction false} GoReplyAccepted(xx: XxHash64, session: u16, body: Bytes, meta: u32)
    requires 0 < |body| <= MaxFlatbuffersSize
    requires Checksum(xx, body) != 0 && meta != 0
    ensures var hdr := ParseHeaderBytes(BuildHeader(xx, session, body, meta));
      && hdr == Some(Header(CompressionNone, 0, session, |body|, Checksum(xx, body), meta))
      && ParsePayload(xx, hdr.value, body) == Some(RecvCtx(hdr.value, body))
  {
    var h := Decode(BuildHeader(xx, session, body, meta));
    assert h == Header(CompressionNone, 0, session, |body|, Checksum(xx, body), meta);
    assert HeaderAcceptable(h);
  }

  /** A Java `RpcCall` frame, cut where `read_exactly` cuts it, passes both
      C++ checks with its session and method id narrowed to their widths. */
  lemma {:induction false} JavaCallAccepted(xx: XxHash64, msg: RpcCall)
    requires 0 < |msg.body| <= MaxFlatbuffersSize
    requires Checksum(xx, msg.body) != 0 && msg.methodMeta % 0x1_0000_0000 != 0
    ensures var f := CallFrame(xx, msg);
      var hdr := ParseHeaderBytes(f[..HeaderSize]);
      && hdr == Some(Header(CompressionNone, 0, msg.sessionId % 0x1_0000, |msg.body|,
                            Checksum(xx, msg.body), msg.methodMeta % 0x1_0000_0000))
      && ParsePayload(xx, hdr.value, f[HeaderSize..]) == Some(RecvCtx(hdr.value, msg.body))
  {
    var f := CallFrame(xx, msg);
    CallFrameLayout(xx, msg);
    DecodePrefix(f);
    var h := Decode(f[..HeaderSize]);
    assert h == Header(CompressionNone, 0, msg.sessionId % 0x1_0000, |msg.body|,
                       Checksum(xx, msg.body), msg.methodMeta % 0x1_0000_0000);
    assert HeaderAcceptable(h);
  }
}
