/** The C++ receive path's validation: `parse_header` (16 bytes into a
    header, five rejections, one rewrite) and `parse_payload` (four rejections
    of a body read for an accepted header), plus the active-parser counter
    that guards the stream against interleaved reads. */
module RecvContext {
  import opened Wire
  import opened Wrappers
  import opened FrameHeader
  import opened RpcConnection

  /** FLATBUFFERS_MAX_BUFFER_SIZE: 2 GiB - 1. */
  const MaxFlatbuffersSize: nat := 0x7FFF_FFFF

  /** `rpc_recv_context`: its constructor asserts the body fills the header's
      size exactly. */
  datatype RecvCtx = RecvCtx(header: Header, payload: Bytes)
  {
    ghost predicate Valid() { header.size == |payload| }
    function Session(): u16 { header.session }
  }

  /** The checks of `parse_header` after a complete read, as written: the
      compression field is compared as the signed `int8` it is declared as. */
  predicate HeaderAcceptable(h: Header)
  {
    h.size != 0 && h.CompressionSigned() <= CompressionMax && h.checksum != 0 && h.meta != 0
  }

  /** The header `parse_header` hands on: `disabled` is rewritten to `none`;
      nothing else changes. */
  function Normalize(h: Header): (r: Header)
    ensures r.compression == (if h.compression == CompressionDisabled then CompressionNone else h.compression)
    ensures r.(compression := h.compression) == h
  {
    if h.compression == CompressionDisabled then h.(compression := CompressionNone) else h
  }

  /** `parse_header` on what `read_exactly(16)` returned (fewer bytes at end
      of stream). */
  function ParseHeaderBytes(read: Bytes): (r: Option<Header>)
    ensures r.Some? <==> |read| == HeaderSize && HeaderAcceptable(Decode(read))
    ensures r.Some? ==> r.value == Normalize(Decode(read))
  {
    if |read| != HeaderSize then None
    else
      var hdr := Decode(read);
      if hdr.size == 0 then None
      else if hdr.CompressionSigned() > CompressionMax then None
      else if hdr.checksum <= 0 then None
      else if hdr.meta <= 0 then None
      else Some(Normalize(hdr))
  }

  /** `parse_payload` on the body `read_exactly(hdr.size())` returned. */
  function ParsePayload(xx: XxHash64, hdr: Header, body: Bytes): (r: Option<RecvCtx>)
    ensures r.Some? <==>
      && |body| == hdr.size && hdr.size <= MaxFlatbuffersSize
      && hdr.bitflags % 2 == 0
      && Checksum(xx, body) == hdr.checksum
    ensures r.Some? ==> r.value == RecvCtx(hdr, body) && r.value.Valid()
  {
    if |body| != hdr.size then None
    else if hdr.size > MaxFlatbuffersSize then None
    // `bitflags & has_payload_headers`, the flag being bit 0
    else if hdr.bitflags % 2 == HasPayloadHeaders then None
    else if Checksum(xx, body) != hdr.checksum then None
    else Some(RecvCtx(hdr, body))
  }

  datatype ParseError = InterleavedRead

  /** `parse_header` with its guard: in a debug build a second parser on the
      same stream throws before anything is read. The counter is raised
      around the read and lowered in `finally`, so a call leaves it as it
      found it. */
  method ParseHeader(conn: Connection, read: Bytes) returns (r: Result<Option<Header>, ParseError>)
    modifies conn`istreamActiveParser
    ensures conn.istreamActiveParser == old(conn.istreamActiveParser)
    ensures old(conn.istreamActiveParser) != 0 <==> r == Err(InterleavedRead)
    ensures r.Err? ==> r == Err(InterleavedRead)
    ensures r.Ok? ==> r.value == ParseHeaderBytes(read)
  {
    if conn.istreamActiveParser != 0 {
      return Err(InterleavedRead);
    }
    conn.istreamActiveParser := conn.istreamActiveParser + 1;
    var hdr := ParseHeaderBytes(read);
    conn.istreamActiveParser := conn.istreamActiveParser - 1;
    r := Ok(hdr);
  }

  // ---------------------------------------------------------------------
  // The signed compression test.

  /** As written: a compression byte of 0x80 or more reads as a negative
      `int8` and passes `compression() > compression_flags_MAX`; the header
      is accepted with a flag no codec knows. */
  lemma NegativeCompressionAccepted()
    ensures var h := Header(0xFF, 0, 1, 1, 1, 1);
      ParseHeaderBytes(Encode(h)) == Some(h) && h.compression > CompressionMax
  {
    var h := Header(0xFF, 0, 1, 1, 1, 1);
    DecodeEncode(h, []);
    assert Encode(h) + [] == Encode(h);
  }

  /** Corrected: the range test on the flag read as unsigned. */
  function ParseHeaderBytesChecked(read: Bytes): (r: Option<Header>)
  {
    if |read| != HeaderSize then None
    else
      var hdr := Decode(read);
      if hdr.size == 0 || hdr.compression > CompressionMax || hdr.checksum == 0 || hdr.meta == 0 then None
      else Some(Normalize(hdr))
  }

  /** Corrected: an accepted header carries `none`, `zstd` or `lz4`, and
      the check agrees with the original on every header whose compression
      byte is below 0x80. */
  lemma ParseHeaderBytesCheckedFlags(read: Bytes)
    ensures var r := ParseHeaderBytesChecked(read);
      r.Some? ==> r.value.compression in {CompressionNone, CompressionZstd, CompressionLz4}
    ensures |read| == HeaderSize && Decode(read).compression < 0x80 ==>
      ParseHeaderBytesChecked(read) == ParseHeaderBytes(read)
  {
  }
}
