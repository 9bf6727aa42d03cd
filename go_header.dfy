/** The Go binding's header helpers: building the 16 header bytes for a body
    and viewing a byte slice as a header. */
module GoHeaderUtils {
  import opened Wire
  import opened Wrappers
  import opened FrameHeader

  /** `NewHeader` wraps the slice without copying or checking it; reading
      the whole header from a slice shorter than 16 bytes panics, which is
      `None` here. */
  function NewHeader(buf: Bytes): (r: Option<Header>)
    ensures r.None? <==> |buf| < HeaderSize
    ensures r.Some? ==> Encode(r.value) == buf[..HeaderSize]
  {
    if |buf| < HeaderSize then None
    else Some(Decode(buf))
  }

  /** `BuildHeader`: an uncompressed header for `body` with the given session
      and method id. `len(body)` is narrowed by `uint32(...)`. */
  function BuildHeader(xx: XxHash64, session: u16, body: Bytes, meta: u32): (r: Bytes)
    ensures |r| == HeaderSize
    ensures Decode(r) == Header(0, 0, session, |body| % 0x1_0000_0000, Checksum(xx, body), meta)
  {
    var h := CreateHeader(0, 0, session, |body|, Checksum(xx, body), meta);
    assert h == Header(0, 0, session, |body| % 0x1_0000_0000, Checksum(xx, body), meta);
    FinishedStructBytes(h);
    DecodeEncode(h, []);
    assert Encode(h) + [] == Encode(h);
    FinishedBytes(h)[4..]
  }

  /** The test's view of a built header: reading it back through `NewHeader`
      gives the session, the method id and the body's length and checksum. */
  lemma BuiltHeaderReadsBack(xx: XxHash64, session: u16, body: Bytes, meta: u32)
    requires |body| < 0x1_0000_0000
    ensures var r := NewHeader(BuildHeader(xx, session, body, meta));
      r.Some? && r.value.session == session && r.value.meta == meta
      && r.value.size == |body| && r.value.checksum == xx(body) % 0x1_0000_0000
  {
  }
}
