/** The fixed 16-byte frame header that precedes every request and response
    body, in its little-endian flatbuffers struct layout:
      offset 0  compression (int8)    offset 1  bitflags (uint8)
      offset 2  session (uint16)      offset 4  size (uint32)
      offset 8  checksum (uint32)     offset 12 meta (uint32)
    `compression` is stored as its raw byte; `CompressionSigned` is the int8
    reading the C++ and Go accessors return. */
module FrameHeader {
  import opened Wire

  const HeaderSize: nat := 16

  /** compression_flags of the schema. */
  const CompressionNone: int := 0
  const CompressionDisabled: int := 1
  const CompressionZstd: int := 2
  const CompressionLz4: int := 3
  const CompressionMax: int := 3

  /** header_bit_flags of the schema. */
  const HasPayloadHeaders: int := 1

  datatype Header = Header(
    compression: u8,
    bitflags: u8,
    session: u16,
    size: u32,
    checksum: u32,
    meta: u32)
  {
    function CompressionSigned(): int { Int8(compression) }
  }

  /** The struct's 16 bytes, field by field. */
  function Encode(h: Header): (r: Bytes)
    ensures |r| == HeaderSize
  {
    [h.compression, h.bitflags] + LeU16(h.session) + LeU32(h.size)
      + LeU32(h.checksum) + LeU32(h.meta)
  }

  /** Reads a header from the first 16 bytes of `b`; later bytes are ignored.
      Re-encoding it gives those 16 bytes back: the layout has no padding and
      no redundant byte. */
  function Decode(b: Bytes): (r: Header)
    requires |b| >= HeaderSize
    ensures Encode(r) == b[..HeaderSize]
  {
    ReadLeU16Encodes(b, 2);
    ReadLeU32Encodes(b, 4);
    ReadLeU32Encodes(b, 8);
    ReadLeU32Encodes(b, 12);
    assert b[..HeaderSize] == [b[0], b[1]] + b[2..4] + b[4..8] + b[8..12] + b[12..16];
    Header(b[0], b[1], ReadLeU16(b, 2), ReadLeU32(b, 4), ReadLeU32(b, 8), ReadLeU32(b, 12))
  }

  lemma {:induction false} DecodeEncode(h: Header, rest: Bytes)
    ensures Decode(Encode(h) + rest) == h
  {
    var b := Encode(h) + rest;
    LeU16RoundTrip(h.session);
    LeU32RoundTrip(h.size);
    LeU32RoundTrip(h.checksum);
    LeU32RoundTrip(h.meta);
    assert b[2..4] == LeU16(h.session);
    assert b[4..8] == LeU32(h.size);
    assert b[8..12] == LeU32(h.checksum);
    assert b[12..16] == LeU32(h.meta);
    assert ReadLeU16(b, 2) == ReadLeU16(b[2..4], 0);
    assert ReadLeU32(b, 4) == ReadLeU32(b[4..8], 0);
    assert ReadLeU32(b, 8) == ReadLeU32(b[8..12], 0);
    assert ReadLeU32(b, 12) == ReadLeU32(b[12..16], 0);
  }

  lemma EncodeInjective(h1: Header, h2: Header)
    requires Encode(h1) == Encode(h2)
    ensures h1 == h2
  {
    DecodeEncode(h1, []);
    DecodeEncode(h2, []);
    assert Encode(h1) + [] == Encode(h2) + [];
  }

  /** The generated `createHeader` of both the Java and the Go bindings: each
      argument is stored through a narrowing cast, that is, truncated to the
      width of its field. */
  function CreateHeader(compression: int, bitflags: int, session: int, size: int,
                        checksum: int, meta: int): (h: Header)
    ensures h.compression % 0x100 == compression % 0x100 && h.bitflags == bitflags % 0x100
    ensures h.session == session % 0x1_0000 && h.size == size % 0x1_0000_0000
    ensures h.checksum == checksum % 0x1_0000_0000 && h.meta == meta % 0x1_0000_0000
  {
    Header(compression % 0x100, bitflags % 0x100, Low16(session), Low32(size),
           Low32(checksum), Low32(meta))
  }

  /** What a flatbuffers builder holds after `finish` on a header struct: the
      4-byte root offset (pointing just past itself) followed by the struct. */
  function FinishedBytes(h: Header): (r: Bytes)
    ensures |r| == 4 + HeaderSize
  {
    LeU32(4) + Encode(h)
  }

  /** Dropping the 4-byte root offset, as both bindings do, leaves exactly
      the struct's bytes. */
  lemma FinishedStructBytes(h: Header)
    ensures FinishedBytes(h)[4..] == Encode(h)
    ensures ReadLeU32(FinishedBytes(h), 0) == 4
  {
    LeU32RoundTrip(4);
    assert FinishedBytes(h)[..4] == LeU32(4);
  }
}
