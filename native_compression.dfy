/** The C++ codecs of `codec::make_unique`: an LZ4 codec whose frames
    carry the original length as a 4-byte little-endian prefix, and a zstd
    codec that relies on zstd's own frame header for the size. The LZ4 and
    zstd libraries are parameters; what the model assumes of them is stated
    as named predicates, used only as hypotheses. */
module NativeCompression {
  import opened Wire
  import opened Wrappers

  /** What a library call reports: its return code and the bytes it wrote
      into the destination buffer. */
  datatype LibOut = LibOut(code: int, bytes: Bytes)

  datatype Lz4Lib = Lz4Lib(
    compressBound: nat -> int,
    /** `LZ4_compress_default(src, dst, srcSize, dstCapacity)` */
    compressDefault: (Bytes, int) -> LibOut,
    /** `LZ4_decompress_safe(src, dst, compressedSize, dstCapacity)` */
    decompressSafe: (Bytes, nat) -> LibOut)

  /** `ZSTD_findDecompressedSize`: an error, unknown, or the size. */
  datatype ContentSize = ContentSizeError | ContentSizeUnknown | ContentSize(n: nat)

  datatype ZstdLib = ZstdLib(
    compressBound: nat -> nat,
    compress: (Bytes, nat) -> LibOut,
    isError: int -> bool,
    findDecompressedSize: Bytes -> ContentSize,
    decompress: (Bytes, nat) -> LibOut)

  datatype NativeLibs = NativeLibs(lz4: Lz4Lib, zstd: ZstdLib)

  /** Every `LOG_THROW_IF` of the codecs, and the factory's `LOG_THROW`. */
  datatype CodecError =
    | Lz4CompressFailed(code: int)
    | Lz4DestinationTooSmall
    | Lz4DecompressFailed(code: int)
    | Lz4DecompressedNothing
    | ZstdCompressFailed(code: int)
    | ZstdNotCompressed
    | ZstdUnknownSize
    | ZstdSizeMismatch(expected: nat, decompressed: int)
    | CannotFindCodec

  /** A library that writes as many bytes as it reports. */
  ghost predicate Lz4Reports(l: Lz4Lib)
  {
    && (forall src, cap :: l.compressDefault(src, cap).code > 0 ==> |l.compressDefault(src, cap).bytes| == l.compressDefault(src, cap).code)
    && (forall src, cap :: l.decompressSafe(src, cap).code <= cap)
  }

  /** LZ4's own round trip on a non-empty input. */
  ghost predicate Lz4RoundTrips(l: Lz4Lib)
  {
    forall src: Bytes {:trigger l.compressDefault(src, l.compressBound(|src|))} :: |src| > 0 ==>
      var c := l.compressDefault(src, l.compressBound(|src|));
      c.code > 0 && l.decompressSafe(c.bytes, |src|) == LibOut(|src|, src)
  }

  /** zstd's own round trip: a compressed frame declares its content size. */
  ghost predicate ZstdRoundTrips(z: ZstdLib)
  {
    forall src: Bytes {:trigger z.compress(src, z.compressBound(|src|))} ::
      var c := z.compress(src, z.compressBound(|src|));
      && !z.isError(c.code)
      && z.findDecompressedSize(c.bytes) == ContentSize(|src|)
      && z.decompress(c.bytes, |src|) == LibOut(|src|, src)
  }

  // ---------------------------------------------------------------------
  // lz4_fast_codec

  /** `lz4_fast_codec::compress`: the compressor's bytes after the input
      length, narrowed to 32 bits by `write_le<uint32_t>`. */
  function Lz4Compress(l: Lz4Lib, data: Bytes): (r: Result<Bytes, CodecError>)
    ensures var c := l.compressDefault(data, l.compressBound(|data|));
      && (r.Ok? <==> c.code > 0)
      && (c.code < 0 ==> r == Err(Lz4CompressFailed(c.code)))
      && (c.code == 0 ==> r == Err(Lz4DestinationTooSmall))
      && (r.Ok? ==> |r.value| == 4 + |c.bytes| && ReadLeU32(r.value, 0) == |data| % 0x1_0000_0000
                    && r.value[4..] == c.bytes)
  {
    var c := l.compressDefault(data, l.compressBound(|data|));
    if c.code < 0 then Err(Lz4CompressFailed(c.code))
    else if c.code == 0 then Err(Lz4DestinationTooSmall)
    else
      LeU32RoundTrip(|data| % 0x1_0000_0000);
      Ok(LeU32(|data| % 0x1_0000_0000) + c.bytes)
  }

  /** The same, as the source does it: a buffer of `bound + 4` bytes, the
      compressor writing from offset 4, then `write_le` at offset 0 and
      `trim(compressed + 4)`. */
  method Lz4CompressBuffer(l: Lz4Lib, data: Bytes) returns (r: Result<Bytes, CodecError>)
    requires Lz4Reports(l)
    ensures r == Lz4Compress(l, data)
  {
    var maxDstSize := l.compressBound(|data|);
    var c := l.compressDefault(data, maxDstSize);
    if c.code < 0 {
      return Err(Lz4CompressFailed(c.code));
    }
    if c.code == 0 {
      return Err(Lz4DestinationTooSmall);
    }
    var buf := new u8[4 + |c.bytes|];
    var prefix := LeU32(|data| % 0x1_0000_0000);
    var i := 0;
    while i < |c.bytes|
      invariant 0 <= i <= |c.bytes|
      invariant forall k :: 0 <= k < i ==> buf[4 + k] == c.bytes[k]
    {
      buf[4 + i] := c.bytes[i];
      i := i + 1;
    }
    buf[0], buf[1], buf[2], buf[3] := prefix[0], prefix[1], prefix[2], prefix[3];
    assert buf[..] == prefix + c.bytes;
    assert |c.bytes| == c.code;
    assert buf[..4 + c.code] == buf[..];
    r := Ok(buf[..4 + c.code]);
  }

  /** `lz4_fast_codec::uncompress`: reads the original length at offset 0
      and decodes the bytes from offset 4 into a buffer that size. The
      source reads the prefix unconditionally, so a shorter input is the
      caller's to exclude. */
  function Lz4Uncompress(l: Lz4Lib, data: Bytes): (r: Result<Bytes, CodecError>)
    requires |data| >= 4
    ensures var d := l.decompressSafe(data[4..], ReadLeU32(data, 0));
      && (r.Ok? <==> d.code > 0)
      && (d.code < 0 ==> r == Err(Lz4DecompressFailed(d.code)))
      && (d.code == 0 ==> r == Err(Lz4DecompressedNothing))
      && (r.Ok? ==> r.value == d.bytes)
  {
    var orig := ReadLeU32(data, 0);
    var d := l.decompressSafe(data[4..], orig);
    if d.code < 0 then Err(Lz4DecompressFailed(d.code))
    else if d.code == 0 then Err(Lz4DecompressedNothing)
    else Ok(d.bytes)
  }

  /** A non-empty body survives the LZ4 codec. */
  lemma {:induction false} Lz4RoundTrip(l: Lz4Lib, data: Bytes)
    requires Lz4RoundTrips(l) && 0 < |data| < 0x1_0000_0000
    ensures Lz4Compress(l, data).Ok?
    ensures |Lz4Compress(l, data).value| >= 4
    ensures Lz4Uncompress(l, Lz4Compress(l, data).value) == Ok(data)
  {
    var c := l.compressDefault(data, l.compressBound(|data|));
    assert c.code > 0 && l.decompressSafe(c.bytes, |data|) == LibOut(|data|, data);
    var f := Lz4Compress(l, data).value;
    assert f[4..] == c.bytes;
  }

  /** The empty body does not: its prefix declares 0 bytes, and a library
      that decodes no more than it is allowed reports 0, which the codec
      rejects. */
  lemma Lz4EmptyOriginalRejected(l: Lz4Lib, data: Bytes)
    requires Lz4Reports(l) && |data| >= 4 && ReadLeU32(data, 0) == 0
    ensures Lz4Uncompress(l, data).Err?
  {
    assert l.decompressSafe(data[4..], 0).code <= 0;
  }

  // ---------------------------------------------------------------------
  // zstd_codec

  /** `zstd_codec::compress` at level 3, trimmed to the reported size. */
  function ZstdCompress(z: ZstdLib, data: Bytes): (r: Result<Bytes, CodecError>)
    ensures var c := z.compress(data, z.compressBound(|data|));
      && (r.Ok? <==> !z.isError(c.code))
      && (r.Ok? ==> r.value == c.bytes)
      && (r.Err? ==> r == Err(ZstdCompressFailed(c.code)))
  {
    var c := z.compress(data, z.compressBound(|data|));
    if z.isError(c.code) then Err(ZstdCompressFailed(c.code)) else Ok(c.bytes)
  }

  /** `zstd_codec::uncompress`: the frame must declare its size, and the
      decoder must produce exactly that many bytes. */
  function ZstdUncompress(z: ZstdLib, data: Bytes): (r: Result<Bytes, CodecError>)
    ensures r.Ok? <==>
      && z.findDecompressedSize(data).ContentSize?
      && z.decompress(data, z.findDecompressedSize(data).n).code == z.findDecompressedSize(data).n
    ensures z.findDecompressedSize(data).ContentSizeError? ==> r == Err(ZstdNotCompressed)
    ensures z.findDecompressedSize(data).ContentSizeUnknown? ==> r == Err(ZstdUnknownSize)
    ensures r.Ok? ==> r.value == z.decompress(data, z.findDecompressedSize(data).n).bytes
  {
    match z.findDecompressedSize(data)
    case ContentSizeError => Err(ZstdNotCompressed)
    case ContentSizeUnknown => Err(ZstdUnknownSize)
    case ContentSize(n) =>
      var d := z.decompress(data, n);
      if d.code != n then Err(ZstdSizeMismatch(n, d.code)) else Ok(d.bytes)
  }

  /** Every body survives the zstd codec, the empty one included. */
  lemma {:induction false} ZstdRoundTrip(z: ZstdLib, data: Bytes)
    requires ZstdRoundTrips(z)
    ensures ZstdCompress(z, data).Ok?
    ensures ZstdUncompress(z, ZstdCompress(z, data).value) == Ok(data)
  {
    var c := z.compress(data, z.compressBound(|data|));
    assert !z.isError(c.code) && z.findDecompressedSize(c.bytes) == ContentSize(|data|);
  }

  // ---------------------------------------------------------------------
  // codec::make_unique

  datatype CodecType = Lz4 | Zstd
  datatype CompressionLevel = Fastest | Best

  datatype Codec = Codec(kind: CodecType, level: CompressionLevel)
  {
    function Compress(libs: NativeLibs, data: Bytes): (r: Result<Bytes, CodecError>)
      ensures kind == Lz4 ==> r == Lz4Compress(libs.lz4, data)
      ensures kind == Zstd ==> r == ZstdCompress(libs.zstd, data)
    {
      match kind
      case Lz4 => Lz4Compress(libs.lz4, data)
      case Zstd => ZstdCompress(libs.zstd, data)
    }

    ghost predicate CanUncompress(data: Bytes)
    {
      kind == Lz4 ==> |data| >= 4
    }

    function Uncompress(libs: NativeLibs, data: Bytes): (r: Result<Bytes, CodecError>)
      requires CanUncompress(data)
      ensures kind == Lz4 ==> r == Lz4Uncompress(libs.lz4, data)
      ensures kind == Zstd ==> r == ZstdUncompress(libs.zstd, data)
    {
      match kind
      case Lz4 => Lz4Uncompress(libs.lz4, data)
      case Zstd => ZstdUncompress(libs.zstd, data)
    }
  }

  /** `codec::make_unique` on the enum's underlying value (lz4 = 0,
      zstd = 1); any other value reaches the `default` branch. */
  function MakeCodec(codecType: int, level: CompressionLevel): (r: Result<Codec, CodecError>)
    ensures r.Ok? <==> codecType in {0, 1}
    ensures r.Ok? ==> r.value.level == level && (r.value.kind == Lz4 <==> codecType == 0)
    ensures r.Err? ==> r.error == CannotFindCodec
  {
    if codecType == 0 then Ok(Codec(Lz4, level))
    else if codecType == 1 then Ok(Codec(Zstd, level))
    else Err(CannotFindCodec)
  }

  ghost predicate LibsRoundTrip(libs: NativeLibs)
  {
    Lz4RoundTrips(libs.lz4) && ZstdRoundTrips(libs.zstd)
  }

  /** Whatever codec the factory builds, a non-empty body comes back. */
  lemma {:induction false} CodecRoundTrip(libs: NativeLibs, c: Codec, data: Bytes)
    requires LibsRoundTrip(libs) && 0 < |data| < 0x1_0000_0000
    ensures c.Compress(libs, data).Ok?
    ensures c.CanUncompress(c.Compress(libs, data).value)
    ensures c.Uncompress(libs, c.Compress(libs, data).value) == Ok(data)
  {
    match c.kind
    case Lz4 => Lz4RoundTrip(libs.lz4, data);
    case Zstd => ZstdRoundTrip(libs.zstd, data);
  }
}
