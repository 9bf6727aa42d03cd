/** The C++ compression filters. An outgoing filter compresses an
    uncompressed envelope body larger than its threshold and stamps the
    codec's flag and a fresh checksum on the header; an incoming filter
    undoes that for a context carrying its codec's flag. Both update the
    envelope or context they are handed. */
module Filters {
  import opened Wire
  import opened Wrappers
  import opened FrameHeader
  import opened NativeCompression

  /** `checksum_rpc`: the header is made to describe the body, its size and
      the low 32 bits of its xxhash64; nothing else of it changes. */
  function ChecksumRpc(xx: XxHash64, h: Header, body: Bytes): (r: Header)
    ensures Describes(xx, r, body)
    ensures r.(size := h.size, checksum := h.checksum) == h
  {
    h.(size := |body| % 0x1_0000_0000, checksum := Checksum(xx, body))
  }

  ghost predicate Describes(xx: XxHash64, h: Header, body: Bytes)
  {
    h.size == |body| % 0x1_0000_0000 && h.checksum == Checksum(xx, body)
  }

  function FlagFor(kind: CodecType): (r: u8)
    ensures r != CompressionNone && r <= CompressionMax
    ensures r == CompressionLz4 <==> kind == Lz4
  {
    match kind
    case Lz4 => CompressionLz4
    case Zstd => CompressionZstd
  }

  /** The outgoing rule both compression filters follow. */
  function CompressLetter(libs: NativeLibs, xx: XxHash64, codec: Codec, minCompressionSize: nat,
                          h: Header, body: Bytes): (r: Result<(Header, Bytes), CodecError>)
    ensures h.compression != CompressionNone || |body| <= minCompressionSize ==> r == Ok((h, body))
    ensures h.compression == CompressionNone && |body| > minCompressionSize ==>
      var c := codec.Compress(libs, body);
      && (r.Ok? <==> c.Ok?)
      && (r.Err? ==> r.error == c.error)
      && (r.Ok? ==> r.value.1 == c.value
                    && r.value.0 == ChecksumRpc(xx, h.(compression := FlagFor(codec.kind)), c.value))
  {
    if h.compression != CompressionNone || |body| <= minCompressionSize then Ok((h, body))
    else
      match codec.Compress(libs, body)
      case Err(e) => Err(e)
      case Ok(c) => Ok((ChecksumRpc(xx, h.(compression := FlagFor(codec.kind)), c), c))
  }

  /** The incoming rule both decompression filters follow. */
  function DecompressContext(libs: NativeLibs, xx: XxHash64, codec: Codec,
                             h: Header, payload: Bytes): (r: Result<(Header, Bytes), CodecError>)
    requires h.compression == FlagFor(codec.kind) ==> codec.CanUncompress(payload)
    ensures h.compression != FlagFor(codec.kind) ==> r == Ok((h, payload))
    ensures h.compression == FlagFor(codec.kind) ==>
      var d := codec.Uncompress(libs, payload);
      && (r.Ok? <==> d.Ok?)
      && (r.Err? ==> r.error == d.error)
      && (r.Ok? ==> r.value.1 == d.value
                    && r.value.0 == ChecksumRpc(xx, h.(compression := CompressionNone), d.value))
  {
    if h.compression != FlagFor(codec.kind) then Ok((h, payload))
    else
      match codec.Uncompress(libs, payload)
      case Err(e) => Err(e)
      case Ok(d) => Ok((ChecksumRpc(xx, h.(compression := CompressionNone), d), d))
  }

  /** An uncompressed letter whose header describes its body comes out of
      the incoming filter exactly as it went into the outgoing one, whichever
      codec and threshold the pair uses. */
  lemma {:induction false} FilterRoundTrip(libs: NativeLibs, xx: XxHash64, codec: Codec, minCompressionSize: nat,
                                           h: Header, body: Bytes)
    requires LibsRoundTrip(libs) && |body| < 0x1_0000_0000
    requires h.compression == CompressionNone && Describes(xx, h, body)
    ensures var c := CompressLetter(libs, xx, codec, minCompressionSize, h, body);
      && c.Ok?
      && (c.value.0.compression == FlagFor(codec.kind) ==> codec.CanUncompress(c.value.1))
      && DecompressContext(libs, xx, codec, c.value.0, c.value.1) == Ok((h, body))
  {
    if |body| > minCompressionSize {
      CodecRoundTrip(libs, codec, body);
      var c := codec.Compress(libs, body).value;
      var h1 := ChecksumRpc(xx, h.(compression := FlagFor(codec.kind)), c);
      assert h1.compression == FlagFor(codec.kind);
      var h2 := ChecksumRpc(xx, h1.(compression := CompressionNone), body);
      assert h2 == h;
    }
  }

  /** The filters' `static thread_local` compressors. */
  const Lz4Compressor: Codec := Codec(Lz4, Fastest)
  const ZstdCompressor: Codec := Codec(Zstd, Fastest)

  /** `rpc_envelope`'s letter. */
  class Envelope {
    var header: Header
    var body: Bytes

    constructor (h: Header, b: Bytes)
      ensures header == h && body == b
    {
      header, body := h, b;
    }
  }

  /** `rpc_recv_context`. */
  class Context {
    var header: Header
    var payload: Bytes

    constructor (h: Header, p: Bytes)
      ensures header == h && payload == p
    {
      header, payload := h, p;
    }
  }

  /** Applies the outgoing rule to `e`; a throwing codec leaves it as it was. */
  method CompressInPlace(libs: NativeLibs, xx: XxHash64, codec: Codec, minCompressionSize: nat, e: Envelope)
    returns (r: Result<(), CodecError>)
    modifies e
    ensures var spec := CompressLetter(libs, xx, codec, minCompressionSize, old(e.header), old(e.body));
      && (r.Ok? <==> spec.Ok?)
      && (r.Ok? ==> (e.header, e.body) == spec.value)
      && (r.Err? ==> r.error == spec.error && e.header == old(e.header) && e.body == old(e.body))
  {
    if e.header.compression != CompressionNone {
      return Ok(());
    }
    if |e.body| <= minCompressionSize {
      return Ok(());
    }
    var buf := codec.Compress(libs, e.body);
    if buf.Err? {
      return Err(buf.error);
    }
    e.body := buf.value;
    e.header := e.header.(compression := FlagFor(codec.kind));
    e.header := ChecksumRpc(xx, e.header, e.body);
    r := Ok(());
  }

  /** Applies the incoming rule to `ctx`; a throwing codec leaves it as it was. */
  method DecompressInPlace(libs: NativeLibs, xx: XxHash64, codec: Codec, ctx: Context)
    returns (r: Result<(), CodecError>)
    requires ctx.header.compression == FlagFor(codec.kind) ==> codec.CanUncompress(ctx.payload)
    modifies ctx
    ensures var spec := DecompressContext(libs, xx, codec, old(ctx.header), old(ctx.payload));
      && (r.Ok? <==> spec.Ok?)
      && (r.Ok? ==> (ctx.header, ctx.payload) == spec.value)
      && (r.Err? ==> r.error == spec.error && ctx.header == old(ctx.header) && ctx.payload == old(ctx.payload))
  {
    if ctx.header.compression == FlagFor(codec.kind) {
      var buf := codec.Uncompress(libs, ctx.payload);
      if buf.Err? {
        return Err(buf.error);
      }
      ctx.payload := buf.value;
      ctx.header := ctx.header.(compression := CompressionNone);
      ctx.header := ChecksumRpc(xx, ctx.header, ctx.payload);
    }
    r := Ok(());
  }

  /** `zstd_compression_filter::operator()`. */
  method ZstdCompressionFilter(libs: NativeLibs, xx: XxHash64, minCompressionSize: nat, e: Envelope)
    returns (r: Result<(), CodecError>)
    modifies e
    ensures var spec := CompressLetter(libs, xx, ZstdCompressor, minCompressionSize, old(e.header), old(e.body));
      && (r.Ok? <==> spec.Ok?)
      && (r.Ok? ==> (e.header, e.body) == spec.value)
      && (r.Err? ==> r.error == spec.error && e.header == old(e.header) && e.body == old(e.body))
  {
    r := CompressInPlace(libs, xx, ZstdCompressor, minCompressionSize, e);
  }

  /** `zstd_decompression_filter::operator()`. */
  method ZstdDecompressionFilter(libs: NativeLibs, xx: XxHash64, ctx: Context)
    returns (r: Result<(), CodecError>)
    modifies ctx
    ensures var spec := DecompressContext(libs, xx, ZstdCompressor, old(ctx.header), old(ctx.payload));
      && (r.Ok? <==> spec.Ok?)
      && (r.Ok? ==> (ctx.header, ctx.payload) == spec.value)
      && (r.Err? ==> r.error == spec.error && ctx.header == old(ctx.header) && ctx.payload == old(ctx.payload))
  {
    r := DecompressInPlace(libs, xx, ZstdCompressor, ctx);
  }

  /** `lz4_compression_filter::operator()`: the envelope is optional, and an
      absent one passes through. */
  method Lz4CompressionFilter(libs: NativeLibs, xx: XxHash64, minCompressionSize: nat, e: Envelope?)
    returns (r: Result<(), CodecError>)
    modifies e
    ensures e == null ==> r == Ok(())
    ensures e != null ==>
      var spec := CompressLetter(libs, xx, Lz4Compressor, minCompressionSize, old(e.header), old(e.body));
      && (r.Ok? <==> spec.Ok?)
      && (r.Ok? ==> (e.header, e.body) == spec.value)
      && (r.Err? ==> r.error == spec.error && e.header == old(e.header) && e.body == old(e.body))
  {
    if e == null {
      return Ok(());
    }
    r := CompressInPlace(libs, xx, Lz4Compressor, minCompressionSize, e);
  }

  /** How control leaves a filter: with its `return`, or off the end of its
      body with no value. */
  datatype Exit = Returned | FellOffEnd

  /** `lz4_decompression_filter::operator()` as written: after the lz4
      branch, the second `if (!ctx)` is false for the context that got past
      the first, and control reaches the end of a function returning a
      future. */
  method Lz4DecompressionFilterAsWritten(libs: NativeLibs, xx: XxHash64, ctx: Context?)
    returns (r: Result<Exit, CodecError>)
    requires ctx != null && ctx.header.compression == CompressionLz4 ==> |ctx.payload| >= 4
    modifies ctx
    ensures ctx == null ==> r == Ok(Returned)
    ensures ctx != null && r.Ok? ==> r == Ok(FellOffEnd)
    ensures ctx != null ==>
      var spec := DecompressContext(libs, xx, Lz4Compressor, old(ctx.header), old(ctx.payload));
      && (r.Ok? <==> spec.Ok?)
      && (r.Ok? ==> (ctx.header, ctx.payload) == spec.value)
  {
    if ctx == null {
      return Ok(Returned);
    }
    var done := DecompressInPlace(libs, xx, Lz4Compressor, ctx);
    if done.Err? {
      return Err(done.error);
    }
    if ctx == null {
      return Ok(Returned);
    }
    r := Ok(FellOffEnd);
  }

  /** `lz4_decompression_filter::operator()` corrected: the context is
      returned whether or not it was decompressed. */
  method Lz4DecompressionFilter(libs: NativeLibs, xx: XxHash64, ctx: Context?)
    returns (r: Result<(), CodecError>)
    requires ctx != null && ctx.header.compression == CompressionLz4 ==> |ctx.payload| >= 4
    modifies ctx
    ensures ctx == null ==> r == Ok(())
    ensures ctx != null ==>
      var spec := DecompressContext(libs, xx, Lz4Compressor, old(ctx.header), old(ctx.payload));
      && (r.Ok? <==> spec.Ok?)
      && (r.Ok? ==> (ctx.header, ctx.payload) == spec.value)
      && (r.Err? ==> r.error == spec.error && ctx.header == old(ctx.header) && ctx.payload == old(ctx.payload))
  {
    if ctx == null {
      return Ok(());
    }
    r := DecompressInPlace(libs, xx, Lz4Compressor, ctx);
  }
}
