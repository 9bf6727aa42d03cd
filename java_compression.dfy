/** The Java `CompressionService`: a dispatch on the header's compression
    flag, with zstd frames passed through as the library produces them and
    lz4 blocks framed behind a 4-byte little-endian original length. */
module JavaCompression {
  import opened Wire
  import opened Wrappers
  import opened FrameHeader
  import opened JavaBuffers

  datatype CompressionError =
    | UnsupportedCompression   // UnsupportedOperationException
    | NegativeArraySize        // NegativeArraySizeException
    | BufferUnderflow          // BufferUnderflowException
    | Lz4Failure               // LZ4Exception: malformed block

  /** The zstd-jni and lz4-java entry points the service calls. */
  datatype JavaCodecs = JavaCodecs(
    zstdCompress: Bytes -> Bytes,            // compress into a bound-sized buffer, trimmed
    zstdDecompressedSize: Bytes -> int,      // the frame's declared content size (a long)
    zstdDecompress: (Bytes, nat) -> Bytes,   // fill a destination of the given length
    lz4Compress: Bytes -> Bytes,             // raw lz4 block
    lz4Decompress: (Bytes, nat) -> Option<Bytes>)  // fast decompressor, exact output length

  /** The round-trip properties of the two libraries, for one body. */
  predicate CodecsRoundTrip(c: JavaCodecs, body: Bytes)
  {
    && c.zstdDecompressedSize(c.zstdCompress(body)) == |body|
    && c.zstdDecompress(c.zstdCompress(body), |body|) == body
    && c.lz4Decompress(c.lz4Compress(body), |body|) == Some(body)
  }

  predicate IsSupported(flag: int)
  {
    flag == CompressionNone || flag == CompressionDisabled
    || flag == CompressionZstd || flag == CompressionLz4
  }

  /** The lz4 frame: original length (little-endian `int`) then the block. */
  function Lz4Frame(originalLength: nat, block: Bytes): (r: Bytes)
    requires IsJavaLength(originalLength)
    ensures |r| == |block| + 4
    ensures ReadLeU32(r, 0) == originalLength && r[4..] == block
  {
    LeU32RoundTrip(originalLength);
    assert (LeU32(originalLength) + block)[..4] == LeU32(originalLength);
    LeU32(originalLength) + block
  }

  function CompressBody(c: JavaCodecs, flag: int, body: Bytes): (r: Result<Bytes, CompressionError>)
    requires IsJavaLength(|body|)
    ensures (flag == CompressionNone || flag == CompressionDisabled) ==> r == Ok(body)
    ensures !IsSupported(flag) <==> r == Err(UnsupportedCompression)
    ensures flag == CompressionZstd ==> r == Ok(c.zstdCompress(body))
    ensures flag == CompressionLz4 ==> r == Ok(Lz4Frame(|body|, c.lz4Compress(body)))
  {
    if flag == CompressionNone || flag == CompressionDisabled then Ok(body)
    else if flag == CompressionZstd then Ok(c.zstdCompress(body))
    else if flag == CompressionLz4 then Ok(Lz4Frame(|body|, c.lz4Compress(body)))
    else Err(UnsupportedCompression)
  }

  /** `decompressUsingZstd`: the declared size goes through an `(int)` cast
      before the destination array is allocated. */
  function DecompressZstd(c: JavaCodecs, body: Bytes): (r: Result<Bytes, CompressionError>)
    ensures r.Err? <==> WrapInt32(c.zstdDecompressedSize(body)) < 0
    ensures r.Err? ==> r.error == NegativeArraySize
  {
    var size := WrapInt32(c.zstdDecompressedSize(body));
    if size < 0 then Err(NegativeArraySize) else Ok(c.zstdDecompress(body, size))
  }

  /** `decompressUsingLz4`: `getInt` reads the signed little-endian length
      at offset 0; the block starts at offset 4. */
  function DecompressLz4(c: JavaCodecs, body: Bytes): (r: Result<Bytes, CompressionError>)
    ensures |body| < 4 ==> r == Err(BufferUnderflow)
    ensures |body| >= 4 && ReadLeU32(body, 0) <= Int32Max ==>
      r == match c.lz4Decompress(body[4..], ReadLeU32(body, 0))
           case Some(out) => Ok(out)
           case None => Err(Lz4Failure)
    ensures |body| >= 4 && ReadLeU32(body, 0) > Int32Max ==> r == Err(NegativeArraySize)
  {
    if |body| < 4 then Err(BufferUnderflow)
    else
      var originalSize := WrapInt32(ReadLeU32(body, 0));
      if originalSize < 0 then Err(NegativeArraySize)
      else match c.lz4Decompress(body[4..], originalSize)
        case Some(out) => Ok(out)
        case None => Err(Lz4Failure)
  }

  function DecompressBody(c: JavaCodecs, flag: int, body: Bytes): (r: Result<Bytes, CompressionError>)
    ensures (flag == CompressionNone || flag == CompressionDisabled) ==> r == Ok(body)
    ensures !IsSupported(flag) ==> r == Err(UnsupportedCompression)
    ensures flag == CompressionZstd ==> r == DecompressZstd(c, body)
    ensures flag == CompressionLz4 ==> r == DecompressLz4(c, body)
  {
    if flag == CompressionNone || flag == CompressionDisabled then Ok(body)
    else if flag == CompressionZstd then DecompressZstd(c, body)
    else if flag == CompressionLz4 then DecompressLz4(c, body)
    else Err(UnsupportedCompression)
  }

  /** Given the libraries' own round trips, every supported flag gives back
      the original body. */
  lemma {:induction false} CompressRoundTrip(c: JavaCodecs, flag: int, body: Bytes)
    requires IsJavaLength(|body|) && IsSupported(flag)
    requires CodecsRoundTrip(c, body)
    ensures CompressBody(c, flag, body).Ok?
    ensures DecompressBody(c, flag, CompressBody(c, flag, body).value) == Ok(body)
  {
    if flag == CompressionLz4 {
      var framed := CompressBody(c, flag, body).value;
      assert ReadLeU32(framed, 0) == |body| && framed[4..] == c.lz4Compress(body);
      assert DecompressLz4(c, framed) == Ok(body);
    }
  }

  /** An unknown flag fails both ways before any codec is touched. */
  lemma UnsupportedFlag(c: JavaCodecs, flag: int, body: Bytes)
    requires IsJavaLength(|body|) && !IsSupported(flag)
    ensures CompressBody(c, flag, body) == Err(UnsupportedCompression)
    ensures DecompressBody(c, flag, body) == Err(UnsupportedCompression)
  {
  }

  /** `compressUsingLz4` as written: a destination of `compressedLength + 4`
      bytes, `putInt(body.length)` at offset 0, then `arraycopy` of the block
      to offset 4. */
  method CompressUsingLz4(c: JavaCodecs, body: Bytes) returns (finalArray: array<u8>)
    requires IsJavaLength(|body|)
    ensures fresh(finalArray)
    ensures finalArray[..] == Lz4Frame(|body|, c.lz4Compress(body))
  {
    var compressed := c.lz4Compress(body);
    finalArray := new u8[|compressed| + 4];
    var prefix := LeU32(|body|);
    finalArray[0], finalArray[1], finalArray[2], finalArray[3] := prefix[0], prefix[1], prefix[2], prefix[3];
    var i := 0;
    while i < |compressed|
      invariant 0 <= i <= |compressed|
      invariant finalArray[..4] == prefix
      invariant finalArray[4..4 + i] == compressed[..i]
    {
      finalArray[4 + i] := compressed[i];
      i := i + 1;
    }
    assert finalArray[..] == finalArray[..4] + finalArray[4..4 + i];
  }

  /** The `ByteBuffer` overload drains what remains of the buffer and
      compresses those bytes. */
  method CompressBuffer(c: JavaCodecs, flag: int, body: NioBuffer)
    returns (r: Result<Bytes, CompressionError>)
    requires body.Valid()
    modifies body`position
    ensures body.Valid() && body.position == body.limit
    ensures r == CompressBody(c, flag, old(body.Remaining()))
  {
    var bodyArray := body.Drain();
    r := CompressBody(c, flag, bodyArray);
  }
}
