/** The two buffer types the Java side moves bytes through: Netty's `ByteBuf`
    (separate reader and writer indices, each with a mark) and
    `java.nio.ByteBuffer` (a position and a limit). Only the operations the
    codecs use are modelled. */
module JavaBuffers {
  import opened Wire
  import opened Wrappers

  /** A Java array index is an `int`: no buffer holds more than 2^31-1 bytes. */
  predicate IsJavaLength(n: int) { 0 <= n <= Int32Max }

  class ByteBuf {
    /** The backing store, `capacity()` bytes long. */
    var bytes: Bytes
    var readerIndex: nat
    var writerIndex: nat
    var markedReaderIndex: nat
    var markedWriterIndex: nat

    ghost predicate Valid()
      reads this
    {
      readerIndex <= writerIndex <= |bytes|
      && markedReaderIndex <= |bytes| && markedWriterIndex <= |bytes|
    }

    /** The bytes between the reader and the writer index. */
    function Readable(): (r: Bytes)
      reads this
      requires Valid()
      ensures |r| == writerIndex - readerIndex
    {
      bytes[readerIndex..writerIndex]
    }

    /** A buffer whose written region is exactly `content`. */
    constructor (content: Bytes)
      ensures Valid() && bytes == content && readerIndex == 0 && writerIndex == |content|
      ensures markedReaderIndex == 0 && markedWriterIndex == 0
    {
      bytes, readerIndex, writerIndex := content, 0, |content|;
      markedReaderIndex, markedWriterIndex := 0, 0;
    }

    /** `writeBytes(src)`: `src` lands at the writer index, growing the
        buffer as needed. */
    method WriteBytes(src: Bytes)
      requires Valid()
      modifies this`bytes, this`writerIndex
      ensures Valid() && readerIndex == old(readerIndex)
      ensures writerIndex == old(writerIndex) + |src|
      ensures Readable() == old(Readable()) + src
      ensures bytes[..old(writerIndex)] == old(bytes[..writerIndex])
    {
      if writerIndex + |src| <= |bytes| {
        bytes := bytes[..writerIndex] + src + bytes[writerIndex + |src|..];
      } else {
        bytes := bytes[..writerIndex] + src;
      }
      writerIndex := writerIndex + |src|;
    }

    method MarkReaderIndex()
      requires Valid()
      modifies this`markedReaderIndex
      ensures Valid() && markedReaderIndex == readerIndex
    {
      markedReaderIndex := readerIndex;
    }

    method MarkWriterIndex()
      requires Valid()
      modifies this`markedWriterIndex
      ensures Valid() && markedWriterIndex == writerIndex
    {
      markedWriterIndex := writerIndex;
    }

    /** `readBytes(dst)` for a `dst` of length `n`: fails with
        `IndexOutOfBoundsException` (here `None`) and moves nothing when
        fewer than `n` bytes are readable. */
    method ReadBytes(n: nat) returns (r: Option<Bytes>)
      requires Valid()
      modifies this`readerIndex
      ensures Valid()
      ensures n > old(writerIndex - readerIndex) ==> r == None && readerIndex == old(readerIndex)
      ensures n <= old(writerIndex - readerIndex) ==>
        r == Some(old(Readable())[..n]) && readerIndex == old(readerIndex) + n
    {
      if n > writerIndex - readerIndex {
        return None;
      }
      assert Readable()[..n] == bytes[readerIndex..readerIndex + n];
      r := Some(bytes[readerIndex..readerIndex + n]);
      readerIndex := readerIndex + n;
    }

    /** Netty refuses a reset that would put the reader index past the
        writer index, or the writer index before the reader index. */
    method ResetReaderIndex() returns (ok: bool)
      requires Valid()
      modifies this`readerIndex
      ensures Valid()
      ensures ok == (markedReaderIndex <= writerIndex)
      ensures readerIndex == if ok then markedReaderIndex else old(readerIndex)
    {
      ok := markedReaderIndex <= writerIndex;
      if ok { readerIndex := markedReaderIndex; }
    }

    method ResetWriterIndex() returns (ok: bool)
      requires Valid()
      modifies this`writerIndex
      ensures Valid()
      ensures ok == (markedWriterIndex >= readerIndex)
      ensures writerIndex == if ok then markedWriterIndex else old(writerIndex)
    {
      ok := markedWriterIndex >= readerIndex;
      if ok { writerIndex := markedWriterIndex; }
    }
  }

  class NioBuffer {
    var data: Bytes
    var position: nat
    var limit: nat

    ghost predicate Valid()
      reads this
    {
      position <= limit <= |data| && IsJavaLength(|data|)
    }

    function Remaining(): (r: Bytes)
      reads this
      requires Valid()
      ensures |r| == limit - position && IsJavaLength(|r|)
    {
      data[position..limit]
    }

    /** `ByteBuffer.wrap(array)`. */
    constructor (content: Bytes)
      requires IsJavaLength(|content|)
      ensures Valid() && data == content && position == 0 && limit == |content|
    {
      data, position, limit := content, 0, |content|;
    }

    /** `get(dst)` with `dst` as long as what remains: drains the buffer. */
    method Drain() returns (r: Bytes)
      requires Valid()
      modifies this`position
      ensures Valid() && r == old(Remaining()) && position == limit
    {
      r := data[position..limit];
      position := limit;
    }
  }
}
