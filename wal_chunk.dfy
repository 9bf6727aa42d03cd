/** `wal_segment::chunk`: one aligned write buffer of the write-ahead log,
    filled front to back and padded with zeros before a partial flush. */
module WalChunk {
  import opened Wire

  class Chunk {
    /** `size`: the buffer length, the file's DMA alignment. */
    const size: nat
    const buf: array<u8>
    /** `pos_`: how much of the buffer is written. */
    var pos: nat

    ghost predicate Valid()
      reads this
    {
      buf.Length == size && pos <= size
    }

    constructor (alignment: nat)
      ensures Valid() && size == alignment && pos == 0 && fresh(buf)
    {
      size := alignment;
      buf := new u8[alignment];
      pos := 0;
    }

    function IsFull(): (r: bool)
      reads this
      requires Valid()
      ensures r <==> SpaceLeft() == 0
    {
      pos == size
    }

    function SpaceLeft(): (r: nat)
      reads this
      requires Valid()
      ensures r + pos == size
    {
      size - pos
    }

    /** The bytes written so far. */
    ghost function Written(): seq<u8>
      reads this, buf
      requires Valid()
    {
      buf[..pos]
    }

    /** `append(src, sz)`: copies as much of `src` as fits after `pos_` and
        returns how much that was. The rest of the buffer is untouched. */
    method Append(src: Bytes) returns (n: nat)
      requires Valid()
      modifies this`pos, buf
      ensures Valid()
      ensures n == if |src| > old(SpaceLeft()) then old(SpaceLeft()) else |src|
      ensures pos == old(pos) + n
      ensures buf[..] == old(buf[..pos]) + src[..n] + old(buf[..])[pos..]
      ensures Written() == old(Written()) + src[..n] == Appended(old(Written()), size, src)
    {
      n := if |src| > SpaceLeft() then SpaceLeft() else |src|;
      ghost var before := buf[..];
      var i := 0;
      while i < n
        invariant 0 <= i <= n && pos == old(pos) && pos + n <= buf.Length
        invariant forall k :: 0 <= k < buf.Length ==>
          buf[k] == if pos <= k < pos + i then src[k - pos] else before[k]
      {
        buf[pos + i] := src[i];
        i := i + 1;
      }
      assert buf[..] == before[..pos] + src[..n] + before[pos + n..];
      pos := pos + n;
    }

    /** `zero_tail`: the unwritten part of the buffer becomes zeros. */
    method ZeroTail()
      requires Valid()
      modifies buf
      ensures Valid()
      ensures buf[..] == old(buf[..pos]) + seq(size - pos, _ => 0)
    {
      var i := pos;
      while i < size
        invariant pos <= i <= size
        invariant forall k :: 0 <= k < size ==> buf[k] == if pos <= k < i then 0 else old(buf[k])
      {
        buf[i] := 0;
        i := i + 1;
      }
      assert buf[..] == old(buf[..pos]) + seq(size - pos, _ => 0);
    }
  }

  /** What a chunk of `size` bytes holding `w` holds after `append(src)`. */
  function Appended(w: seq<u8>, size: nat, src: seq<u8>): (r: seq<u8>)
    requires |w| <= size
    ensures |w| <= |r| <= size && r[..|w|] == w
    ensures |r| == size || r == w + src
  {
    var n := if |src| > size - |w| then size - |w| else |src|;
    w + src[..n]
  }

  /** Appending `a` and then `b` leaves the chunk as appending `a + b` at
      once: the bytes that do not fit are the same either way. */
  lemma {:induction false} AppendedConcat(w: seq<u8>, size: nat, a: seq<u8>, b: seq<u8>)
    requires |w| <= size
    ensures Appended(Appended(w, size, a), size, b) == Appended(w, size, a + b)
  {
    var w1 := Appended(w, size, a);
    if |a| > size - |w| {
      assert w1 == w + (a + b)[..size - |w|];
    } else {
      var n := if |b| > size - |w1| then size - |w1| else |b|;
      assert (a + b)[..|a| + n] == a + b[..n];
    }
  }
}
