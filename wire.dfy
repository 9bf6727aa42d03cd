/** Fixed-width integers, little-endian byte order and the few Java integer
    semantics (32-bit wrap-around, truncating remainder) the wire code relies on. */
module Wire {

  type u8 = x: int | 0 <= x < 0x100
  type u16 = x: int | 0 <= x < 0x1_0000
  type u32 = x: int | 0 <= x < 0x1_0000_0000
  type u64 = x: int | 0 <= x < 0x1_0000_0000_0000_0000
  type Bytes = seq<u8>

  const Int32Min: int := -0x8000_0000
  const Int32Max: int := 0x7FFF_FFFF

  predicate IsInt32(x: int) { Int32Min <= x <= Int32Max }

  /** Two's complement wrap-around of a Java `int` (and of a `(int)` cast). */
  function WrapInt32(x: int): (r: int)
    ensures IsInt32(r)
    ensures (r - x) % 0x1_0000_0000 == 0
    ensures IsInt32(x) ==> r == x
  {
    (x - Int32Min) % 0x1_0000_0000 + Int32Min
  }

  /** The unique-remainder property of Euclidean division by 2^32. */
  lemma ModUnique(a: int, q: int, r: int)
    requires 0 <= r < 0x1_0000_0000 && a == q * 0x1_0000_0000 + r
    ensures a % 0x1_0000_0000 == r
  {
  }

  /** Wrapping after each step or once at the end gives the same `int`. */
  lemma WrapInt32Add(x: int, y: int)
    ensures WrapInt32(WrapInt32(x) + y) == WrapInt32(x + y)
  {
    var w := WrapInt32(x);
    var d := w - x;
    assert d % 0x1_0000_0000 == 0;
    var m := d / 0x1_0000_0000;
    assert d == m * 0x1_0000_0000;
    var a := x + y - Int32Min;
    ModUnique(a + m * 0x1_0000_0000, a / 0x1_0000_0000 + m, a % 0x1_0000_0000);
    assert w + y - Int32Min == a + m * 0x1_0000_0000;
  }

  /** Java's `%` on int: the remainder takes the sign of the dividend. */
  function JavaRem(a: int, b: int): (r: int)
    requires b > 0
    ensures a >= 0 ==> r == a % b
    ensures a < 0 ==> -b < r <= 0 && r == -((-a) % b)
  {
    if a >= 0 then a % b else -((-a) % b)
  }

  /** Truncation of an integer to its low 16 / 32 bits: a `(short)` or `(int)`
      store into a flatbuffers struct field, or a `uint16_t` increment. */
  function Low16(x: int): u16 { x % 0x1_0000 }
  function Low32(x: int): u32 { x % 0x1_0000_0000 }

  /** The signed reading of a byte (`int8_t`, Java `byte`). */
  function Int8(b: u8): (r: int)
    ensures -128 <= r < 128
    ensures r % 256 == b
  {
    if b < 128 then b else b - 256
  }

  function LeU16(v: u16): (r: Bytes)
    ensures |r| == 2
  {
    [v % 0x100, v / 0x100]
  }

  function LeU32(v: u32): (r: Bytes)
    ensures |r| == 4
  {
    [v % 0x100, (v / 0x100) % 0x100, (v / 0x1_0000) % 0x100, v / 0x100_0000]
  }

  function ReadLeU16(b: Bytes, off: nat): u16
    requires off + 2 <= |b|
  {
    (b[off] as int) + 0x100 * (b[off + 1] as int)
  }

  function ReadLeU32(b: Bytes, off: nat): u32
    requires off + 4 <= |b|
  {
    (b[off] as int) + 0x100 * (b[off + 1] as int) + 0x1_0000 * (b[off + 2] as int) + 0x100_0000 * (b[off + 3] as int)
  }

  lemma LeU16RoundTrip(v: u16)
    ensures ReadLeU16(LeU16(v), 0) == v
  {
  }

  lemma LeU32RoundTrip(v: u32)
    ensures ReadLeU32(LeU32(v), 0) == v
  {
    var q0 := v / 0x100;
    var q1 := q0 / 0x100;
    ByteDigits(v);
    assert v == v % 0x100 + 0x100 * q0;
    assert q0 == q0 % 0x100 + 0x100 * q1;
    assert q1 == q1 % 0x100 + 0x100 * (q1 / 0x100);
  }

  /** The bytes of `v`, one division by 256 at a time. */
  lemma ByteDigits(v: u32)
    ensures v / 0x1_0000 == v / 0x100 / 0x100
    ensures v / 0x100_0000 == v / 0x100 / 0x100 / 0x100
    ensures v / 0x100 / 0x100 / 0x100 < 0x100
  {
  }

  lemma ReadLeU16Encodes(b: Bytes, off: nat)
    requires off + 2 <= |b|
    ensures LeU16(ReadLeU16(b, off)) == b[off..off + 2]
  {
  }

  lemma ReadLeU32Encodes(b: Bytes, off: nat)
    requires off + 4 <= |b|
    ensures LeU32(ReadLeU32(b, off)) == b[off..off + 4]
  {
    var b0, b1, b2, b3 := b[off] as int, b[off + 1] as int, b[off + 2] as int, b[off + 3] as int;
    var v := ReadLeU32(b, off);
    ByteDigits(v);
    var q0 := b1 + 0x100 * b2 + 0x1_0000 * b3;
    var q1 := b2 + 0x100 * b3;
    assert v == b0 + 0x100 * q0;
    DigitOf(v, b0, q0);
    DigitOf(q0, b1, q1);
    DigitOf(q1, b2, b3);
  }

  /** The low byte and the rest of `d + 256 * q`. */
  lemma DigitOf(x: int, d: int, q: int)
    requires 0 <= d < 0x100 && 0 <= q && x == d + 0x100 * q
    ensures x % 0x100 == d && x / 0x100 == q
  {
  }

  /** xxhash64 is a foreign library: the model takes it as a parameter and
      relies on none of its internals. */
  type XxHash64 = Bytes -> u64

  /** The wire checksum: the low 32 bits of the 64-bit hash of a body. */
  function Checksum(xx: XxHash64, body: Bytes): u32
  {
    xx(body) % 0x1_0000_0000
  }
}
