/** Two's-complement little-endian `i16`/`i32`, as Rust's `to_le_bytes` and
    `from_le_bytes` lay them out, and the truncating `as i16`/`as i32` casts. */
module LittleEndian {
  import opened Base

  type i16 = x: int | -0x8000 <= x < 0x8000
  type i32 = x: int | -0x8000_0000 <= x < 0x8000_0000

  /** `value.to_le_bytes()` for an `i16`. */
  function I16Bytes(v: i16): (r: seq<byte>)
    ensures |r| == 2
  {
    var u := v % 0x1_0000;
    [(u % 0x100) as byte, (u / 0x100) as byte]
  }

  /** `i16::from_le_bytes([b0, b1])`. */
  function I16From(b0: byte, b1: byte): i16
  {
    var u := b0 as int + 0x100 * b1 as int;
    if u >= 0x8000 then u - 0x1_0000 else u
  }

  /** `value.to_le_bytes()` for an `i32`. */
  function I32Bytes(v: i32): (r: seq<byte>)
    ensures |r| == 4
  {
    var u := v % 0x1_0000_0000;
    var q1 := u / 0x100;
    var q2 := q1 / 0x100;
    [(u % 0x100) as byte, (q1 % 0x100) as byte, (q2 % 0x100) as byte, (q2 / 0x100) as byte]
  }

  /** `i32::from_le_bytes([b0, b1, b2, b3])`. */
  function I32From(b0: byte, b1: byte, b2: byte, b3: byte): i32
  {
    var u := b0 as int + 0x100 * b1 as int + 0x1_0000 * b2 as int + 0x100_0000 * b3 as int;
    if u >= 0x8000_0000 then u - 0x1_0000_0000 else u
  }

  /** Rust's `x as i16` on an `i64`: keep the low 16 bits. */
  function WrapI16(x: int): (r: i16)
    ensures -0x8000 <= x < 0x8000 ==> r == x
    ensures (r - x) % 0x1_0000 == 0
  {
    var u := x % 0x1_0000;
    if u >= 0x8000 then u - 0x1_0000 else u
  }

  /** Rust's `x as i32` on an `i64`: keep the low 32 bits. */
  function WrapI32(x: int): (r: i32)
    ensures -0x8000_0000 <= x < 0x8000_0000 ==> r == x
    ensures (r - x) % 0x1_0000_0000 == 0
  {
    var u := x % 0x1_0000_0000;
    if u >= 0x8000_0000 then u - 0x1_0000_0000 else u
  }

  lemma ByteOfInt(x: int)
    requires 0 <= x < 0x100
    ensures (x as byte) as int == x
  {
  }

  lemma IntOfByte(b: byte)
    ensures 0 <= b as int < 0x100
    ensures (b as int) as byte == b
  {
  }

  /** `u` is its low byte plus 256 times the rest. */
  lemma SplitLow(u: int, n: nat)
    requires 0 <= u < 0x100 * n
    ensures u % 0x100 + 0x100 * (u / 0x100) == u
    ensures 0 <= u % 0x100 < 0x100
    ensures 0 <= u / 0x100 < n
  {
  }

  lemma I16RoundTrip(v: i16)
    ensures I16From(I16Bytes(v)[0], I16Bytes(v)[1]) == v
  {
    var u := v % 0x1_0000;
    SplitLow(u, 0x100);
    ByteOfInt(u % 0x100);
    ByteOfInt(u / 0x100);
    var b := I16Bytes(v);
    assert b[0] as int == u % 0x100;
    assert b[1] as int == u / 0x100;
  }

  lemma I16BytesRoundTrip(b0: byte, b1: byte)
    ensures I16Bytes(I16From(b0, b1)) == [b0, b1]
  {
    IntOfByte(b0);
    IntOfByte(b1);
    var x0, x1 := b0 as int, b1 as int;
    var u := x0 + 0x100 * x1;
    assert I16From(b0, b1) % 0x1_0000 == u;
    assert u % 0x100 == x0 && u / 0x100 == x1;
    var r := I16Bytes(I16From(b0, b1));
    assert r[0] == x0 as byte && r[1] == x1 as byte;
  }

  lemma I32RoundTrip(v: i32)
    ensures I32From(I32Bytes(v)[0], I32Bytes(v)[1], I32Bytes(v)[2], I32Bytes(v)[3]) == v
  {
    var u := v % 0x1_0000_0000;
    var q1 := u / 0x100;
    var q2 := q1 / 0x100;
    SplitLow(u, 0x100_0000);
    SplitLow(q1, 0x1_0000);
    SplitLow(q2, 0x100);
    ByteOfInt(u % 0x100);
    ByteOfInt(q1 % 0x100);
    ByteOfInt(q2 % 0x100);
    ByteOfInt(q2 / 0x100);
    var b := I32Bytes(v);
    assert b[0] as int == u % 0x100;
    assert b[1] as int == q1 % 0x100;
    assert b[2] as int == q2 % 0x100;
    assert b[3] as int == q2 / 0x100;
  }

  /** The integer side of `I32BytesRoundTrip`. */
  lemma Compose32(x0: int, x1: int, x2: int, x3: int)
    requires 0 <= x0 < 0x100 && 0 <= x1 < 0x100 && 0 <= x2 < 0x100 && 0 <= x3 < 0x100
    ensures var u := x0 + 0x100 * x1 + 0x1_0000 * x2 + 0x100_0000 * x3;
      && u % 0x100 == x0
      && u / 0x100 % 0x100 == x1
      && u / 0x100 / 0x100 % 0x100 == x2
      && u / 0x100 / 0x100 / 0x100 == x3
  {
    var u := x0 + 0x100 * x1 + 0x1_0000 * x2 + 0x100_0000 * x3;
    var q1 := x1 + 0x100 * x2 + 0x1_0000 * x3;
    var q2 := x2 + 0x100 * x3;
    assert u == x0 + 0x100 * q1;
    assert q1 == x1 + 0x100 * q2;
    assert u % 0x100 == x0 && u / 0x100 == q1;
    assert q1 % 0x100 == x1 && q1 / 0x100 == q2;
    assert q2 % 0x100 == x2 && q2 / 0x100 == x3;
  }

  lemma I32FromUnsigned(b0: byte, b1: byte, b2: byte, b3: byte)
    ensures I32From(b0, b1, b2, b3) % 0x1_0000_0000
         == b0 as int + 0x100 * b1 as int + 0x1_0000 * b2 as int + 0x100_0000 * b3 as int
  {
    IntOfByte(b0);
    IntOfByte(b1);
    IntOfByte(b2);
    IntOfByte(b3);
  }

  lemma I32BytesOfUnsigned(v: i32, x0: int, x1: int, x2: int, x3: int)
    requires 0 <= x0 < 0x100 && 0 <= x1 < 0x100 && 0 <= x2 < 0x100 && 0 <= x3 < 0x100
    requires v % 0x1_0000_0000 == x0 + 0x100 * x1 + 0x1_0000 * x2 + 0x100_0000 * x3
    ensures I32Bytes(v) == [x0 as byte, x1 as byte, x2 as byte, x3 as byte]
  {
    Compose32(x0, x1, x2, x3);
  }

  lemma I32BytesRoundTrip(b0: byte, b1: byte, b2: byte, b3: byte)
    ensures I32Bytes(I32From(b0, b1, b2, b3)) == [b0, b1, b2, b3]
  {
    IntOfByte(b0);
    IntOfByte(b1);
    IntOfByte(b2);
    IntOfByte(b3);
    I32FromUnsigned(b0, b1, b2, b3);
    I32BytesOfUnsigned(I32From(b0, b1, b2, b3), b0 as int, b1 as int, b2 as int, b3 as int);
  }

  /** The simulator's unit tests of `encode_response`. */
  lemma Examples()
    ensures I16Bytes(42) == [42, 0]
    ensures I32Bytes(1000) == [0xE8, 0x03, 0x00, 0x00]
  {
    I16BytesRoundTrip(42, 0);
    I32BytesRoundTrip(0xE8, 0x03, 0x00, 0x00);
  }
}
