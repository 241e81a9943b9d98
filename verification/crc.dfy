/** The 8-bit checksum shared by all three implementations: polynomial 0x07,
    initial value 0x00, no reflection, no final exclusive-or (the parameter
    set known as CRC-8/SMBUS; the sources call it "CRC-8-CCITT"). */
module Crc {
  import opened Base

  /** The 8-bit register the loops shift and exclusive-or. */
  type Register = bv8

  const POLY: Register := 0x07

  /** One pass of the inner `for j in 0..8` loop. */
  function ShiftStep(c: Register): Register
  {
    if c & 0x80 != 0 then (c << 1) ^ POLY else c << 1
  }

  /** `n` passes of the inner loop. */
  function Shifts(c: Register, n: nat): Register
  {
    if n == 0 then c else ShiftStep(Shifts(c, n - 1))
  }

  /** The work the outer loop does for one input byte. */
  function AbsorbByte(crc: Register, b: byte): Register
  {
    Shifts(crc ^ b as Register, 8)
  }

  /** The outer loop, run from accumulator `acc` over `data`. */
  function CrcFrom(acc: Register, data: seq<byte>): Register
    decreases |data|
  {
    if data == [] then acc else CrcFrom(AbsorbByte(acc, data[0]), data[1..])
  }

  /** The checksum of `data`. */
  function Crc8(data: seq<byte>): byte
  {
    CrcFrom(0x00, data) as byte
  }

  lemma {:induction false} CrcFromConcat(acc: Register, xs: seq<byte>, ys: seq<byte>)
    ensures CrcFrom(acc, xs + ys) == CrcFrom(CrcFrom(acc, xs), ys)
    decreases |xs|
  {
    if xs == [] {
      assert xs + ys == ys;
    } else {
      assert (xs + ys)[1..] == xs[1..] + ys;
      CrcFromConcat(AbsorbByte(acc, xs[0]), xs[1..], ys);
    }
  }

  /** The checksum is a left fold: empty input gives 0x00, and one more byte
      is absorbed into the register left by what came before. */
  lemma Crc8IsLeftFold(xs: seq<byte>, b: byte)
    ensures Crc8([]) == 0x00
    ensures CrcFrom(0x00, xs + [b]) == AbsorbByte(CrcFrom(0x00, xs), b)
  {
    CrcFromConcat(0x00, xs, [b]);
  }

  /** Absorbing a byte whose register value is `x`. */
  lemma AbsorbsAs(crc: Register, b: byte, x: Register)
    requires b as Register == x
    ensures AbsorbByte(crc, b) == Shifts(crc ^ x, 8)
  {
  }

  /** The simulator's unit-test vector, and the single byte 0x05. */
  lemma Crc8OfCountingBytes()
    ensures Crc8([0x01, 0x02, 0x03]) == 0x48
    ensures Crc8([0x05]) == 0x1B
  {
    AbsorbsAs(0x00, 0x01, 0x01);
    AbsorbsAs(0x07, 0x02, 0x02);
    assert Shifts(0x05, 8) == 0x1B;
    AbsorbsAs(0x1B, 0x03, 0x03);
    assert Shifts(0x18, 8) == 0x48;
    assert CrcFrom(0x00, [0x01, 0x02, 0x03]) == CrcFrom(0x07, [0x02, 0x03]);
    assert CrcFrom(0x07, [0x02, 0x03]) == CrcFrom(0x1B, [0x03]);
    assert CrcFrom(0x1B, [0x03]) == 0x48;
    AbsorbsAs(0x00, 0x05, 0x05);
  }

  /** The error payloads: the firmware's lone 0xFF and the simulator's
      0xFF followed by an error code. */
  lemma Crc8OfErrorPayloads()
    ensures Crc8([0xFF]) == 0xF3
    ensures Crc8([0xFF, 0x01]) == 0xD0
    ensures Crc8([0xFF, 0x02]) == 0xD9
  {
    AbsorbsAs(0x00, 0xFF, 0xFF);
    AbsorbsAs(0xF3, 0x01, 0x01);
    assert Shifts(0xF2, 8) == 0xD0;
    AbsorbsAs(0xF3, 0x02, 0x02);
    assert Shifts(0xF1, 8) == 0xD9;
    assert CrcFrom(0x00, [0xFF, 0x01]) == CrcFrom(0xF3, [0x01]);
    assert CrcFrom(0x00, [0xFF, 0x02]) == CrcFrom(0xF3, [0x02]);
  }

  /** The Rust `crc8(data: &[u8])` of the simulator's protocol module; the
      adapter's `ConnectionManager::crc8` is the same loop. */
  method ComputeCrc8(data: seq<byte>) returns (crc: byte)
    ensures crc == Crc8(data)
  {
    var reg: Register := 0x00;
    var i := 0;
    while i < |data|
      invariant 0 <= i <= |data|
      invariant reg == CrcFrom(0x00, data[..i])
    {
      var start := reg ^ data[i] as Register;
      reg := start;
      var j := 0;
      while j < 8
        invariant 0 <= j <= 8
        invariant reg == Shifts(start, j)
      {
        if reg & 0x80 != 0 {
          reg := (reg << 1) ^ POLY;
        } else {
          reg := reg << 1;
        }
        j := j + 1;
      }
      assert data[..i + 1] == data[..i] + [data[i]];
      Crc8IsLeftFold(data[..i], data[i]);
      i := i + 1;
    }
    assert data[..i] == data;
    crc := reg as byte;
  }
}
