/** The simulator's command and response codec, `arduino-simulator/protocol.rs`:
    a command frame is `tag, args…, crc` and a response frame is
    `body…, crc`, the CRC being CRC-8 of everything before it. */
module SimulatorProtocol {
  import opened Base
  import opened Crc
  import opened LittleEndian

  /** `ResponseData`; a `CStr` carries the string's bytes. */
  datatype ResponseData = Void | I16(i: i16) | I32(w: i32) | CStr(s: seq<byte>)

  datatype CommandError = EmptyFrame | FrameTooShort | CrcMismatch

  /** The error's `to_string()`. */
  function CommandErrorMessage(e: CommandError): string
  {
    match e
    case EmptyFrame => "Empty command frame"
    case FrameTooShort => "Command frame too short " + "(need at least tag + CRC)"
    case CrcMismatch => "CRC mismatch"
  }

  /** `decode_command`: checks length, then the trailing CRC, and splits off
      the tag. */
  function DecodeCommand(frame: seq<byte>): (r: Result<(byte, seq<byte>), CommandError>)
    ensures r == Err(EmptyFrame) <==> |frame| == 0
    ensures r == Err(FrameTooShort) <==> |frame| == 1
    ensures r.Ok? <==> |frame| >= 2 && frame[|frame| - 1] == Crc8(frame[..|frame| - 1])
    ensures r.Ok? ==> [r.value.0] + r.value.1 + [Crc8(frame[..|frame| - 1])] == frame
  {
    if |frame| == 0 then Err(EmptyFrame)
    else if |frame| < 2 then Err(FrameTooShort)
    else
      var data, receivedCrc := frame[..|frame| - 1], frame[|frame| - 1];
      if Crc8(data) != receivedCrc then Err(CrcMismatch)
      else
        var args := if |data| > 1 then data[1..] else [];
        assert [data[0]] + args == data;
        Ok((data[0], args))
  }

  /** The body bytes of a response, before the CRC. */
  function ResponseBody(r: ResponseData): seq<byte>
  {
    match r
    case Void => []
    case I16(v) => I16Bytes(v)
    case I32(v) => I32Bytes(v)
    case CStr(s) => s + [0]
  }

  /** `encode_response` (its `Result` is always `Ok`). */
  function EncodeResponse(r: ResponseData): (frame: seq<byte>)
    ensures |frame| == |ResponseBody(r)| + 1
    ensures frame[..|frame| - 1] == ResponseBody(r)
    ensures frame[|frame| - 1] == Crc8(frame[..|frame| - 1])
  {
    var body := ResponseBody(r);
    assert (body + [Crc8(body)])[..|body|] == body;
    body + [Crc8(body)]
  }

  /** Every command a host builds by appending the CRC decodes back into its
      tag and arguments. */
  lemma DecodeCommandRoundTrip(tag: byte, args: seq<byte>)
    ensures DecodeCommand([tag] + args + [Crc8([tag] + args)]) == Ok((tag, args))
  {
    var frame := [tag] + args + [Crc8([tag] + args)];
    assert frame[..|frame| - 1] == [tag] + args;
    assert frame[|frame| - 1] == Crc8([tag] + args);
    var r := DecodeCommand(frame);
    assert r.Ok?;
    assert [r.value.0] + r.value.1 == [tag] + args by {
      assert [r.value.0] + r.value.1 + [Crc8([tag] + args)] == [tag] + args + [Crc8([tag] + args)];
    }
    assert r.value.0 == ([tag] + args)[0];
    assert r.value.1 == ([r.value.0] + r.value.1)[1..];
  }

  /** The body of each response kind is its little-endian value or its
      NUL-terminated bytes, read back by the LE readers. */
  lemma ResponseBodyDecodes(r: ResponseData)
    ensures r.Void? ==> EncodeResponse(r) == [0x00]
    ensures r.I16? ==> |EncodeResponse(r)| == 3 && I16From(EncodeResponse(r)[0], EncodeResponse(r)[1]) == r.i
    ensures r.I32? ==>
      |EncodeResponse(r)| == 5
      && I32From(EncodeResponse(r)[0], EncodeResponse(r)[1], EncodeResponse(r)[2], EncodeResponse(r)[3]) == r.w
    ensures r.CStr? ==>
      |EncodeResponse(r)| == |r.s| + 2
      && EncodeResponse(r)[..|r.s|] == r.s && EncodeResponse(r)[|r.s|] == 0
  {
    match r
    case Void =>
      assert Crc8([]) == 0 by { Crc8IsLeftFold([], 0); }
    case I16(v) =>
      var e, body := EncodeResponse(r), I16Bytes(v);
      assert e[..2] == body;
      assert e[0] == body[0] && e[1] == body[1];
      I16RoundTrip(v);
    case I32(v) =>
      var e, body := EncodeResponse(r), I32Bytes(v);
      assert e[..4] == body;
      assert e[0] == body[0] && e[1] == body[1] && e[2] == body[2] && e[3] == body[3];
      I32RoundTrip(v);
    case CStr(s) =>
      var e := EncodeResponse(r);
      assert e[..|s| + 1] == s + [0];
      assert e[..|s|] == (s + [0])[..|s|];
  }

  /** The cases of the unit tests next to the codec. */
  lemma CodecExamples()
    ensures |EncodeResponse(Void)| == 1
    ensures EncodeResponse(I16(42))[..2] == [42, 0]
    ensures EncodeResponse(I32(1000))[..4] == [0xE8, 0x03, 0x00, 0x00]
    ensures |EncodeResponse(CStr([0x68, 0x65, 0x6C, 0x6C, 0x6F]))| == 7
    ensures DecodeCommand([5, Crc8([5])]) == Ok((5, []))
    ensures DecodeCommand([1, 100, 0, Crc8([1, 100, 0])]) == Ok((1, [100, 0]))
    ensures DecodeCommand([5, 0xFF]) == Err(CrcMismatch)
  {
    Examples();
    DecodeCommandRoundTrip(5, []);
    assert [5] + [] + [Crc8([5])] == [5, Crc8([5])];
    DecodeCommandRoundTrip(1, [100, 0]);
    assert [1] + [100, 0] + [Crc8([1, 100, 0])] == [1, 100, 0, Crc8([1, 100, 0])];
    Crc8OfCountingBytes();
    assert [5, 0xFF][..1] == [5];
  }
}
