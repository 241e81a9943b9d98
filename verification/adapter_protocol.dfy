/** The host's payload codec, `arduino-mcp-adapter/protocol.rs`: a cursor
    that reads little-endian integers and C strings out of a response, an
    encoder that appends them to a command, and the decoding of a response
    by its declared return type. */
module AdapterProtocol {
  import opened Base
  import opened LittleEndian

  datatype ReadError = NotEnoughForI16 | NotEnoughForI32

  /** `read_i16` at cursor `pos`: the value and the cursor afterwards. */
  function ReadI16At(data: seq<byte>, pos: nat): (r: (Result<i16, ReadError>, nat))
    requires pos <= |data|
    ensures r.1 <= |data|
    ensures r.0.Err? <==> pos + 2 > |data|
    ensures r.0.Err? ==> r == (Err(NotEnoughForI16), pos)
    ensures r.0.Ok? ==> r.1 == pos + 2 && I16Bytes(r.0.value) == data[pos..pos + 2]
  {
    if pos + 2 > |data| then (Err(NotEnoughForI16), pos)
    else
      I16BytesRoundTrip(data[pos], data[pos + 1]);
      (Ok(I16From(data[pos], data[pos + 1])), pos + 2)
  }

  /** `read_i32` at cursor `pos`. */
  function ReadI32At(data: seq<byte>, pos: nat): (r: (Result<i32, ReadError>, nat))
    requires pos <= |data|
    ensures r.1 <= |data|
    ensures r.0.Err? <==> pos + 4 > |data|
    ensures r.0.Err? ==> r == (Err(NotEnoughForI32), pos)
    ensures r.0.Ok? ==> r.1 == pos + 4 && I32Bytes(r.0.value) == data[pos..pos + 4]
  {
    if pos + 4 > |data| then (Err(NotEnoughForI32), pos)
    else
      I32BytesRoundTrip(data[pos], data[pos + 1], data[pos + 2], data[pos + 3]);
      (Ok(I32From(data[pos], data[pos + 1], data[pos + 2], data[pos + 3])), pos + 4)
  }

  /** `read_cstring` at cursor `pos`: the bytes up to the first NUL or the
      end, and the cursor past them and past the NUL if there is one. */
  function ReadCStringAt(data: seq<byte>, pos: nat): (r: (seq<byte>, nat))
    requires pos <= |data|
    ensures NoNul(r.0)
    ensures pos + |r.0| <= |data| && data[pos..pos + |r.0|] == r.0
    ensures pos + |r.0| == |data| || data[pos + |r.0|] == 0
    ensures r.1 == if pos + |r.0| < |data| then pos + |r.0| + 1 else pos + |r.0|
  {
    var remaining := data[pos..];
    var endPos := ZeroIndex(remaining);
    if endPos == 0 && |remaining| > 0 && remaining[0] == 0 then
      ([], pos + 1)
    else
      var str := remaining[..endPos];
      var next := pos + endPos;
      if next < |data| && data[next] == 0 then (str, next + 1) else (str, next)
  }

  /** `ResponseDecoder`: a cursor over a borrowed byte slice. */
  class ResponseDecoder {
    const data: seq<byte>
    var pos: nat

    ghost predicate Valid()
      reads this
    {
      pos <= |data|
    }

    constructor (data: seq<byte>)
      ensures Valid() && this.data == data && pos == 0
    {
      this.data := data;
      pos := 0;
    }

    method ReadI16() returns (r: Result<i16, ReadError>)
      requires Valid()
      modifies this`pos
      ensures Valid()
      ensures (r, pos) == ReadI16At(data, old(pos))
    {
      if pos + 2 > |data| {
        return Err(NotEnoughForI16);
      }
      r := Ok(I16From(data[pos], data[pos + 1]));
      pos := pos + 2;
    }

    method ReadI32() returns (r: Result<i32, ReadError>)
      requires Valid()
      modifies this`pos
      ensures Valid()
      ensures (r, pos) == ReadI32At(data, old(pos))
    {
      if pos + 4 > |data| {
        return Err(NotEnoughForI32);
      }
      r := Ok(I32From(data[pos], data[pos + 1], data[pos + 2], data[pos + 3]));
      pos := pos + 4;
    }

    method ReadCString() returns (s: seq<byte>)
      requires Valid()
      modifies this`pos
      ensures Valid()
      ensures (s, pos) == ReadCStringAt(data, old(pos))
    {
      var remaining := data[pos..];
      var endPos := ZeroIndex(remaining);
      if endPos == 0 && |remaining| > 0 && remaining[0] == 0 {
        pos := pos + 1;
        return [];
      }
      s := remaining[..endPos];
      pos := pos + endPos;
      if pos < |data| && data[pos] == 0 {
        pos := pos + 1;
      }
    }
  }

  /** `CommandEncoder`: a growing argument buffer. */
  class CommandEncoder {
    var data: seq<byte>

    constructor ()
      ensures data == []
    {
      data := [];
    }

    method WriteI16(value: i16)
      modifies this
      ensures data == old(data) + I16Bytes(value)
    {
      data := data + I16Bytes(value);
    }

    method WriteI32(value: i32)
      modifies this
      ensures data == old(data) + I32Bytes(value)
    {
      data := data + I32Bytes(value);
    }

    method WriteCString(value: seq<byte>)
      modifies this
      ensures data == old(data) + value + [0]
    {
      data := data + value;
      data := data + [0];
    }

    method Finish() returns (bytes: seq<byte>)
      ensures bytes == data
    {
      bytes := data;
    }
  }

  /** A value the host can put in a command. */
  datatype ArgValue = ArgI16(i: i16) | ArgI32(w: i32) | ArgStr(s: seq<byte>)

  /** The bytes one `write_*` call appends. */
  function EncodeArg(a: ArgValue): (bytes: seq<byte>)
  {
    match a
    case ArgI16(v) => I16Bytes(v)
    case ArgI32(v) => I32Bytes(v)
    case ArgStr(s) => s + [0]
  }

  /** The arguments of a call, encoded one after the other in order. */
  function EncodeArgs(values: seq<ArgValue>): seq<byte>
  {
    if values == [] then [] else EncodeArg(values[0]) + EncodeArgs(values[1..])
  }

  /** Encoding one more value appends its bytes. */
  lemma {:induction false} EncodeArgsSnoc(values: seq<ArgValue>, v: ArgValue)
    ensures EncodeArgs(values + [v]) == EncodeArgs(values) + EncodeArg(v)
    decreases |values|
  {
    if values == [] {
      assert values + [v] == [v];
      assert [v][1..] == [];
    } else {
      assert (values + [v])[1..] == values[1..] + [v];
      EncodeArgsSnoc(values[1..], v);
    }
  }

  /** A value can be read back only if a string holds no NUL. */
  predicate Readable(a: ArgValue)
  {
    a.ArgStr? ==> NoNul(a.s)
  }

  /** The `read_*` call that matches the kind of `a`, at cursor `pos`. */
  function ReadLike(a: ArgValue, data: seq<byte>, pos: nat): (r: (Option<ArgValue>, nat))
    requires pos <= |data|
    ensures pos <= r.1 <= |data|
  {
    match a
    case ArgI16(_) =>
      var (v, next) := ReadI16At(data, pos);
      (if v.Ok? then Some(ArgI16(v.value)) else None, next)
    case ArgI32(_) =>
      var (v, next) := ReadI32At(data, pos);
      (if v.Ok? then Some(ArgI32(v.value)) else None, next)
    case ArgStr(_) =>
      var (s, next) := ReadCStringAt(data, pos);
      (Some(ArgStr(s)), next)
  }

  /** What each `write_*` appends, the matching `read_*` returns, wherever
      it sits in the buffer and whatever follows it; the cursor ends just
      past it. */
  lemma ReadInvertsWrite(prefix: seq<byte>, a: ArgValue, suffix: seq<byte>)
    requires Readable(a)
    ensures var data := prefix + EncodeArg(a) + suffix;
      ReadLike(a, data, |prefix|) == (Some(a), |prefix| + |EncodeArg(a)|)
  {
    match a
    case ArgI16(v) => ReadI16Inverts(prefix, v, suffix);
    case ArgI32(v) => ReadI32Inverts(prefix, v, suffix);
    case ArgStr(s) => ReadCStringInverts(prefix, s, suffix);
  }

  lemma ReadI16Inverts(prefix: seq<byte>, v: i16, suffix: seq<byte>)
    ensures var data := prefix + I16Bytes(v) + suffix;
      ReadI16At(data, |prefix|) == (Ok(v), |prefix| + 2)
  {
    var data := prefix + I16Bytes(v) + suffix;
    assert data[|prefix|..|prefix| + 2] == I16Bytes(v);
    var r := ReadI16At(data, |prefix|);
    I16RoundTrip(v);
    I16RoundTrip(r.0.value);
  }

  lemma ReadI32Inverts(prefix: seq<byte>, v: i32, suffix: seq<byte>)
    ensures var data := prefix + I32Bytes(v) + suffix;
      ReadI32At(data, |prefix|) == (Ok(v), |prefix| + 4)
  {
    var data := prefix + I32Bytes(v) + suffix;
    assert data[|prefix|..|prefix| + 4] == I32Bytes(v);
    var r := ReadI32At(data, |prefix|);
    I32RoundTrip(v);
    I32RoundTrip(r.0.value);
  }

  lemma ReadCStringInverts(prefix: seq<byte>, s: seq<byte>, suffix: seq<byte>)
    requires NoNul(s)
    ensures var data := prefix + (s + [0]) + suffix;
      ReadCStringAt(data, |prefix|) == (s, |prefix| + |s| + 1)
  {
    var data := prefix + (s + [0]) + suffix;
    assert data[|prefix|..|prefix| + |s|] == s;
    assert data[|prefix| + |s|] == 0;
    var r := ReadCStringAt(data, |prefix|);
    assert r.0 == data[|prefix|..|prefix| + |r.0|];
  }

  /** The encoder and decoder used back to back on the same values: each
      value comes back unchanged and the cursor ends at the end. */
  method WriteThenRead(a: i16, b: i32, s: seq<byte>) returns (ra: Result<i16, ReadError>, rb: Result<i32, ReadError>, rs: seq<byte>, atEnd: bool)
    requires NoNul(s)
    ensures ra == Ok(a) && rb == Ok(b) && rs == s && atEnd
  {
    var encoder := new CommandEncoder();
    encoder.WriteI16(a);
    encoder.WriteI32(b);
    encoder.WriteCString(s);
    var bytes := encoder.Finish();
    assert bytes == [] + EncodeArg(ArgI16(a)) + (EncodeArg(ArgI32(b)) + EncodeArg(ArgStr(s)));
    ReadInvertsWrite([], ArgI16(a), EncodeArg(ArgI32(b)) + EncodeArg(ArgStr(s)));
    assert bytes == EncodeArg(ArgI16(a)) + EncodeArg(ArgI32(b)) + EncodeArg(ArgStr(s));
    ReadInvertsWrite(EncodeArg(ArgI16(a)), ArgI32(b), EncodeArg(ArgStr(s)));
    assert bytes == (EncodeArg(ArgI16(a)) + EncodeArg(ArgI32(b))) + EncodeArg(ArgStr(s)) + [];
    ReadInvertsWrite(EncodeArg(ArgI16(a)) + EncodeArg(ArgI32(b)), ArgStr(s), []);
    var decoder := new ResponseDecoder(bytes);
    ra := decoder.ReadI16();
    rb := decoder.ReadI32();
    rs := decoder.ReadCString();
    atEnd := decoder.pos == |bytes|;
  }

  const SUCCESS_MESSAGE: string := "Command executed successfully"

  /** A decoded response as text: the fixed success message, a number
      (its decimal rendering is not modelled), or the bytes of a string. */
  datatype ResponseText = Message(text: string) | Number(n: int) | Text(bytes: seq<byte>)

  /** `decode_response_by_type` */
  function DecodeResponseByType(data: seq<byte>, returnType: string): (r: Result<ResponseText, ReadError>)
    ensures data == [] ==> r == Ok(Message(SUCCESS_MESSAGE))
    ensures data != [] && returnType == "i16" ==>
      (r.Ok? <==> |data| >= 2) && (r.Ok? ==> r.value.Number? && -0x8000 <= r.value.n < 0x8000 && I16Bytes(r.value.n) == data[..2])
    ensures data != [] && returnType == "i32" ==>
      (r.Ok? <==> |data| >= 4) && (r.Ok? ==> r.value.Number? && -0x8000_0000 <= r.value.n < 0x8000_0000 && I32Bytes(r.value.n) == data[..4])
    ensures data != [] && returnType != "i16" && returnType != "i32" ==>
      r.Ok? && r.value.Text? && NoNul(r.value.bytes)
      && |r.value.bytes| <= |data| && data[..|r.value.bytes|] == r.value.bytes
      && (|r.value.bytes| == |data| || data[|r.value.bytes|] == 0)
  {
    if data == [] then Ok(Message(SUCCESS_MESSAGE))
    else if returnType == "CStr" then Ok(Text(ReadCStringAt(data, 0).0))
    else if returnType == "i16" then
      match ReadI16At(data, 0).0
      case Ok(v) => Ok(Number(v))
      case Err(e) => Err(e)
    else if returnType == "i32" then
      match ReadI32At(data, 0).0
      case Ok(v) => Ok(Number(v))
      case Err(e) => Err(e)
    else Ok(Text(ReadCStringAt(data, 0).0))
  }

  /** Reading from an exhausted cursor: a string read gives "" and leaves
      the cursor where it is, integer reads fail. */
  lemma ReadsAtEnd(data: seq<byte>)
    ensures ReadCStringAt(data, |data|) == ([], |data|)
    ensures ReadI16At(data, |data|).0.Err? && ReadI32At(data, |data|).0.Err?
  {
    var r := ReadCStringAt(data, |data|);
    assert |r.0| == 0;
  }
}
