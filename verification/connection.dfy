/** The host's side of the serial link (`arduino-mcp-adapter/connection.rs`):
    the `RobotState` queries, how a command frame is built, how a reply is
    read and its CRC stripped, and the state changes of `ConnectionManager`.
    Every outcome of the operating system (does the device path exist, does
    the port open, does a write succeed, which bytes arrive) is an input. */
module Connection {
  import opened Base
  import Crc
  import opened LittleEndian
  import opened SlipEncoding
  import opened SlipDecoding
  import opened AdapterProtocol
  import opened Manifests

  /** `RobotState`. The device ID keeps the bytes the robot sent. */
  datatype RobotState =
    | Disconnected
    | Connecting
    | Connected
    | Initializing
    | Ready(id: seq<byte>)
    | Error(msg: string)

  /** `RobotState::is_ready` */
  predicate IsReady(s: RobotState)
  {
    s.Ready?
  }

  /** `RobotState::device_id` */
  function DeviceId(s: RobotState): (r: Option<seq<byte>>)
    ensures r.Some? <==> IsReady(s)
    ensures r.Some? ==> r.value == s.id
  {
    match s
    case Ready(id) => Some(id)
    case _ => None
  }

  /** Characters 0 and 3 of the words of each state that is neither
      `Ready` nor `Error`. */
  function MessageKey(s: RobotState): (char, char)
  {
    match s
    case Disconnected => ('n', ' ')
    case Connecting => ('i', 'c')
    case Connected => ('c', 'n')
    case _ => ('i', 'i')
  }

  /** The words `error_message` puts after "Robot ": an error's own message
      after "error: ", and a fixed phrase for every other state. */
  function StateWords(s: RobotState): (w: string)
    ensures |w| >= 7
    ensures s.Error? <==> w[0] == 'e'
    ensures s.Error? ==> w[..7] == "error: " && w[7..] == s.msg
    ensures s.Ready? <==> w == "is ready"
    // Two characters tell the four fixed phrases apart.
    ensures !s.Error? && !s.Ready? ==> (w[0], w[3]) == MessageKey(s)
  {
    match s
    case Disconnected => "not connected - check USB connection"
    case Connecting => "is connecting - please wait"
    case Connected => "connected but not initialized"
    case Initializing => "is initializing - please wait"
    case Ready(_) => "is ready"
    case Error(msg) => "error: " + msg
  }

  /** `RobotState::error_message` */
  function ErrorMessage(s: RobotState): (m: string)
    // Every message is about the robot.
    ensures |m| > 6 && m[..6] == "Robot "
    // Only an error state reports a message of its own, after a fixed prefix.
    ensures s.Error? <==> |m| >= 13 && m[..13] == "Robot error: "
    ensures s.Error? ==> m[13..] == s.msg
    ensures s.Ready? <==> m == "Robot is ready"
  {
    var rest := StateWords(s);
    var m := "Robot " + rest;
    assert m[..6] == "Robot " && m[6..] == rest;
    assert s.Error? ==> m[..13] == "Robot error: " && m[13..] == s.msg;
    assert !s.Error? ==> m[..13][6] != "Robot error: "[6];
    assert m == "Robot is ready" <==> rest == "is ready";
    m
  }

  /** The message names the state: two states with the same message are
      equal, except that every `Ready` reads alike. */
  lemma ErrorMessageIdentifiesState(s: RobotState, t: RobotState)
    requires ErrorMessage(s) == ErrorMessage(t)
    ensures s == t || (s.Ready? && t.Ready?)
  {
    // Equal messages carry equal words, and the contract of `StateWords`
    // tells the states apart by their words.
    assert StateWords(s) == ErrorMessage(s)[6..] == ErrorMessage(t)[6..] == StateWords(t);
  }

  // ---------------------------------------------------------------------
  // Frames on the wire

  /** What `send_command_with_args` frames: the tag, the argument bytes and
      the CRC-8 of both. */
  function CommandPayload(tag: byte, args: seq<byte>): (p: seq<byte>)
    ensures |p| == |args| + 2 && p[0] == tag && p[1..|p| - 1] == args
    ensures p[|p| - 1] == Crc.Crc8(p[..|p| - 1])
  {
    var data := [tag] + args;
    assert (data + [Crc.Crc8(data)])[..|data|] == data;
    data + [Crc.Crc8(data)]
  }

  /** Every way a host operation can fail. `Panicked` stands for an
      `unwrap` that panics and `NeverReturns` for a read loop that keeps
      waiting; neither produces an error value in the source. */
  datatype LinkError =
    | WriteFailed(reason: string)
    | Slip(cause: DecodeError)
    | FrameTooShort
    | SerialReadError(reason: string)
    | NoPort
    | NotReady(state: RobotState)
    | Response(readError: ReadError)
    | ConnectFailed
    | Panicked
    | NeverReturns

  /** Upper-case hexadecimal digit, as `{:02X}` prints it. */
  function HexDigit(n: nat): char
    requires n < 16
  {
    if n < 10 then '0' + n as char else 'A' + (n - 10) as char
  }

  function HexByte(b: byte): string
  {
    [HexDigit(b as nat / 16), HexDigit(b as nat % 16)]
  }

  /** The error's display text, where the source has one. */
  function LinkErrorText(e: LinkError): string
  {
    match e
    case WriteFailed(reason) => reason
    case Slip(FrameTooLarge) => "SLIP frame too large"
    case Slip(InvalidEscape(b)) => "Invalid SLIP escape sequence: 0x" + HexByte(b)
    case FrameTooShort => "Frame too short"
    case SerialReadError(reason) => "Serial read error: " + reason
    case NoPort => "No serial port available"
    case NotReady(s) => "Robot not ready: " + ErrorMessage(s)
    case Response(NotEnoughForI16) => "Not enough data for i16"
    case Response(NotEnoughForI32) => "Not enough data for i32"
    case ConnectFailed => "Failed to connect"
    case Panicked => ""
    case NeverReturns => ""
  }

  /** `read_response_raw` after a frame: a lone byte is a void reply, a
      longer frame loses its last byte, which is not compared with anything. */
  function StripCrc(frame: seq<byte>): (r: Result<seq<byte>, LinkError>)
    ensures r.Err? <==> frame == []
    ensures r.Err? ==> r.error == FrameTooShort
    ensures r.Ok? ==> r.value + [frame[|frame| - 1]] == frame
  {
    if |frame| < 1 then Err(FrameTooShort)
    else if |frame| == 1 then Ok([])
    else Ok(frame[..|frame| - 1])
  }

  /** The trailing CRC is never verified: any last byte gives the same data. */
  lemma CrcNeverChecked(data: seq<byte>, c1: byte, c2: byte)
    ensures StripCrc(data + [c1]) == StripCrc(data + [c2]) == Ok(data)
  {
    var r := StripCrc(data + [c1]);
    assert r.value + [c1] == data + [c1];
    assert r.value == (r.value + [c1])[..|data|];
    var r2 := StripCrc(data + [c2]);
    assert r2.value == (r2.value + [c2])[..|data|];
  }

  // ---------------------------------------------------------------------
  // Reading a reply

  /** What the port does once the given bytes are consumed: keep timing out
      (the read loop then waits forever) or fail. */
  datatype ReplyEnd = KeepsTimingOut | ReadFails(reason: string)

  /** The bytes a reply read receives, in order (however they are split
      into `read` calls), and how the port behaves after them. */
  datatype Reply = Reply(bytes: seq<byte>, end: ReplyEnd)

  datatype Received = GotFrame(frame: seq<byte>) | GotError(cause: DecodeError) | PortFailed(reason: string) | Silence

  /** The first thing a decoder in state `d` produces from the reply. */
  function FirstFrame(d: Decoder, bytes: seq<byte>, end: ReplyEnd): (r: Received)
    requires Bounded(d)
    ensures r.GotFrame? ==> 0 < |r.frame| <= MAX_BUFFER
    decreases |bytes|
  {
    if bytes == [] then
      match end
      case KeepsTimingOut => Silence
      case ReadFails(reason) => PortFailed(reason)
    else
      var (d1, e) := AdapterStep(d, bytes[0]);
      match e
      case Err(cause) => GotError(cause)
      case Ok(Some(frame)) => GotFrame(frame)
      case Ok(None) => FirstFrame(d1, bytes[1..], end)
  }

  /** `read_response_raw`'s result, read with a fresh decoder. The "Frame
      too short" branch cannot be taken: the decoder never delivers an
      empty frame. */
  function ReadRaw(reply: Reply): (r: Result<seq<byte>, LinkError>)
    ensures r != Err(FrameTooShort)
    ensures r.Ok? ==> |r.value| < MAX_BUFFER
  {
    match FirstFrame(Fresh, reply.bytes, reply.end)
    case GotFrame(frame) => StripCrc(frame)
    case GotError(cause) => Err(Slip(cause))
    case PortFailed(reason) => Err(SerialReadError(reason))
    case Silence => Err(NeverReturns)
  }

  /** A run whose first `k` events are quiet and whose next event is a
      frame makes that frame the first thing read. */
  lemma {:induction false} FirstFrameAfterQuiet(d: Decoder, bytes: seq<byte>, end: ReplyEnd, k: nat, frame: seq<byte>)
    requires Bounded(d) && k < |bytes|
    requires Run(d, bytes).1[..k + 1] == Quiet(k) + [Ok(Some(frame))]
    ensures FirstFrame(d, bytes, end) == GotFrame(frame)
    decreases k
  {
    var (d1, e) := AdapterStep(d, bytes[0]);
    var rest := Run(d1, bytes[1..]);
    assert Run(d, bytes).1 == [e] + rest.1;
    assert e == (Quiet(k) + [Ok(Some(frame))])[0];
    if k > 0 {
      assert rest.1[..k] == (Quiet(k) + [Ok(Some(frame))])[1..];
      assert (Quiet(k) + [Ok(Some(frame))])[1..] == Quiet(k - 1) + [Ok(Some(frame))];
      FirstFrameAfterQuiet(d1, bytes[1..], end, k - 1, frame);
    }
  }

  /** The same, for a whole reply read from a fresh decoder. */
  lemma ReadRawOfRun(reply: Reply, k: nat, frame: seq<byte>)
    requires k < |reply.bytes|
    requires Run(Fresh, reply.bytes).1[..k + 1] == Quiet(k) + [Ok(Some(frame))]
    ensures ReadRaw(reply) == StripCrc(frame)
  {
    FirstFrameAfterQuiet(Fresh, reply.bytes, reply.end, k, frame);
  }

  // ---------------------------------------------------------------------
  // The connection manager, as values

  /** The manager's fields: the state, whether `port` holds an open port,
      and every byte written to a port so far. */
  datatype Conn = Conn(state: RobotState, portOpen: bool, sent: seq<byte>)

  /** Between calls the state is one of the three a call can end in, and
      the port is open when ready and closed when disconnected. */
  predicate Settled(c: Conn)
  {
    && (c.state.Disconnected? || c.state.Ready? || c.state.Error?)
    && (c.state.Disconnected? ==> !c.portOpen)
    && (c.state.Ready? ==> c.portOpen)
  }

  /** `send_command_with_args`; `failure` is the error of `write_all` or
      `flush`, if any. */
  function SendIn(c: Conn, tag: byte, args: seq<byte>, failure: Option<string>): (Conn, Result<(), LinkError>)
  {
    match failure
    case None => (c.(sent := c.sent + Framed(CommandPayload(tag, args))), Ok(()))
    case Some(reason) => (c, Err(WriteFailed(reason)))
  }

  /** `read_response_raw`: a read error also records an `Error` state. */
  function ReadRawIn(c: Conn, reply: Reply): (Conn, Result<seq<byte>, LinkError>)
  {
    var r := ReadRaw(reply);
    if r.Err? && r.error.SerialReadError? then
      (c.(state := Error("Serial read error: " + r.error.reason)), r)
    else (c, r)
  }

  /** `read_response`: the raw reply read as a C string. */
  function ReadResponseIn(c: Conn, reply: Reply): (Conn, Result<seq<byte>, LinkError>)
  {
    var (c1, r) := ReadRawIn(c, reply);
    match r
    case Ok(data) => (c1, Ok(ReadCStringAt(data, 0).0))
    case Err(e) => (c1, Err(e))
  }

  /** A raw reply holding a NUL-free string and its NUL is read as that
      string, and the connection is left as it was. */
  lemma ReadResponseOfCString(c: Conn, reply: Reply, s: seq<byte>)
    requires NoNul(s) && ReadRaw(reply) == Ok(s + [0])
    ensures ReadResponseIn(c, reply) == (c, Ok(s))
  {
    ReadCStringInverts([], s, []);
    assert [] + (s + [0]) + [] == s + [0];
  }

  /** One command and its reply: the write's failure, if any, and what
      arrives afterwards. */
  datatype Exchange = Exchange(writeFailure: Option<string>, reply: Reply)

  /** `get_device_id`: command tag 0 without arguments, reply read as a
      string. */
  function GetDeviceIdIn(c: Conn, x: Exchange): (Conn, Result<seq<byte>, LinkError>)
  {
    if !c.portOpen then (c, Err(NoPort))
    else
      var (c1, s) := SendIn(c, 0, [], x.writeFailure);
      if s.Err? then (c1, Err(s.error))
      else ReadResponseIn(c1, x.reply)
  }

  /** `initialize_device` */
  function InitializeIn(c: Conn, x: Exchange): (Conn, Result<(), LinkError>)
  {
    var (c1, r) := GetDeviceIdIn(c.(state := Initializing), x);
    match r
    case Ok(id) => (c1.(state := Ready(id)), Ok(()))
    case Err(NeverReturns) => (c1, Err(NeverReturns))
    case Err(e) => (c1.(state := Error("Failed to get device ID: " + LinkErrorText(e))), Err(e))
  }

  datatype OpenErrorKind = NoDevice | InvalidInput | Unknown | OtherKind

  /** A failed `open()`: the error's kind and its display text. */
  datatype OpenError = OpenError(kind: OpenErrorKind, text: string)

  /** The state message `attempt_connection` records for a failed open. */
  function OpenErrorMessage(e: OpenError): string
  {
    match e.kind
    case NoDevice => "Device not found"
    case InvalidInput => "Invalid device path"
    case Unknown =>
      if Contains(e.text, "busy") || Contains(e.text, "in use") then
        "Serial port is busy - close other applications using this port"
      else "Connection failed: " + e.text
    case OtherKind => "Serial port error: " + e.text
  }

  /** `attempt_connection` */
  function AttemptIn(c: Conn, open: Result<(), OpenError>, x: Exchange): (Conn, Result<(), LinkError>)
  {
    match open
    case Ok(_) => InitializeIn(c.(portOpen := true, state := Connected), x)
    case Err(e) => (c.(state := Error(OpenErrorMessage(e))), Err(ConnectFailed))
  }

  /** What the operating system answers during one
      `check_and_update_connection`. */
  datatype Environment = Environment(
    devicePresent: bool,          // `Path::exists` on the line path
    open: Result<(), OpenError>,  // `serialport::new(..).open()`
    idExchange: Exchange,         // the device-ID command and its reply
    probeFails: bool)             // `port.write(&[])` fails

  /** `check_and_update_connection` */
  function CheckIn(c: Conn, env: Environment): (Conn, Result<(), LinkError>)
  {
    if !env.devicePresent then
      if !c.state.Disconnected? then (c.(state := Disconnected, portOpen := false), Ok(()))
      else (c, Ok(()))
    else
      match c.state
      case Disconnected => AttemptIn(c.(state := Connecting), env.open, env.idExchange)
      case Error(_) => AttemptIn(c.(state := Connecting), env.open, env.idExchange)
      case _ =>
        if c.portOpen && env.probeFails then (c.(state := Disconnected, portOpen := false), Ok(()))
        else (c, Ok(()))
  }

  /** What `execute_function` passes for one parameter: `arguments[name]`
      is `Null` when the key is missing or `arguments` is not an object. */
  function ArgumentOf(arguments: Json, name: string): Json
  {
    if !arguments.Object? then Null
    else
      match Lookup(arguments.fields, name)
      case Some(v) => v
      case None => Null
  }

  /** One argument as `execute_function` encodes it; `None` where an
      `unwrap` panics. Integers are truncated by `as i16` / `as i32`; an
      unknown type is sent as a string, empty if the value is not one. */
  function ConvertArg(p: Parameter, v: Json): Option<ArgValue>
  {
    if p.paramType == "i16" then
      if v.Num? && AsI64(v.n).Some? then Some(ArgI16(WrapI16(AsI64(v.n).value))) else None
    else if p.paramType == "i32" then
      if v.Num? && AsI64(v.n).Some? then Some(ArgI32(WrapI32(AsI64(v.n).value))) else None
    else if p.paramType == "CStr" then
      if v.Str? then Some(ArgStr(v.s)) else None
    else Some(ArgStr(if v.Str? then v.s else []))
  }

  /** All arguments, in parameter order; `None` if any conversion panics. */
  function ConvertArgs(params: seq<Parameter>, arguments: Json): (r: Option<seq<ArgValue>>)
    ensures r.Some? <==> forall i :: 0 <= i < |params| ==> ConvertArg(params[i], ArgumentOf(arguments, params[i].name)).Some?
    ensures r.Some? ==>
      |r.value| == |params|
      && forall i :: 0 <= i < |params| ==> r.value[i] == ConvertArg(params[i], ArgumentOf(arguments, params[i].name)).value
    decreases |params|
  {
    if params == [] then Some([])
    else
      var init, p := params[..|params| - 1], params[|params| - 1];
      var r := ConvertArgs(init, arguments);
      var v := ConvertArg(p, ArgumentOf(arguments, p.name));
      assert forall i :: 0 <= i < |init| ==> init[i] == params[i];
      if r.Some? && v.Some? then Some(r.value + [v.value]) else None
  }

  /** `execute_function` */
  function ExecuteIn(c: Conn, f: Function, arguments: Json, x: Exchange): (Conn, Result<ResponseText, LinkError>)
  {
    if !IsReady(c.state) then (c, Err(NotReady(c.state)))
    else if !c.portOpen then (c, Err(NoPort))
    else
      match ConvertArgs(f.params, arguments)
      case None => (c, Err(Panicked))
      case Some(values) =>
        var (c1, s) := SendIn(c, f.tag, EncodeArgs(values), x.writeFailure);
        if s.Err? then (c1, Err(s.error))
        else AnswerIn(c1, f.returnType, x.reply)
  }

  /** The end of `execute_function`: the raw reply, decoded by the return
      type. Reading changes at most the state, and only to `Error`. */
  function AnswerIn(c: Conn, returnType: Option<string>, reply: Reply): (r: (Conn, Result<ResponseText, LinkError>))
    ensures r.0 == c || r.0 == c.(state := r.0.state)
    ensures r.0 != c ==> r.0.state.Error?
  {
    var (c1, r) := ReadRawIn(c, reply);
    match r
    case Err(e) => (c1, Err(e))
    case Ok(data) =>
      match returnType
      case None => (c1, Ok(Message(SUCCESS_MESSAGE)))
      case Some(t) =>
        match DecodeResponseByType(data, t)
        case Ok(text) => (c1, Ok(text))
        case Err(e) => (c1, Err(Response(e)))
  }

  // ---------------------------------------------------------------------
  // Properties of the transitions

  /** A missing device path always leaves the manager disconnected with no
      port; nothing is written. */
  lemma MissingDeviceDisconnects(c: Conn, env: Environment)
    requires !env.devicePresent && Settled(c)
    ensures var (c1, r) := CheckIn(c, env);
      r.Ok? && c1.state == Disconnected && !c1.portOpen && c1.sent == c.sent
  {
  }

  /** Every call that returns leaves the manager settled. */
  lemma CheckKeepsSettled(c: Conn, env: Environment)
    requires Settled(c)
    requires CheckIn(c, env).1 != Err(NeverReturns)
    ensures Settled(CheckIn(c, env).0)
  {
    if env.devicePresent && (c.state.Disconnected? || c.state.Error?) {
      var c0 := c.(state := Connecting);
      if env.open.Ok? {
        var c1 := c0.(portOpen := true, state := Connected);
        var (c2, r) := GetDeviceIdIn(c1.(state := Initializing), env.idExchange);
        assert c2.portOpen;
      }
    }
  }

  /** The manager becomes ready only through the ID exchange: the port
      opened, exactly the tag-0 command was written, and the ID is the
      reply's data read up to its first NUL. */
  lemma ReadyOnlyThroughIdExchange(c: Conn, env: Environment)
    requires !c.state.Ready?
    requires CheckIn(c, env).0.state.Ready?
    ensures env.devicePresent && env.open.Ok? && env.idExchange.writeFailure.None?
    ensures CheckIn(c, env).0.sent == c.sent + Framed(CommandPayload(0, []))
    ensures ReadRaw(env.idExchange.reply).Ok?
    ensures CheckIn(c, env).0.state.id == ReadCStringAt(ReadRaw(env.idExchange.reply).value, 0).0
  {
  }

  /** `execute_function` on a manager that is not ready fails with the
      state's message and writes nothing. */
  lemma NotReadySendsNothing(c: Conn, f: Function, arguments: Json, x: Exchange)
    requires !IsReady(c.state)
    ensures ExecuteIn(c, f, arguments, x).0 == c
    ensures LinkErrorText(ExecuteIn(c, f, arguments, x).1.error) == "Robot not ready: " + ErrorMessage(c.state)
  {
  }

  /** A ready, settled manager always has a port, and a call writes at most
      the one command frame. */
  lemma ReadyCallSendsOneCommand(c: Conn, f: Function, arguments: Json, x: Exchange)
    requires Settled(c) && IsReady(c.state)
    ensures ExecuteIn(c, f, arguments, x).1 != Err(NoPort)
    ensures var c1 := ExecuteIn(c, f, arguments, x).0;
      c1.sent == c.sent
      || (ConvertArgs(f.params, arguments).Some?
          && c1.sent == c.sent + Framed(CommandPayload(f.tag, EncodeArgs(ConvertArgs(f.params, arguments).value))))
  {
    // Only a successful write adds to `sent`, and reading changes nothing but the state.
    var conv := ConvertArgs(f.params, arguments);
    if conv.Some? && x.writeFailure.None? {
      var c1 := SendIn(c, f.tag, EncodeArgs(conv.value), x.writeFailure).0;
      assert c1.sent == c.sent + Framed(CommandPayload(f.tag, EncodeArgs(conv.value)));
      assert AnswerIn(c1, f.returnType, x.reply).0.sent == c1.sent;
    }
  }

  /** A call that returns keeps the manager settled. */
  lemma ExecuteKeepsSettled(c: Conn, f: Function, arguments: Json, x: Exchange)
    requires Settled(c)
    ensures Settled(ExecuteIn(c, f, arguments, x).0)
  {
  }

  /** Validation and encoding disagree: a float passes the i16 check as 0
      but `as_i64().unwrap()` then panics, and an i32 argument outside the
      32-bit range passes and is truncated by `as i32`. */
  lemma ValidatedArgumentsCanPanicOrWrap(name: string)
    ensures var f := Function(1, "move", "", None, [Parameter(name, "i16")]);
      var args := Object([(name, Num(Float))]);
      ValidateFunctionArguments(f, args).Ok? && ConvertArgs(f.params, args).None?
    ensures var f := Function(1, "move", "", None, [Parameter(name, "i32")]);
      var args := Object([(name, Num(Int(0x8000_0000)))]);
      ValidateFunctionArguments(f, args).Ok? && ConvertArgs(f.params, args) == Some([ArgI32(-0x8000_0000)])
  {
    var p16 := [Parameter(name, "i16")];
    var a16 := Object([(name, Num(Float))]);
    assert FirstUnexpected(a16.fields, p16).None? by {
      assert a16.fields[0].0 == p16[0].name;
    }
    assert Lookup(a16.fields, name) == Some(Num(Float));
    assert ConvertArg(p16[0], ArgumentOf(a16, name)).None?;
    var p32 := [Parameter(name, "i32")];
    var a32 := Object([(name, Num(Int(0x8000_0000)))]);
    assert FirstUnexpected(a32.fields, p32).None? by {
      assert a32.fields[0].0 == p32[0].name;
    }
    assert Lookup(a32.fields, name) == Some(Num(Int(0x8000_0000)));
    assert WrapI32(0x8000_0000) == -0x8000_0000;
    assert ConvertArg(p32[0], ArgumentOf(a32, name)) == Some(ArgI32(-0x8000_0000));
    assert p32[..0] == [];
    assert ConvertArgs(p32[..0], a32) == Some([]);
    assert ValidateFunctionArguments(Function(1, "move", "", None, p32), a32).Ok?;
    assert [] + [ArgI32(-0x8000_0000)] == [ArgI32(-0x8000_0000)];
  }

  /** One parameter of the encoding loop of `execute_function`: the
      encoder call its type selects, or `None` where `unwrap` panics. */
  method EncodeParameter(encoder: CommandEncoder, param: Parameter, argValue: Json) returns (v: Option<ArgValue>)
    modifies encoder
    ensures v == ConvertArg(param, argValue)
    ensures encoder.data == old(encoder.data) + (if v.Some? then EncodeArg(v.value) else [])
  {
    if param.paramType == "i16" {
      if !(argValue.Num? && AsI64(argValue.n).Some?) {
        return None;
      }
      var value := WrapI16(AsI64(argValue.n).value);
      encoder.WriteI16(value);
      v := Some(ArgI16(value));
    } else if param.paramType == "i32" {
      if !(argValue.Num? && AsI64(argValue.n).Some?) {
        return None;
      }
      var value := WrapI32(AsI64(argValue.n).value);
      encoder.WriteI32(value);
      v := Some(ArgI32(value));
    } else if param.paramType == "CStr" {
      if !argValue.Str? {
        return None;
      }
      encoder.WriteCString(argValue.s);
      v := Some(ArgStr(argValue.s));
    } else {
      var value := if argValue.Str? then argValue.s else [];
      encoder.WriteCString(value);
      v := Some(ArgStr(value));
    }
  }

  /** Converting one more parameter extends the converted prefix, and a
      parameter that does not convert makes the whole conversion fail. */
  lemma ConvertArgsStep(params: seq<Parameter>, i: nat, arguments: Json, values: seq<ArgValue>)
    requires i < |params| && ConvertArgs(params[..i], arguments) == Some(values)
    ensures var v := ConvertArg(params[i], ArgumentOf(arguments, params[i].name));
      && (v.Some? ==> ConvertArgs(params[..i + 1], arguments) == Some(values + [v.value]))
      && (v.None? ==> ConvertArgs(params, arguments).None?)
  {
    var v := ConvertArg(params[i], ArgumentOf(arguments, params[i].name));
    if v.Some? {
      var prefix := params[..i + 1];
      assert prefix[..|prefix| - 1] == params[..i] && prefix[|prefix| - 1] == params[i];
    } else {
      // Parameter `i` is the witness against the whole conversion.
      assert !ConvertArg(params[i], ArgumentOf(arguments, params[i].name)).Some?;
    }
  }

  /** The encoding loop of `execute_function`: each parameter's value,
      looked up by name, written with the encoder call its type selects.
      `None` where the source's `unwrap` panics. */
  method EncodeArguments(params: seq<Parameter>, arguments: Json) returns (r: Option<seq<byte>>)
    ensures r.Some? <==> ConvertArgs(params, arguments).Some?
    ensures r.Some? ==> r.value == EncodeArgs(ConvertArgs(params, arguments).value)
  {
    var encoder := new CommandEncoder();
    ghost var values: seq<ArgValue> := [];
    var i := 0;
    while i < |params|
      invariant 0 <= i <= |params|
      invariant ConvertArgs(params[..i], arguments) == Some(values)
      invariant encoder.data == EncodeArgs(values)
    {
      var v := EncodeParameter(encoder, params[i], ArgumentOf(arguments, params[i].name));
      ConvertArgsStep(params, i, arguments, values);
      if v.None? {
        return None;
      }
      EncodeArgsSnoc(values, v.value);
      values := values + [v.value];
      i := i + 1;
    }
    assert params[..i] == params;
    var bytes := encoder.Finish();
    r := Some(bytes);
  }

  // ---------------------------------------------------------------------
  // The connection manager object

  class ConnectionManager {
    var state: RobotState
    var portOpen: bool
    var sent: seq<byte>

    function Model(): Conn
      reads this
    {
      Conn(state, portOpen, sent)
    }

    /** `ConnectionManager::new` */
    constructor ()
      ensures Model() == Conn(Disconnected, false, []) && Settled(Model())
    {
      state := Disconnected;
      portOpen := false;
      sent := [];
    }

    /** `send_command_with_args` */
    method SendCommandWithArgs(tag: byte, args: seq<byte>, failure: Option<string>) returns (r: Result<(), LinkError>)
      modifies this`sent
      ensures (Model(), r) == SendIn(old(Model()), tag, args, failure)
    {
      var commandData := [tag] + args;
      var crc := Crc.ComputeCrc8(commandData);
      commandData := commandData + [crc];
      var slipFrame := SlipEncode(commandData);
      if failure.Some? {
        return Err(WriteFailed(failure.value));
      }
      sent := sent + slipFrame;
      r := Ok(());
    }

    /** `send_command`: a command without arguments. */
    method SendCommand(tag: byte, failure: Option<string>) returns (r: Result<(), LinkError>)
      modifies this`sent
      ensures (Model(), r) == SendIn(old(Model()), tag, [], failure)
    {
      r := SendCommandWithArgs(tag, [], failure);
    }

    /** `read_response_raw`: feed the reply to a fresh decoder until it
      yields a frame or an error. */
    method ReadResponseRaw(reply: Reply) returns (r: Result<seq<byte>, LinkError>)
      modifies this`state
      ensures (Model(), r) == ReadRawIn(old(Model()), reply)
    {
      var decoder := new SlipDecoder();
      var bytes := reply.bytes;
      var i := 0;
      while i < |bytes|
        invariant 0 <= i <= |bytes|
        invariant fresh(decoder) && decoder.Valid()
        invariant FirstFrame(decoder.Model(), bytes[i..], reply.end) == FirstFrame(Fresh, bytes, reply.end)
        modifies decoder
      {
        var event := decoder.ProcessByte(bytes[i]);
        assert bytes[i..][1..] == bytes[i + 1..];
        match event {
          case Err(cause) => return Err(Slip(cause));
          case Ok(Some(frame)) => return StripCrc(frame);
          case Ok(None) =>
        }
        i := i + 1;
      }
      match reply.end {
        case KeepsTimingOut =>
          // The source goes on reading for ever.
          return Err(NeverReturns);
        case ReadFails(reason) =>
          state := Error("Serial read error: " + reason);
          return Err(SerialReadError(reason));
      }
    }

    /** `read_response` */
    method ReadResponse(reply: Reply) returns (r: Result<seq<byte>, LinkError>)
      modifies this`state
      ensures (Model(), r) == ReadResponseIn(old(Model()), reply)
    {
      r := ReadResponseRaw(reply);
      if r.Ok? {
        var decoder := new ResponseDecoder(r.value);
        var id := decoder.ReadCString();
        r := Ok(id);
      }
    }

    /** `get_device_id` */
    method GetDeviceId(x: Exchange) returns (r: Result<seq<byte>, LinkError>)
      modifies this`state, this`sent
      ensures (Model(), r) == GetDeviceIdIn(old(Model()), x)
    {
      if !portOpen {
        return Err(NoPort);
      }
      var s := SendCommand(0, x.writeFailure);
      if s.Err? {
        return Err(s.error);
      }
      r := ReadResponse(x.reply);
    }

    /** `initialize_device` */
    method InitializeDevice(x: Exchange) returns (r: Result<(), LinkError>)
      modifies this`state, this`sent
      ensures (Model(), r) == InitializeIn(old(Model()), x)
    {
      state := Initializing;
      var id := GetDeviceId(x);
      match id {
        case Ok(deviceId) =>
          state := Ready(deviceId);
          r := Ok(());
        case Err(NeverReturns) =>
          r := Err(NeverReturns);
        case Err(e) =>
          state := Error("Failed to get device ID: " + LinkErrorText(e));
          r := Err(e);
      }
    }

    /** `attempt_connection` */
    method AttemptConnection(open: Result<(), OpenError>, x: Exchange) returns (r: Result<(), LinkError>)
      modifies this
      ensures (Model(), r) == AttemptIn(old(Model()), open, x)
    {
      match open {
        case Ok(_) =>
          portOpen := true;
          state := Connected;
          r := InitializeDevice(x);
        case Err(e) =>
          state := Error(OpenErrorMessage(e));
          r := Err(ConnectFailed);
      }
    }

    /** `check_and_update_connection` */
    method CheckAndUpdateConnection(env: Environment) returns (r: Result<(), LinkError>)
      modifies this
      ensures (Model(), r) == CheckIn(old(Model()), env)
    {
      if !env.devicePresent {
        if !state.Disconnected? {
          state := Disconnected;
          portOpen := false;
        }
        return Ok(());
      }
      match state {
        case Disconnected =>
          state := Connecting;
          r := AttemptConnection(env.open, env.idExchange);
        case Error(_) =>
          state := Connecting;
          r := AttemptConnection(env.open, env.idExchange);
        case _ =>
          if portOpen && env.probeFails {
            state := Disconnected;
            portOpen := false;
          }
          r := Ok(());
      }
    }

    /** `execute_function` */
    method ExecuteFunction(f: Function, arguments: Json, x: Exchange) returns (r: Result<ResponseText, LinkError>)
      modifies this`state, this`sent
      ensures (Model(), r) == ExecuteIn(old(Model()), f, arguments, x)
    {
      if !IsReady(state) {
        return Err(NotReady(state));
      }
      if !portOpen {
        return Err(NoPort);
      }
      var argsData: seq<byte> := [];
      if f.params != [] {
        var encoded := EncodeArguments(f.params, arguments);
        if encoded.None? {
          return Err(Panicked);
        }
        argsData := encoded.value;
      }
      var s := SendCommandWithArgs(f.tag, argsData, x.writeFailure);
      if s.Err? {
        return Err(s.error);
      }
      var data := ReadResponseRaw(x.reply);
      if data.Err? {
        return Err(data.error);
      }
      match f.returnType {
        case None =>
          r := Ok(Message(SUCCESS_MESSAGE));
        case Some(t) =>
          match DecodeResponseByType(data.value, t) {
            case Ok(text) => r := Ok(text);
            case Err(e) => r := Err(Response(e));
          }
      }
    }
  }
}
