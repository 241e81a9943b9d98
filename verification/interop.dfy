/** How the three ends of the serial link meet: the host's connection
    manager (`arduino-mcp-adapter/connection.rs`), the firmware's frame
    handler (`mcp/mcp.hpp`, `mcp/mcp_process_frame.hpp`) and the simulator
    (`arduino-simulator/main.rs`). Each lemma joins one side's model of
    what it writes with the other side's model of how it reads. */
module Interop {
  import opened Base
  import Crc
  import opened LittleEndian
  import opened SlipEncoding
  import SD = SlipDecoding
  import F = Firmware
  import FP = FirmwareProperties
  import SP = SimulatorProtocol
  import AP = AdapterProtocol
  import M = Manifests
  import S = Simulator
  import C = Connection

  // ---------------------------------------------------------------------
  // The host reads replies

  /** A reply whose decoding starts with `k` quiet events and then a frame
      is read as that frame, whatever arrives after it. */
  lemma ReadAfterRun(bytes: seq<byte>, rest: seq<byte>, end: C.ReplyEnd, k: nat, frame: seq<byte>)
    requires SD.Run(SD.Fresh, bytes) == (SD.Fresh, SD.Quiet(k) + [Ok(Some(frame))])
    ensures C.ReadRaw(C.Reply(bytes + rest, end)) == C.StripCrc(frame)
  {
    SD.RunConcat(SD.Fresh, bytes, rest);
    var tail := SD.Run(SD.Fresh, rest).1;
    var e: SD.Event := Ok(Some(frame));
    assert SD.Run(SD.Fresh, bytes + rest).1 == SD.Quiet(k) + [e] + tail;
    assert (SD.Quiet(k) + [e] + tail)[..k + 1] == SD.Quiet(k) + [e];
    C.ReadRawOfRun(C.Reply(bytes + rest, end), k, frame);
  }

  /** The host reads a frame as the simulator sends it (`slip_encode`) and
      as the firmware sends it (`send_slip_frame`, with ESC CLEAR in front)
      alike: the payload without its last byte, which is dropped unchecked. */
  lemma HostReadsReply(body: seq<byte>, c: byte, rest: seq<byte>, end: C.ReplyEnd)
    requires |body| < SD.MAX_BUFFER
    ensures C.ReadRaw(C.Reply(Framed(body + [c]) + rest, end)) == Ok(body)
    ensures C.ReadRaw(C.Reply(F.SlipOut(body + [c]) + rest, end)) == Ok(body)
  {
    var frame := body + [c];
    C.CrcNeverChecked(body, c, c);
    SD.RoundTrip(frame);
    ReadAfterRun(Framed(frame), rest, end, |Escape(frame)| + 1, frame);
    SD.FirmwareFrameDecodes(SD.Fresh, frame);
    ReadAfterRun(F.SlipOut(frame), rest, end, |Escape(frame)| + 3, frame);
  }

  /** Error replies as the host sees them. The firmware's error frame,
      whatever the failure, reads as the single byte 0xFF; the simulator's
      reads as 0xFF followed by its code. Neither is recognised as an error:
      the host takes both as reply data. */
  lemma HostReadsErrorReplies(code: byte, rest: seq<byte>, end: C.ReplyEnd)
    ensures C.ReadRaw(C.Reply(F.SlipOut(F.ErrorPayload(code)) + rest, end)) == Ok([0xFF])
    ensures C.ReadRaw(C.Reply(Framed(S.ErrorFrame(code)) + rest, end)) == Ok([0xFF, code])
  {
    FP.ErrorPayloadIsConstant(code);
    assert F.ErrorPayload(code) == [0xFF] + [0xF3];
    HostReadsReply([0xFF], 0xF3, rest, end);
    var e := [0xFF, code];
    assert S.ErrorFrame(code) == e + [Crc.Crc8(e)];
    HostReadsReply(e, Crc.Crc8(e), rest, end);
  }

  /** A function returning `i16` that hits a simulator error gets the
      error frame's first two bytes as its value: 511 for code 1 and 767
      for code 2. */
  lemma SimulatorErrorReadsAsNumber(code: byte)
    requires code == 0x01 || code == 0x02
    ensures AP.DecodeResponseByType([0xFF, code], "i16") == Ok(AP.Number(0xFF + 0x100 * code as int))
  {
    var r := AP.DecodeResponseByType([0xFF, code], "i16");
    assert r.Ok? && r.value.Number?;
    var n := r.value.n;
    assert I16Bytes(n) == [0xFF, code];
    I16RoundTrip(n);
    // I16From(0xFF, code) is the unsigned value, below 0x8000
    assert n == I16From(0xFF, code);
  }

  // ---------------------------------------------------------------------
  // The host and the firmware

  /** A command frame the host writes, with at most 254 argument bytes,
      reaches the firmware's dispatcher exactly once as the tag followed by
      the arguments (the CRC matches and is removed), and the firmware is
      idle again afterwards. */
  lemma HostCommandReachesFirmware(h: F.Handler, tag: byte, args: seq<byte>, dispatch: F.Dispatcher)
    requires F.WellFormed(h) && F.Honest(dispatch) && h.decoder == F.Idle
    requires |args| <= F.MAX_FRAME_SIZE - 2
    ensures var o := F.ProcessFrameSpec(C.CommandPayload(tag, args), h.response, dispatch);
      && F.FeedAll(h, Framed(C.CommandPayload(tag, args)), dispatch)
           == F.Handler(F.Idle, o.response, h.output + o.wire, h.calls + o.calls)
      && o.calls == [[tag] + args]
  {
    var p := C.CommandPayload(tag, args);
    FP.DeliversOnce(h, p, dispatch);
    FP.ProcessFrameAnswers(p, h.response, dispatch);
    assert p[..|p| - 1] == [tag] + args;
  }

  /** What `execute_function` returns for a reply read as `answer`. */
  function Outcome(returnType: Option<string>, answer: seq<byte>): Result<AP.ResponseText, C.LinkError>
  {
    match returnType
    case None => Ok(AP.Message(AP.SUCCESS_MESSAGE))
    case Some(t) =>
      match AP.DecodeResponseByType(answer, t)
      case Ok(text) => Ok(text)
      case Err(e) => Err(C.Response(e))
  }

  /** On a ready manager, a call whose arguments convert and whose write
      succeeds sends exactly its command frame, and returns the reply as
      read, decoded by the function's return type. */
  lemma ExecuteWithReply(c: C.Conn, f: M.Function, arguments: M.Json, values: seq<AP.ArgValue>,
                         x: C.Exchange, answer: seq<byte>)
    requires C.Settled(c) && C.IsReady(c.state)
    requires C.ConvertArgs(f.params, arguments) == Some(values)
    requires x.writeFailure.None? && C.ReadRaw(x.reply) == Ok(answer)
    ensures C.ExecuteIn(c, f, arguments, x)
      == (c.(sent := c.sent + Framed(C.CommandPayload(f.tag, AP.EncodeArgs(values)))), Outcome(f.returnType, answer))
  {
  }

  /** The whole of one `execute_function` against the firmware, for a
      function whose arguments convert: the host writes one command frame,
      the firmware dispatches its tag and arguments once, and the host's
      result is the dispatcher's response as `decode_response_by_type`
      reads it. A failed dispatch is read as the one-byte response 0xFF,
      which for a function with no return type is reported as success. */
  lemma CallThroughFirmware(c: C.Conn, f: M.Function, arguments: M.Json, values: seq<AP.ArgValue>,
                            h: F.Handler, dispatch: F.Dispatcher, rest: seq<byte>, end: C.ReplyEnd)
    requires C.Settled(c) && C.IsReady(c.state)
    requires C.ConvertArgs(f.params, arguments) == Some(values)
    requires |AP.EncodeArgs(values)| <= F.MAX_FRAME_SIZE - 2
    requires F.WellFormed(h) && F.Honest(dispatch) && h.decoder == F.Idle
    ensures
      var p := C.CommandPayload(f.tag, AP.EncodeArgs(values));
      var o := F.ProcessFrameSpec(p, h.response, dispatch);
      var request := [f.tag] + AP.EncodeArgs(values);
      var reply := dispatch(request);
      var answer := if reply.result == 0 then F.Staged(reply, h.response)[..reply.responseLen] else [0xFF];
      var x := C.Exchange(None, C.Reply(o.wire + rest, end));
      && F.FeedAll(h, Framed(p), dispatch) == F.Handler(F.Idle, o.response, h.output + o.wire, h.calls + [request])
      && C.ExecuteIn(c, f, arguments, x).0 == c.(sent := c.sent + Framed(p))
      && C.ExecuteIn(c, f, arguments, x).1 == Outcome(f.returnType, answer)
  {
    var args := AP.EncodeArgs(values);
    var p := C.CommandPayload(f.tag, args);
    var request := [f.tag] + args;
    var o := F.ProcessFrameSpec(p, h.response, dispatch);
    HostCommandReachesFirmware(h, f.tag, args, dispatch);
    FP.ProcessFrameAnswers(p, h.response, dispatch);
    assert p[..|p| - 1] == request;
    var reply := dispatch(request);
    var x := C.Exchange(None, C.Reply(o.wire + rest, end));
    if reply.result == 0 {
      var answer := F.Staged(reply, h.response)[..reply.responseLen];
      HostReadsReply(answer, Crc.Crc8(answer), rest, end);
      ExecuteWithReply(c, f, arguments, values, x, answer);
    } else {
      HostReadsErrorReplies(0x02, rest, end);
      FP.ErrorPayloadIsConstant(0x02);
      ExecuteWithReply(c, f, arguments, values, x, [0xFF]);
    }
  }

  /** The firmware's frames start with ESC CLEAR so that a receiver caught
      inside a frame starts over. The firmware's own decoder does not work
      that way: caught inside a frame, it takes ESC CLEAR as an invalid
      escape, the following END as the end of an empty frame, skips the
      payload while idle, and takes the closing END as a new opening. The
      frame is lost, where the host's decoder delivers it
      (`SlipDecoding.FirmwareFrameDecodes`). */
  lemma FirmwareLosesFrameAfterClear(h: F.Handler, data: seq<byte>, dispatch: F.Dispatcher)
    requires F.WellFormed(h) && F.Honest(dispatch) && h.decoder.state == F.McpReceiving
    ensures F.FeedAll(h, F.SlipOut(data), dispatch) == h.(decoder := F.FrameDecoder(F.McpReceiving, []))
  {
    var prefix := [ESC, CLEAR, END];
    assert F.SlipOut(data) == prefix + (Escape(data) + [END]);
    FP.FeedAllConcat(h, prefix, Escape(data) + [END], dispatch);
    ClearEndsFrame(h, dispatch);
    IdleSkipsPayload(h.(decoder := F.Idle), data, dispatch);
  }

  /** Inside a frame, ESC CLEAR is an invalid escape that empties the frame
      and the END after it closes the empty frame, leaving the decoder idle. */
  lemma ClearEndsFrame(h: F.Handler, dispatch: F.Dispatcher)
    requires F.WellFormed(h) && F.Honest(dispatch) && h.decoder.state == F.McpReceiving
    ensures F.FeedAll(h, [ESC, CLEAR, END], dispatch) == h.(decoder := F.Idle)
  {
    FP.FeedAllConcat(h, [ESC, CLEAR], [END], dispatch);
    FP.FeedAllConcat(h, [ESC], [CLEAR], dispatch);
    assert [ESC, CLEAR] == [ESC] + [CLEAR];
    assert [ESC, CLEAR, END] == [ESC, CLEAR] + [END];
    FP.FeedAllOne(h, ESC, dispatch);
    var h1 := F.Feed(h, ESC, dispatch);
    FP.FeedAllOne(h1, CLEAR, dispatch);
    var h2 := F.Feed(h1, CLEAR, dispatch);
    FP.FeedAllOne(h2, END, dispatch);
  }

  /** An idle decoder skips an escaped payload and takes the closing END
      as the opening of a new, empty frame. */
  lemma IdleSkipsPayload(h: F.Handler, data: seq<byte>, dispatch: F.Dispatcher)
    requires F.WellFormed(h) && F.Honest(dispatch) && h.decoder == F.Idle
    ensures F.FeedAll(h, Escape(data) + [END], dispatch) == h.(decoder := F.FrameDecoder(F.McpReceiving, []))
  {
    FP.FeedAllConcat(h, Escape(data), [END], dispatch);
    EscapeHasNoEnd(data);
    FP.FeedIdleIgnores(h, Escape(data), dispatch);
    FP.FeedAllOne(h, END, dispatch);
  }

  /** A stray ESC before a frame: the firmware ignores it while idle and
      opens the frame at the END; the host's decoder takes ESC END as an
      invalid escape and reports an error instead. */
  lemma StrayEscBeforeFrame(h: F.Handler, dispatch: F.Dispatcher)
    requires F.WellFormed(h) && F.Honest(dispatch) && h.decoder == F.Idle
    ensures F.FeedAll(h, [ESC, END], dispatch) == h.(decoder := F.FrameDecoder(F.McpReceiving, []))
    ensures SD.Run(SD.Fresh, [ESC, END]) == (SD.Fresh, [Ok(None), Err(SD.InvalidEscape(END))])
  {
    FP.FeedAllConcat(h, [ESC], [END], dispatch);
    assert [ESC, END] == [ESC] + [END];
    FP.FeedAllOne(h, ESC, dispatch);
    FP.FeedAllOne(F.Feed(h, ESC, dispatch), END, dispatch);
    SD.RunConcat(SD.Fresh, [ESC], [END]);
    SD.RunOne(SD.Fresh, ESC);
    assert SD.AdapterStep(SD.Fresh, ESC) == (SD.Decoder(SD.Escaped, []), Ok(None));
    SD.RunOne(SD.Decoder(SD.Escaped, []), END);
    assert SD.AdapterStep(SD.Decoder(SD.Escaped, []), END) == (SD.Fresh, Err(SD.InvalidEscape(END)));
    var quiet: SD.Event, bad: SD.Event := Ok(None), Err(SD.InvalidEscape(END));
    assert [quiet] + [bad] == [quiet, bad];
  }

  /** An invalid escape inside a frame: the firmware empties the frame and
      keeps receiving; the host's decoder drops the frame, goes idle and
      reports the byte. */
  lemma InvalidEscapeHandledDifferently(frame: seq<byte>, b: byte)
    requires b != ESC_END && b != ESC_ESC && b != CLEAR
    ensures F.Step(F.FrameDecoder(F.McpEscaped, frame), b) == (F.FrameDecoder(F.McpReceiving, []), None)
    ensures SD.AdapterStep(SD.Decoder(SD.Escaped, frame), b) == (SD.Fresh, Err(SD.InvalidEscape(b)))
  {
  }

  /** A one-byte frame: the firmware drops it silently, while the host's
      and the simulator's decoders deliver it, and the simulator answers
      with an error frame of code 1 ("Command frame too short"). */
  lemma OneByteFrame(h: F.Handler, dispatch: F.Dispatcher, sim: S.SimulatorConfig, b: byte)
    requires F.WellFormed(h) && F.Honest(dispatch) && h.decoder == F.Idle
    ensures F.FeedAll(h, Framed([b]), dispatch) == h
    ensures SD.Run(SD.Fresh, Framed([b])) == (SD.Fresh, SD.Quiet(|Escape([b])| + 1) + [Ok(Some([b]))])
    ensures S.Respond(sim, SD.SimulatorRun(SD.Fresh, Framed([b])).1) == (Framed(S.ErrorFrame(0x01)), false)
  {
    FP.ShortFrameIgnored(h, [b], dispatch);
    SD.RoundTrip([b]);
    var e: SD.Event := Ok(Some([b]));
    assert S.Respond(sim, SD.SimulatorRun(SD.Fresh, Framed([b])).1) == (Framed(S.ErrorFrame(0x01)), false) by {
      SimulatorDecodesFrame(sim, [b]);
      S.BadCommandCode(SP.FrameTooShort);
      assert SP.DecodeCommand([b]) == Err(SP.FrameTooShort);
      assert S.HandleCommand(sim, [b]) == Err(S.BadCommand(SP.FrameTooShort));
      assert S.React(sim, e) == S.Send(Framed(S.ErrorFrame(0x01)));
      assert [e][1..] == [];
      assert Framed(S.ErrorFrame(0x01)) + [] == Framed(S.ErrorFrame(0x01));
    }
  }

  // ---------------------------------------------------------------------
  // The host and the simulator

  /** The simulator's whole answer to a run of bytes. */
  function SimulatorAnswer(sim: S.SimulatorConfig, input: seq<byte>): seq<byte>
  {
    S.Respond(sim, SD.SimulatorRun(SD.Fresh, input).1).0
  }

  /** The simulator's decoder turns a framed payload of 1 to 1024 bytes
      into quiet events and then that payload, so its answer is its
      reaction to that one frame. */
  lemma SimulatorDecodesFrame(sim: S.SimulatorConfig, frame: seq<byte>)
    requires 1 <= |frame| <= SD.MAX_BUFFER
    ensures S.Respond(sim, SD.SimulatorRun(SD.Fresh, Framed(frame)).1) == S.Respond(sim, [Ok(Some(frame))])
  {
    SD.RoundTrip(frame);
    SD.RunsAgree(SD.Fresh, Framed(frame));
    S.RespondQuietThen(sim, |Escape(frame)| + 1, Ok(Some(frame)));
  }

  /** A frame that `handle_command` accepts is answered with exactly the
      framed result, and the simulator goes on running. */
  lemma RespondToFrame(sim: S.SimulatorConfig, frame: seq<byte>)
    requires S.HandleCommand(sim, frame).Ok?
    ensures S.Respond(sim, [Ok(Some(frame))]) == (Framed(S.HandleCommand(sim, frame).value), false)
  {
    var e: SD.Event := Ok(Some(frame));
    assert [e][1..] == [];
    assert Framed(S.HandleCommand(sim, frame).value) + [] == Framed(S.HandleCommand(sim, frame).value);
  }

  /** A command frame of at most 1024 bytes that `handle_command` accepts
      reaches it exactly once, and the simulator writes exactly the framed
      result and goes on running. */
  lemma SimulatorHandlesOneFrame(sim: S.SimulatorConfig, tag: byte, args: seq<byte>)
    requires |args| + 2 <= SD.MAX_BUFFER
    ensures var p := C.CommandPayload(tag, args);
      S.HandleCommand(sim, p).Ok? ==>
        S.Respond(sim, SD.SimulatorRun(SD.Fresh, Framed(p)).1) == (Framed(S.HandleCommand(sim, p).value), false)
  {
    var p := C.CommandPayload(tag, args);
    SimulatorDecodesFrame(sim, p);
    if S.HandleCommand(sim, p).Ok? {
      RespondToFrame(sim, p);
    }
  }

  /** A command for a function in the simulator's manifest whose arguments
      were encoded from values of the declared kinds is answered with the
      stub value of the function's return type. */
  lemma SimulatorAnswersHostCommand(sim: S.SimulatorConfig, f: M.Function, values: seq<AP.ArgValue>)
    requires S.FindFunction(sim.manifest.functions, f.tag) == Some(f) && f.tag != 0
    requires S.Describes(f.params, values)
    requires S.AllReadable(values)
    requires |AP.EncodeArgs(values)| + 2 <= SD.MAX_BUFFER
    ensures var p := C.CommandPayload(f.tag, AP.EncodeArgs(values));
      S.HandleCommand(sim, p) == Ok(SP.EncodeResponse(S.StubResponse(f.returnType)))
      && SimulatorAnswer(sim, Framed(p)) == Framed(SP.EncodeResponse(S.StubResponse(f.returnType)))
  {
    var args := AP.EncodeArgs(values);
    var p := C.CommandPayload(f.tag, args);
    SP.DecodeCommandRoundTrip(f.tag, args);
    S.ParseInvertsEncode(f.params, values);
    SimulatorHandlesOneFrame(sim, f.tag, args);
  }

  /** The device-ID command is answered with the simulator's device ID. */
  lemma SimulatorAnswersDeviceId(sim: S.SimulatorConfig)
    ensures SimulatorAnswer(sim, Framed(C.CommandPayload(0, []))) == Framed(SP.EncodeResponse(SP.CStr(sim.deviceId)))
  {
    SP.DecodeCommandRoundTrip(0, []);
    assert C.CommandPayload(0, []) == [0] + [] + [Crc.Crc8([0] + [])];
    SimulatorHandlesOneFrame(sim, 0, []);
  }

  /** The host reads a simulator response as its body: the value's
      little-endian bytes, or the string and its NUL. */
  lemma HostReadsSimulatorResponse(r: SP.ResponseData, rest: seq<byte>, end: C.ReplyEnd)
    requires |SP.ResponseBody(r)| < SD.MAX_BUFFER
    ensures C.ReadRaw(C.Reply(Framed(SP.EncodeResponse(r)) + rest, end)) == Ok(SP.ResponseBody(r))
  {
    var body := SP.ResponseBody(r);
    assert SP.EncodeResponse(r) == body + [Crc.Crc8(body)];
    HostReadsReply(body, Crc.Crc8(body), rest, end);
  }

  /** How the host decodes the simulator's stub value of each return type. */
  lemma StubReadsBack(returnType: Option<string>)
    ensures var answer := SP.ResponseBody(S.StubResponse(returnType));
      && (returnType.None? ==> Outcome(returnType, answer) == Ok(AP.Message(AP.SUCCESS_MESSAGE)))
      && (returnType == Some("i16") || returnType == Some("i32") ==> Outcome(returnType, answer) == Ok(AP.Number(0)))
      && (returnType.Some? && returnType != Some("i16") && returnType != Some("i32") ==>
            Outcome(returnType, answer) == Ok(AP.Text([])))
  {
    var stub := S.StubResponse(returnType);
    match stub
    case Void =>
    case I16(_) =>
      I16BytesRoundTrip(0, 0);
      assert SP.ResponseBody(stub) == [0, 0];
      assert AP.ReadI16At([0, 0], 0).0 == Ok(0);
    case I32(_) =>
      I32BytesRoundTrip(0, 0, 0, 0);
      assert SP.ResponseBody(stub) == [0, 0, 0, 0];
      assert AP.ReadI32At([0, 0, 0, 0], 0).0 == Ok(0);
    case CStr(_) =>
      assert SP.ResponseBody(stub) == [0];
      assert AP.ReadCStringAt([0], 0).0 == [];
  }

  /** A whole `execute_function` against the simulator: the host writes one
      command frame and gets the stub value back, as the return type reads
      it: the success message for no return type, 0 for `i16` and `i32`,
      and the empty string for any other type. */
  lemma CallThroughSimulator(c: C.Conn, sim: S.SimulatorConfig, f: M.Function, arguments: M.Json,
                             values: seq<AP.ArgValue>, rest: seq<byte>, end: C.ReplyEnd)
    requires C.Settled(c) && C.IsReady(c.state)
    requires C.ConvertArgs(f.params, arguments) == Some(values)
    requires S.FindFunction(sim.manifest.functions, f.tag) == Some(f) && f.tag != 0
    requires S.Describes(f.params, values)
    requires S.AllReadable(values)
    requires |AP.EncodeArgs(values)| + 2 <= SD.MAX_BUFFER
    ensures var cmd := Framed(C.CommandPayload(f.tag, AP.EncodeArgs(values)));
      var x := C.Exchange(None, C.Reply(SimulatorAnswer(sim, cmd) + rest, end));
      && C.ExecuteIn(c, f, arguments, x).0 == c.(sent := c.sent + cmd)
      && (f.returnType.None? ==> C.ExecuteIn(c, f, arguments, x).1 == Ok(AP.Message(AP.SUCCESS_MESSAGE)))
      && (f.returnType == Some("i16") || f.returnType == Some("i32") ==> C.ExecuteIn(c, f, arguments, x).1 == Ok(AP.Number(0)))
      && (f.returnType.Some? && f.returnType != Some("i16") && f.returnType != Some("i32") ==>
            C.ExecuteIn(c, f, arguments, x).1 == Ok(AP.Text([])))
  {
    var cmd := Framed(C.CommandPayload(f.tag, AP.EncodeArgs(values)));
    SimulatorAnswersHostCommand(sim, f, values);
    var stub := S.StubResponse(f.returnType);
    var x := C.Exchange(None, C.Reply(SimulatorAnswer(sim, cmd) + rest, end));
    HostReadsSimulatorResponse(stub, rest, end);
    ExecuteWithReply(c, f, arguments, values, x, SP.ResponseBody(stub));
    StubReadsBack(f.returnType);
  }

  /** `check_and_update_connection` against a simulator: from Disconnected
      or Error, with the device present and the port opening, the manager
      sends the device-ID command and becomes Ready with the simulator's
      device ID, provided the ID holds no NUL. */
  lemma ConnectsToSimulator(c: C.Conn, sim: S.SimulatorConfig, env: C.Environment, rest: seq<byte>, end: C.ReplyEnd)
    requires c.state.Disconnected? || c.state.Error?
    requires NoNul(sim.deviceId) && |sim.deviceId| + 1 < SD.MAX_BUFFER
    requires env.devicePresent && env.open.Ok?
    requires env.idExchange == C.Exchange(None, C.Reply(SimulatorAnswer(sim, Framed(C.CommandPayload(0, []))) + rest, end))
    ensures C.CheckIn(c, env)
      == (C.Conn(C.Ready(sim.deviceId), true, c.sent + Framed(C.CommandPayload(0, []))), Ok(()))
  {
    var id := sim.deviceId;
    var c0 := c.(state := C.Connecting).(portOpen := true, state := C.Connected).(state := C.Initializing);
    HostReadsSimulatorId(c0.(sent := c.sent + Framed(C.CommandPayload(0, []))), sim, rest, end);
    assert C.GetDeviceIdIn(c0, env.idExchange) == (c0.(sent := c.sent + Framed(C.CommandPayload(0, []))), Ok(id));
  }

  /** The simulator's answer to the device-ID command reaches the host as
      the ID and its NUL. */
  lemma SimulatorIdArrives(sim: S.SimulatorConfig, rest: seq<byte>, end: C.ReplyEnd)
    requires |sim.deviceId| + 1 < SD.MAX_BUFFER
    ensures C.ReadRaw(C.Reply(SimulatorAnswer(sim, Framed(C.CommandPayload(0, []))) + rest, end)) == Ok(sim.deviceId + [0])
  {
    SimulatorAnswersDeviceId(sim);
    assert SP.ResponseBody(SP.CStr(sim.deviceId)) == sim.deviceId + [0];
    HostReadsSimulatorResponse(SP.CStr(sim.deviceId), rest, end);
  }

  /** The host reads the simulator's answer to the device-ID command as
      exactly the device ID, when the ID holds no NUL. */
  lemma HostReadsSimulatorId(c: C.Conn, sim: S.SimulatorConfig, rest: seq<byte>, end: C.ReplyEnd)
    requires NoNul(sim.deviceId) && |sim.deviceId| + 1 < SD.MAX_BUFFER
    ensures var reply := C.Reply(SimulatorAnswer(sim, Framed(C.CommandPayload(0, []))) + rest, end);
      && C.ReadRaw(reply) == Ok(sim.deviceId + [0])
      && C.ReadResponseIn(c, reply) == (c, Ok(sim.deviceId))
  {
    SimulatorIdArrives(sim, rest, end);
    C.ReadResponseOfCString(c, C.Reply(SimulatorAnswer(sim, Framed(C.CommandPayload(0, []))) + rest, end), sim.deviceId);
  }
}
