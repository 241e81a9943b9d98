/** The Arduino side of the link: `MCPHandler` of `mcp.hpp` with the
    `process_frame` of `mcp_process_frame.hpp`. The pure functions of this
    module say what one byte does to the handler; the class below is the
    handler itself, with its two fixed 256-byte buffers, and each of its
    methods is proved against those functions. */
module Firmware {
  import opened Base
  import Crc
  import opened SlipEncoding

  /** `MAX_FRAME_SIZE`: the capacity of `frame_buffer` and `response_buffer`. */
  const MAX_FRAME_SIZE: nat := 256

  datatype McpState = McpIdle | McpReceiving | McpEscaped

  /** The decoder part of the handler: `state` and `frame_buffer[0..frame_pos)`. */
  datatype FrameDecoder = FrameDecoder(state: McpState, frame: seq<byte>)

  const Idle: FrameDecoder := FrameDecoder(McpIdle, [])

  /** What `MCPBindings::dispatch` does in one call: its return code, the
      bytes it writes at the front of `response_buffer`, and the length it
      reports through `response_len`. */
  datatype DispatchReply = DispatchReply(result: int, written: seq<byte>, responseLen: int)

  /** The dispatcher is an outside capability, a function of the request. */
  type Dispatcher = seq<byte> -> DispatchReply

  /** The bindings' contract: at most `MAX_FRAME_SIZE - 1` bytes written and
      a reported length in `0..255`, which leaves room for the CRC byte. */
  predicate HonestReply(reply: DispatchReply)
  {
    |reply.written| <= MAX_FRAME_SIZE - 1 && 0 <= reply.responseLen <= MAX_FRAME_SIZE - 1
  }

  ghost predicate Honest(dispatch: Dispatcher)
  {
    forall request :: HonestReply(dispatch(request))
  }

  /** One pass of the `switch (state)` in `process_serial`. The second
      component is the frame handed to `process_frame`, if any. */
  function Step(d: FrameDecoder, b: byte): (r: (FrameDecoder, Option<seq<byte>>))
    ensures |d.frame| <= MAX_FRAME_SIZE ==> |r.0.frame| <= MAX_FRAME_SIZE
    ensures r.1.Some? <==> d.state == McpReceiving && b == END && |d.frame| > 1
    ensures r.1.Some? ==> r.1.value == d.frame
  {
    match d.state
    case McpIdle =>
      if b == END then (FrameDecoder(McpReceiving, []), None) else (d, None)
    case McpReceiving =>
      if b == END then (Idle, if |d.frame| > 1 then Some(d.frame) else None)
      else if b == ESC then (FrameDecoder(McpEscaped, d.frame), None)
      else if |d.frame| < MAX_FRAME_SIZE then (FrameDecoder(McpReceiving, d.frame + [b]), None)
      else (Idle, None)
    case McpEscaped =>
      // reset_frame() on overflow or an invalid code, then `state = MCP_RECEIVING`
      var frame :=
        if b == ESC_END && |d.frame| < MAX_FRAME_SIZE then d.frame + [END]
        else if b == ESC_ESC && |d.frame| < MAX_FRAME_SIZE then d.frame + [ESC]
        else [];
      (FrameDecoder(McpReceiving, frame), None)
  }

  /** What `send_slip_frame(p, |p|)` writes: ESC CLEAR, then the framed payload. */
  function SlipOut(p: seq<byte>): seq<byte>
  {
    [ESC, CLEAR] + Framed(p)
  }

  /** The error payload as the source builds it: `{0xFF, code}`, whose second
      byte is then overwritten with the CRC of the first, so the code never
      reaches the wire. */
  function ErrorPayload(code: byte): seq<byte>
  {
    var e := [0xFF, code];
    e[1 := Crc.Crc8(e[..1])]
  }

  /** `response_buffer` after the dispatcher wrote `reply.written` at its
      front: bytes past what the dispatcher wrote keep their earlier value. */
  function Staged(reply: DispatchReply, response: seq<byte>): (buffer: seq<byte>)
    requires |response| == MAX_FRAME_SIZE && HonestReply(reply)
    ensures |buffer| == MAX_FRAME_SIZE
    ensures forall i :: 0 <= i < |reply.written| ==> buffer[i] == reply.written[i]
    ensures forall i :: |reply.written| <= i < MAX_FRAME_SIZE ==> buffer[i] == response[i]
  {
    reply.written + response[|reply.written|..]
  }

  /** The effect of one `process_frame` call. */
  datatype FrameOutcome = FrameOutcome(
    wire: seq<byte>,          // bytes written to the serial port
    response: seq<byte>,      // `response_buffer` afterwards
    calls: seq<seq<byte>>)    // requests passed to the dispatcher

  /** `process_frame` on `frame_buffer[0..frame_pos)` = `frame`, with
      `response_buffer` = `response` beforehand. */
  function ProcessFrameSpec(frame: seq<byte>, response: seq<byte>, dispatch: Dispatcher): (o: FrameOutcome)
    requires |response| == MAX_FRAME_SIZE && Honest(dispatch)
    ensures |o.response| == MAX_FRAME_SIZE
    // A frame under two bytes is ignored: nothing is sent, called or staged.
    ensures |frame| < 2 <==> o.wire == []
    ensures |frame| < 2 ==> o.response == response && o.calls == []
    // The dispatcher is called at most once, exactly when the last byte is
    // the CRC-8 of the rest, and with that rest.
    ensures |o.calls| <= 1
    ensures o.calls != [] <==> |frame| >= 2 && frame[|frame| - 1] == Crc.Crc8(frame[..|frame| - 1])
    ensures o.calls != [] ==> o.calls[0] == frame[..|frame| - 1]
    // Every answer opens with ESC CLEAR.
    ensures o.wire != [] ==> |o.wire| > 2 && o.wire[..2] == [ESC, CLEAR]
  {
    if |frame| < 2 then FrameOutcome([], response, [])
    else
      var data := frame[..|frame| - 1];
      if frame[|frame| - 1] != Crc.Crc8(data) then
        FrameOutcome(SlipOut(ErrorPayload(0x01)), response, [])
      else
        var reply := dispatch(data);
        var staged := Staged(reply, response);
        if reply.result == 0 then
          var p := staged[..reply.responseLen];
          FrameOutcome(SlipOut(p + [Crc.Crc8(p)]), staged[reply.responseLen := Crc.Crc8(p)], [data])
        else
          FrameOutcome(SlipOut(ErrorPayload(0x02)), staged, [data])
  }

  /** Everything about the handler that the protocol can observe. */
  datatype Handler = Handler(
    decoder: FrameDecoder,
    response: seq<byte>,
    output: seq<byte>,
    calls: seq<seq<byte>>)

  predicate WellFormed(h: Handler)
  {
    |h.decoder.frame| <= MAX_FRAME_SIZE && |h.response| == MAX_FRAME_SIZE
  }

  /** One byte of `process_serial`: the switch, and `process_frame` when
      the switch completes a frame. */
  function Feed(h: Handler, b: byte, dispatch: Dispatcher): (h': Handler)
    requires WellFormed(h) && Honest(dispatch)
    ensures WellFormed(h')
  {
    var (d, delivered) := Step(h.decoder, b);
    if delivered.Some? then
      var o := ProcessFrameSpec(delivered.value, h.response, dispatch);
      Handler(d, o.response, h.output + o.wire, h.calls + o.calls)
    else
      Handler(d, h.response, h.output, h.calls)
  }

  /** The whole `while (Serial.available() > 0)` loop over `input`. */
  function FeedAll(h: Handler, input: seq<byte>, dispatch: Dispatcher): (h': Handler)
    requires WellFormed(h) && Honest(dispatch)
    ensures WellFormed(h')
    decreases |input|
  {
    if input == [] then h else FeedAll(Feed(h, input[0], dispatch), input[1..], dispatch)
  }

  /** The handler object. `output` stands for the bytes passed to
      `Serial.write` (the debug characters are left out) and `dispatchLog`
      records every request handed to the dispatcher. */
  class MCPHandler {
    const frameBuffer: array<byte>
    var framePos: int
    var state: McpState
    const responseBuffer: array<byte>
    var output: seq<byte>
    ghost var dispatchLog: seq<seq<byte>>

    /** The cursor stays within the buffer, so every `frame_buffer[frame_pos++]`
        write is in bounds. */
    ghost predicate Valid()
      reads this
    {
      frameBuffer.Length == MAX_FRAME_SIZE && responseBuffer.Length == MAX_FRAME_SIZE
      && frameBuffer != responseBuffer && 0 <= framePos <= MAX_FRAME_SIZE
    }

    ghost function Model(): (h: Handler)
      reads this, frameBuffer, responseBuffer
      requires Valid()
      ensures WellFormed(h)
    {
      Handler(FrameDecoder(state, frameBuffer[..framePos]), responseBuffer[..], output, dispatchLog)
    }

    /** `MCPHandler() : frame_pos(0), state(MCP_IDLE)` */
    constructor ()
      ensures Valid() && fresh(frameBuffer) && fresh(responseBuffer)
      ensures Model().decoder == Idle && output == [] && dispatchLog == []
    {
      frameBuffer := new byte[MAX_FRAME_SIZE];
      responseBuffer := new byte[MAX_FRAME_SIZE];
      framePos := 0;
      state := McpIdle;
      output := [];
      dispatchLog := [];
    }

    /** `crc8(data, len)`: the nested shift loop over a buffer prefix. */
    method Crc8(data: array<byte>, len: int) returns (crc: byte)
      requires 0 <= len <= data.Length
      ensures crc == Crc.Crc8(data[..len])
    {
      var reg: Crc.Register := 0x00;
      var i := 0;
      while i < len
        invariant 0 <= i <= len
        invariant reg == Crc.CrcFrom(0x00, data[..i])
      {
        var start := reg ^ data[i] as Crc.Register;
        reg := start;
        var j := 0;
        while j < 8
          invariant 0 <= j <= 8
          invariant reg == Crc.Shifts(start, j)
        {
          if reg & 0x80 != 0 {
            reg := (reg << 1) ^ Crc.POLY;
          } else {
            reg := reg << 1;
          }
          j := j + 1;
        }
        assert data[..i + 1] == data[..i] + [data[i]];
        Crc.Crc8IsLeftFold(data[..i], data[i]);
        i := i + 1;
      }
      crc := reg as byte;
    }

    /** `reset_frame()` */
    method ResetFrame()
      modifies this`framePos, this`state
      ensures framePos == 0 && state == McpIdle
    {
      framePos := 0;
      state := McpIdle;
    }

    /** `send_slip_frame(data, len)` */
    method SendSlipFrame(data: array<byte>, len: int)
      requires 0 <= len <= data.Length
      modifies this`output
      ensures output == old(output) + SlipOut(data[..len])
    {
      output := output + [ESC, CLEAR];
      output := output + [END];
      var i := 0;
      while i < len
        invariant 0 <= i <= len
        invariant output == old(output) + [ESC, CLEAR, END] + Escape(data[..i])
      {
        if data[i] == END {
          output := output + [ESC, ESC_END];
        } else if data[i] == ESC {
          output := output + [ESC, ESC_ESC];
        } else {
          output := output + [data[i]];
        }
        EscapePrefixStep(data[..], i);
        assert data[..][..i + 1] == data[..i + 1] && data[..][..i] == data[..i];
        i := i + 1;
      }
      output := output + [END];
    }

    /** The `MCPBindings::dispatch(frame_buffer, data_len, response_buffer,
        MAX_FRAME_SIZE - 1, &response_len)` call: the dispatcher writes its
        bytes at the front of `response_buffer`. */
    method Dispatch(dispatch: Dispatcher, dataLen: int) returns (result: int, responseLen: int)
      requires Valid() && Honest(dispatch) && 0 <= dataLen <= MAX_FRAME_SIZE
      modifies responseBuffer, this`dispatchLog
      ensures var reply := dispatch(frameBuffer[..dataLen]);
        && result == reply.result && responseLen == reply.responseLen
        && responseBuffer[..] == reply.written + old(responseBuffer[..])[|reply.written|..]
        && dispatchLog == old(dispatchLog) + [frameBuffer[..dataLen]]
    {
      var reply := dispatch(frameBuffer[..dataLen]);
      assert HonestReply(reply);
      var i := 0;
      while i < |reply.written|
        invariant 0 <= i <= |reply.written|
        invariant frameBuffer[..] == old(frameBuffer[..])
        invariant dispatchLog == old(dispatchLog)
        invariant responseBuffer[..i] == reply.written[..i]
        invariant responseBuffer[i..] == old(responseBuffer[..])[i..]
      {
        responseBuffer[i] := reply.written[i];
        i := i + 1;
        assert responseBuffer[..i] == responseBuffer[..i - 1] + [responseBuffer[i - 1]];
      }
      assert responseBuffer[..] == responseBuffer[..i] + responseBuffer[i..];
      assert frameBuffer[..dataLen] == old(frameBuffer[..])[..dataLen];
      dispatchLog := dispatchLog + [frameBuffer[..dataLen]];
      result, responseLen := reply.result, reply.responseLen;
    }

    /** The error branches of `process_frame`: build `{0xFF, code}` in a
        local two-byte buffer, overwrite its second byte with the CRC of
        the first and send both bytes. */
    method SendError(code: byte)
      modifies this`output
      ensures output == old(output) + SlipOut(ErrorPayload(code))
    {
      var errorResponse := new byte[2] [0xFF, code];
      assert errorResponse[..1] == [0xFF, code][..1];
      var errorCrc := Crc8(errorResponse, 1);
      errorResponse[1] := errorCrc;
      assert errorResponse[..2] == [0xFF, code][1 := errorCrc];
      SendSlipFrame(errorResponse, 2);
    }

    /** The success branch of `process_frame`: append the CRC of the
        `responseLen` bytes the dispatcher produced and send them with it. */
    method SendResponse(responseLen: int)
      requires Valid() && 0 <= responseLen < MAX_FRAME_SIZE
      modifies this`output, responseBuffer
      ensures var p := old(responseBuffer[..responseLen]);
        && output == old(output) + SlipOut(p + [Crc.Crc8(p)])
        && responseBuffer[..] == old(responseBuffer[..])[responseLen := Crc.Crc8(p)]
    {
      ghost var staged := responseBuffer[..];
      var responseCrc := Crc8(responseBuffer, responseLen);
      responseBuffer[responseLen] := responseCrc;
      assert responseBuffer[..responseLen + 1] == staged[..responseLen] + [responseCrc];
      SendSlipFrame(responseBuffer, responseLen + 1);
    }

    /** `process_frame()` */
    method ProcessFrame(dispatch: Dispatcher)
      requires Valid() && Honest(dispatch)
      modifies this`output, this`dispatchLog, responseBuffer
      ensures Valid()
      ensures var o := ProcessFrameSpec(old(frameBuffer[..framePos]), old(responseBuffer[..]), dispatch);
        && output == old(output) + o.wire
        && responseBuffer[..] == o.response
        && dispatchLog == old(dispatchLog) + o.calls
    {
      if framePos < 2 {
        return;
      }
      var dataLen := framePos - 1;
      var receivedCrc := frameBuffer[framePos - 1];
      var calculatedCrc := Crc8(frameBuffer, dataLen);
      assert frameBuffer[..framePos][..framePos - 1] == frameBuffer[..dataLen];
      if receivedCrc != calculatedCrc {
        SendError(0x01);
        return;
      }
      var result, responseLen := Dispatch(dispatch, dataLen);
      if result == 0 {
        SendResponse(responseLen);
      } else {
        SendError(0x02);
      }
    }

    /** The body of the `while` loop in `process_serial`, for one byte. */
    method ProcessByte(b: byte, dispatch: Dispatcher)
      requires Valid() && Honest(dispatch)
      modifies this, frameBuffer, responseBuffer
      ensures Valid()
      ensures Model() == Feed(old(Model()), b, dispatch)
    {
      ghost var before := Model();
      match state {
        case McpIdle =>
          if b == END {
            state := McpReceiving;
            framePos := 0;
          }
        case McpReceiving =>
          if b == END {
            if framePos > 1 {
              ProcessFrame(dispatch);
            }
            ResetFrame();
          } else if b == ESC {
            state := McpEscaped;
          } else {
            if framePos < MAX_FRAME_SIZE {
              frameBuffer[framePos] := b;
              framePos := framePos + 1;
              assert frameBuffer[..framePos] == before.decoder.frame + [b];
            } else {
              ResetFrame();
            }
          }
        case McpEscaped =>
          if b == ESC_END {
            if framePos < MAX_FRAME_SIZE {
              frameBuffer[framePos] := END;
              framePos := framePos + 1;
              assert frameBuffer[..framePos] == before.decoder.frame + [END];
            } else {
              ResetFrame();
            }
          } else if b == ESC_ESC {
            if framePos < MAX_FRAME_SIZE {
              frameBuffer[framePos] := ESC;
              framePos := framePos + 1;
              assert frameBuffer[..framePos] == before.decoder.frame + [ESC];
            } else {
              ResetFrame();
            }
          } else {
            ResetFrame();
          }
          state := McpReceiving;
      }
    }

    /** `process_serial()`, with the bytes `Serial.read()` would return
        passed in as `input`. */
    method ProcessSerial(input: seq<byte>, dispatch: Dispatcher)
      requires Valid() && Honest(dispatch)
      modifies this, frameBuffer, responseBuffer
      ensures Valid()
      ensures Model() == FeedAll(old(Model()), input, dispatch)
    {
      var i := 0;
      while i < |input|
        invariant 0 <= i <= |input|
        invariant Valid()
        invariant FeedAll(Model(), input[i..], dispatch) == FeedAll(old(Model()), input, dispatch)
      {
        ghost var before := Model();
        ProcessByte(input[i], dispatch);
        assert input[i..][1..] == input[i + 1..];
        i := i + 1;
      }
    }
  }
}
