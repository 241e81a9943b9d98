/** Properties of the firmware model: what a whole stream of bytes does to
    the handler, and what `process_frame` answers. */
module FirmwareProperties {
  import opened Base
  import Crc
  import opened SlipEncoding
  import opened Firmware

  /** Bytes that are neither END nor ESC, which the decoder stores as they are. */
  predicate Plain(data: seq<byte>)
  {
    forall i :: 0 <= i < |data| ==> data[i] != END && data[i] != ESC
  }

  lemma {:induction false} FeedAllConcat(h: Handler, xs: seq<byte>, ys: seq<byte>, dispatch: Dispatcher)
    requires WellFormed(h) && Honest(dispatch)
    ensures FeedAll(h, xs + ys, dispatch) == FeedAll(FeedAll(h, xs, dispatch), ys, dispatch)
    decreases |xs|
  {
    if xs == [] {
      assert xs + ys == ys;
    } else {
      assert (xs + ys)[1..] == xs[1..] + ys;
      FeedAllConcat(Feed(h, xs[0], dispatch), xs[1..], ys, dispatch);
    }
  }

  lemma FeedAllOne(h: Handler, b: byte, dispatch: Dispatcher)
    requires WellFormed(h) && Honest(dispatch)
    ensures FeedAll(h, [b], dispatch) == Feed(h, b, dispatch)
  {
    assert [b][1..] == [];
  }

  /** One escaped byte appends the original byte to a frame in progress. */
  lemma FeedEscapedByte(h: Handler, b: byte, dispatch: Dispatcher)
    requires WellFormed(h) && Honest(dispatch)
    requires h.decoder.state == McpReceiving && |h.decoder.frame| < MAX_FRAME_SIZE
    ensures FeedAll(h, EscapeByte(b), dispatch)
         == h.(decoder := FrameDecoder(McpReceiving, h.decoder.frame + [b]))
  {
    if b == END || b == ESC {
      var code := if b == END then ESC_END else ESC_ESC;
      assert EscapeByte(b) == [ESC] + [code];
      FeedAllConcat(h, [ESC], [code], dispatch);
      FeedAllOne(h, ESC, dispatch);
      FeedAllOne(Feed(h, ESC, dispatch), code, dispatch);
    } else {
      FeedAllOne(h, b, dispatch);
    }
  }

  /** The escaped body of a frame that fits is stored byte for byte, and
      nothing is dispatched or sent on the way. */
  lemma {:induction false} FeedEscaped(h: Handler, data: seq<byte>, dispatch: Dispatcher)
    requires WellFormed(h) && Honest(dispatch)
    requires h.decoder.state == McpReceiving && |h.decoder.frame| + |data| <= MAX_FRAME_SIZE
    ensures FeedAll(h, Escape(data), dispatch)
         == h.(decoder := FrameDecoder(McpReceiving, h.decoder.frame + data))
    decreases |data|
  {
    if data == [] {
      assert h.decoder.frame + data == h.decoder.frame;
    } else {
      FeedAllConcat(h, EscapeByte(data[0]), Escape(data[1..]), dispatch);
      FeedEscapedByte(h, data[0], dispatch);
      var h' := h.(decoder := FrameDecoder(McpReceiving, h.decoder.frame + [data[0]]));
      FeedEscaped(h', data[1..], dispatch);
      assert h.decoder.frame + [data[0]] + data[1..] == h.decoder.frame + data;
    }
  }

  /** From Idle, a framed payload of 2 to 256 bytes reaches `process_frame`
      exactly once, with `frame_buffer` holding exactly that payload, and
      the handler is Idle again afterwards. */
  lemma DeliversOnce(h: Handler, data: seq<byte>, dispatch: Dispatcher)
    requires WellFormed(h) && Honest(dispatch) && h.decoder == Idle
    requires 2 <= |data| <= MAX_FRAME_SIZE
    ensures var o := ProcessFrameSpec(data, h.response, dispatch);
      FeedAll(h, Framed(data), dispatch)
        == Handler(Idle, o.response, h.output + o.wire, h.calls + o.calls)
  {
    var h1 := Feed(h, END, dispatch);
    FeedAllConcat(h, [END], Escape(data) + [END], dispatch);
    assert Framed(data) == [END] + (Escape(data) + [END]);
    FeedAllOne(h, END, dispatch);
    FeedAllConcat(h1, Escape(data), [END], dispatch);
    FeedEscaped(h1, data, dispatch);
    assert [] + data == data;
    FeedAllOne(FeedAll(h1, Escape(data), dispatch), END, dispatch);
  }

  /** The same for the firmware's own `send_slip_frame` output: in Idle, the
      leading ESC CLEAR is ignored. */
  lemma SlipOutDeliversOnce(h: Handler, data: seq<byte>, dispatch: Dispatcher)
    requires WellFormed(h) && Honest(dispatch) && h.decoder == Idle
    requires 2 <= |data| <= MAX_FRAME_SIZE
    ensures var o := ProcessFrameSpec(data, h.response, dispatch);
      FeedAll(h, SlipOut(data), dispatch)
        == Handler(Idle, o.response, h.output + o.wire, h.calls + o.calls)
  {
    FeedAllConcat(h, [ESC, CLEAR], Framed(data), dispatch);
    FeedAllConcat(h, [ESC], [CLEAR], dispatch);
    assert [ESC, CLEAR] == [ESC] + [CLEAR];
    FeedAllOne(h, ESC, dispatch);
    FeedAllOne(h, CLEAR, dispatch);
    DeliversOnce(h, data, dispatch);
  }

  /** A frame of fewer than two bytes (no room for tag and CRC) is dropped
      silently. */
  lemma ShortFrameIgnored(h: Handler, data: seq<byte>, dispatch: Dispatcher)
    requires WellFormed(h) && Honest(dispatch) && h.decoder == Idle
    requires |data| < 2
    ensures FeedAll(h, Framed(data), dispatch) == h
  {
    var h1 := Feed(h, END, dispatch);
    FeedAllConcat(h, [END], Escape(data) + [END], dispatch);
    assert Framed(data) == [END] + (Escape(data) + [END]);
    FeedAllOne(h, END, dispatch);
    FeedAllConcat(h1, Escape(data), [END], dispatch);
    FeedEscaped(h1, data, dispatch);
    assert [] + data == data;
    FeedAllOne(FeedAll(h1, Escape(data), dispatch), END, dispatch);
  }

  lemma {:induction false} FeedPlainReceiving(h: Handler, data: seq<byte>, dispatch: Dispatcher)
    requires WellFormed(h) && Honest(dispatch) && Plain(data)
    requires h.decoder.state == McpReceiving && |h.decoder.frame| + |data| <= MAX_FRAME_SIZE
    ensures FeedAll(h, data, dispatch)
         == h.(decoder := FrameDecoder(McpReceiving, h.decoder.frame + data))
    decreases |data|
  {
    if data == [] {
      assert h.decoder.frame + data == h.decoder.frame;
    } else {
      var h' := h.(decoder := FrameDecoder(McpReceiving, h.decoder.frame + [data[0]]));
      assert Feed(h, data[0], dispatch) == h';
      assert Plain(data[1..]) by {
        forall i | 0 <= i < |data[1..]| ensures data[1..][i] != END && data[1..][i] != ESC {
          assert data[1..][i] == data[i + 1];
        }
      }
      FeedPlainReceiving(h', data[1..], dispatch);
      assert h.decoder.frame + [data[0]] + data[1..] == h.decoder.frame + data;
    }
  }

  lemma {:induction false} FeedIdleIgnores(h: Handler, data: seq<byte>, dispatch: Dispatcher)
    requires WellFormed(h) && Honest(dispatch) && h.decoder.state == McpIdle
    requires forall i :: 0 <= i < |data| ==> data[i] != END
    ensures FeedAll(h, data, dispatch) == h
    decreases |data|
  {
    if data != [] {
      assert Feed(h, data[0], dispatch) == h;
      FeedIdleIgnores(h, data[1..], dispatch);
    }
  }

  /** A frame longer than the buffer is dropped: once `frame_pos` reaches
      `MAX_FRAME_SIZE` the next data byte resets the decoder, the rest of the
      frame is ignored in Idle, and its closing END opens an empty frame.
      Nothing is dispatched and nothing is sent. */
  lemma OverlongFrameDropped(h: Handler, data: seq<byte>, dispatch: Dispatcher)
    requires WellFormed(h) && Honest(dispatch) && h.decoder == Idle
    requires Plain(data) && |data| > MAX_FRAME_SIZE
    ensures FeedAll(h, [END] + data + [END], dispatch)
         == h.(decoder := FrameDecoder(McpReceiving, []))
  {
    var full, rest := data[..MAX_FRAME_SIZE], data[MAX_FRAME_SIZE..];
    assert [END] + data + [END] == [END] + full + [rest[0]] + rest[1..] + [END];
    FeedAllConcat(h, [END] + full + [rest[0]] + rest[1..], [END], dispatch);
    FeedAllConcat(h, [END] + full + [rest[0]], rest[1..], dispatch);
    FeedAllConcat(h, [END] + full, [rest[0]], dispatch);
    FeedAllConcat(h, [END], full, dispatch);
    FeedAllOne(h, END, dispatch);
    var h1 := h.(decoder := FrameDecoder(McpReceiving, []));
    assert Plain(full) by {
      forall i | 0 <= i < |full| ensures full[i] != END && full[i] != ESC {
        assert full[i] == data[i];
      }
    }
    FeedPlainReceiving(h1, full, dispatch);
    var h2 := h.(decoder := FrameDecoder(McpReceiving, full));
    assert [] + full == full;
    assert rest[0] == data[MAX_FRAME_SIZE];
    FeedAllOne(h2, rest[0], dispatch);
    var h3 := h.(decoder := Idle);
    assert Feed(h2, rest[0], dispatch) == h3;
    assert forall i :: 0 <= i < |rest[1..]| ==> rest[1..][i] == data[MAX_FRAME_SIZE + 1 + i];
    FeedIdleIgnores(h3, rest[1..], dispatch);
    FeedAllOne(h3, END, dispatch);
  }

  /** Both failures of `process_frame` put the same two bytes on the wire,
      whatever the failure code: the CRC of `[0xFF]` overwrites the code. */
  lemma ErrorPayloadIsConstant(code: byte)
    ensures ErrorPayload(code) == [0xFF, 0xF3]
  {
    Crc.Crc8OfErrorPayloads();
    assert [0xFF, code][..1] == [0xFF];
  }

  /** What `process_frame` answers. A CRC mismatch and a failed dispatch both
      send ESC CLEAR + frame `[0xFF, 0xF3]`; a mismatch leaves the dispatcher
      uncalled; a frame whose CRC matches is dispatched once without its CRC
      byte, and on success the first `response_len` bytes of the response
      buffer go out followed by their CRC. */
  lemma ProcessFrameAnswers(frame: seq<byte>, response: seq<byte>, dispatch: Dispatcher)
    requires |response| == MAX_FRAME_SIZE && Honest(dispatch) && |frame| >= 2
    ensures var data := frame[..|frame| - 1];
      var o := ProcessFrameSpec(frame, response, dispatch);
      && (frame[|frame| - 1] != Crc.Crc8(data) ==> o.wire == SlipOut([0xFF, 0xF3]) && o.calls == [] && o.response == response)
      && (frame[|frame| - 1] == Crc.Crc8(data) ==> o.calls == [data])
      && (frame[|frame| - 1] == Crc.Crc8(data) && dispatch(data).result != 0 ==> o.wire == SlipOut([0xFF, 0xF3]))
      && (frame[|frame| - 1] == Crc.Crc8(data) && dispatch(data).result == 0 ==>
            var p := Staged(dispatch(data), response)[..dispatch(data).responseLen];
            o.wire == SlipOut(p + [Crc.Crc8(p)]))
  {
    ErrorPayloadIsConstant(0x01);
    ErrorPayloadIsConstant(0x02);
  }

  /** Every answer is one SLIP frame whose last payload byte is the CRC-8 of
      the bytes before it, `p`, with at most 255 bytes in `p`. */
  lemma ReplySealed(frame: seq<byte>, response: seq<byte>, dispatch: Dispatcher) returns (p: seq<byte>)
    requires |response| == MAX_FRAME_SIZE && Honest(dispatch)
    ensures var o := ProcessFrameSpec(frame, response, dispatch);
      o.wire == [] || (|p| < MAX_FRAME_SIZE && o.wire == SlipOut(p + [Crc.Crc8(p)]))
  {
    if |frame| >= 2 {
      ProcessFrameAnswers(frame, response, dispatch);
      var data := frame[..|frame| - 1];
      if frame[|frame| - 1] != Crc.Crc8(data) || dispatch(data).result != 0 {
        p := [0xFF];
        Crc.Crc8OfErrorPayloads();
        assert [0xFF, 0xF3] == p + [Crc.Crc8(p)];
      } else {
        p := Staged(dispatch(data), response)[..dispatch(data).responseLen];
      }
    } else {
      p := [];
    }
  }

  /** A successful reply whose payload is the single byte 0xFF is, on the
      wire, the same as either error reply. */
  lemma ReplyOfFFLooksLikeError()
    ensures SlipOut([0xFF] + [Crc.Crc8([0xFF])]) == SlipOut(ErrorPayload(0x01))
  {
    Crc.Crc8OfErrorPayloads();
    ErrorPayloadIsConstant(0x01);
  }
}
