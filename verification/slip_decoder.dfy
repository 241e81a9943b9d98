/** The host-side SLIP decoder of `arduino-mcp-adapter/slip.rs` and its copy
    in `arduino-simulator/slip.rs`: a growable buffer capped at 1024 bytes,
    one `Result<Option<frame>>` per input byte. */
module SlipDecoding {
  import opened Base
  import opened SlipEncoding

  /** `buffer.len() < 1024` guards every append. */
  const MAX_BUFFER: nat := 1024

  datatype DecodeState = Idle | Receiving | Escaped

  datatype DecodeError = FrameTooLarge | InvalidEscape(b: byte)

  /** The decoder's two fields, as values. */
  datatype Decoder = Decoder(state: DecodeState, buffer: seq<byte>)

  /** What `process_byte` returns. */
  type Event = Result<Option<seq<byte>>, DecodeError>

  /** The state `new()` and `reset()` leave behind. */
  const Fresh: Decoder := Decoder(Idle, [])

  /** `n` results of `Ok(None)`: bytes that complete nothing and raise nothing. */
  function Quiet(n: nat): (r: seq<Event>)
    ensures |r| == n
    ensures forall i :: 0 <= i < n ==> r[i] == Ok(None)
  {
    seq(n, _ => Ok(None))
  }

  lemma QuietConcat(m: nat, n: nat)
    ensures Quiet(m) + Quiet(n) == Quiet(m + n)
  {
  }

  predicate Bounded(d: Decoder)
  {
    |d.buffer| <= MAX_BUFFER
  }

  /** Append `b` if there is room, else reset and report the overflow. */
  function Append(d: Decoder, b: byte): (Decoder, Option<DecodeError>)
  {
    if |d.buffer| < MAX_BUFFER then (Decoder(d.state, d.buffer + [b]), None)
    else (Fresh, Some(FrameTooLarge))
  }

  /** The `Escaped` arm's match on the byte after ESC, before the state fix-up. */
  function ResolveEscape(d: Decoder, b: byte): (Decoder, Option<DecodeError>)
  {
    if b == CLEAR then (Fresh, None)
    else if b == ESC_END then Append(d, END)
    else if b == ESC_ESC then Append(d, ESC)
    else (Fresh, Some(InvalidEscape(b)))
  }

  /** `process_byte` of the adapter copy. Its `Escaped` arm ends with
      `if state != Receiving { state = Receiving }`, which also overrides the
      `Idle` that the CLEAR branch's reset just wrote. */
  function AdapterStep(d: Decoder, b: byte): (r: (Decoder, Event))
    ensures Bounded(d) ==> Bounded(r.0)
  {
    match d.state
    case Idle =>
      if b == END then (Decoder(Receiving, []), Ok(None))
      else if b == ESC then (Decoder(Escaped, d.buffer), Ok(None))
      else (d, Ok(None))
    case Receiving =>
      if b == END then
        if |d.buffer| != 0 then (Fresh, Ok(Some(d.buffer))) else (d, Ok(None))
      else if b == ESC then (Decoder(Escaped, d.buffer), Ok(None))
      else
        var (d', err) := Append(d, b);
        if err.Some? then (d', Err(err.value)) else (d', Ok(None))
    case Escaped =>
      var (d', err) := ResolveEscape(d, b);
      if err.Some? then (d', Err(err.value))
      else (Decoder(if d'.state != Receiving then Receiving else d'.state, d'.buffer), Ok(None))
  }

  /** `process_byte` of the simulator copy: identical but for an unconditional
      `state = Receiving` at the end of the `Escaped` arm. */
  function SimulatorStep(d: Decoder, b: byte): (r: (Decoder, Event))
    ensures Bounded(d) ==> Bounded(r.0)
    // A frame is delivered only by END while receiving a non-empty buffer,
    // and it is that buffer; the decoder starts afresh.
    ensures r.1.Ok? && r.1.value.Some? <==> d.state == Receiving && b == END && d.buffer != []
    ensures r.1.Ok? && r.1.value.Some? ==> r.1.value.value == d.buffer && r.0 == Fresh
    // After an escape the decoder is receiving again, unless it reports an error.
    ensures d.state == Escaped && r.1.Ok? ==> r.0.state == Receiving
    // Every error leaves a fresh decoder.
    ensures r.1.Err? ==> r.0 == Fresh
  {
    match d.state
    case Idle =>
      if b == END then (Decoder(Receiving, []), Ok(None))
      else if b == ESC then (Decoder(Escaped, d.buffer), Ok(None))
      else (d, Ok(None))
    case Receiving =>
      if b == END then
        if |d.buffer| != 0 then (Fresh, Ok(Some(d.buffer))) else (d, Ok(None))
      else if b == ESC then (Decoder(Escaped, d.buffer), Ok(None))
      else
        var (d', err) := Append(d, b);
        if err.Some? then (d', Err(err.value)) else (d', Ok(None))
    case Escaped =>
      var (d', err) := ResolveEscape(d, b);
      if err.Some? then (d', Err(err.value)) else (Decoder(Receiving, d'.buffer), Ok(None))
  }

  /** Feed a byte stream, collecting one event per byte. */
  function Run(d: Decoder, input: seq<byte>): (r: (Decoder, seq<Event>))
    ensures |r.1| == |input|
    decreases |input|
  {
    if input == [] then (d, [])
    else
      var (d1, e) := AdapterStep(d, input[0]);
      var (d2, es) := Run(d1, input[1..]);
      (d2, [e] + es)
  }

  /** The same for the simulator copy. */
  function SimulatorRun(d: Decoder, input: seq<byte>): (r: (Decoder, seq<Event>))
    decreases |input|
  {
    if input == [] then (d, [])
    else
      var (d1, e) := SimulatorStep(d, input[0]);
      var (d2, es) := SimulatorRun(d1, input[1..]);
      (d2, [e] + es)
  }

  /** The frames delivered by a run, in order. */
  function Frames(events: seq<Event>): seq<seq<byte>>
  {
    if events == [] then []
    else (if events[0].Ok? && events[0].value.Some? then [events[0].value.value] else [])
         + Frames(events[1..])
  }

  // ---------------------------------------------------------------------
  // One step at a time

  /** Idle: END starts a frame with an empty buffer, ESC enters Escaped with
      the buffer untouched, any other byte is ignored; never an error. */
  lemma IdleStep(buffer: seq<byte>, b: byte)
    ensures AdapterStep(Decoder(Idle, buffer), b).1 == Ok(None)
    ensures AdapterStep(Decoder(Idle, buffer), b).0 ==
      if b == END then Decoder(Receiving, [])
      else if b == ESC then Decoder(Escaped, buffer)
      else Decoder(Idle, buffer)
  {
  }

  /** Receiving: END delivers a non-empty buffer and resets; on an empty
      buffer it yields nothing and stays put. */
  lemma ReceivingEnd(buffer: seq<byte>)
    ensures AdapterStep(Decoder(Receiving, buffer), END) ==
      if buffer == [] then (Decoder(Receiving, []), Ok(None))
      else (Fresh, Ok(Some(buffer)))
  {
  }

  /** Appending at 1024 bytes resets to Idle and reports the overflow, from
      Receiving (a data byte) and from Escaped (ESC_END or ESC_ESC). */
  lemma Overflow(d: Decoder, b: byte)
    requires |d.buffer| == MAX_BUFFER
    requires d.state == Receiving ==> b != END && b != ESC
    requires d.state == Escaped ==> b == ESC_END || b == ESC_ESC
    requires d.state != Idle
    ensures AdapterStep(d, b) == (Fresh, Err(FrameTooLarge))
  {
  }

  /** Escaped: CLEAR empties the buffer, ESC_END and ESC_ESC append the
      literal byte, and all three end in Receiving; any other byte resets to
      Idle with an error. */
  lemma EscapedStep(buffer: seq<byte>, b: byte)
    requires |buffer| < MAX_BUFFER
    ensures AdapterStep(Decoder(Escaped, buffer), b) ==
      if b == CLEAR then (Decoder(Receiving, []), Ok(None))
      else if b == ESC_END then (Decoder(Receiving, buffer + [END]), Ok(None))
      else if b == ESC_ESC then (Decoder(Receiving, buffer + [ESC]), Ok(None))
      else (Fresh, Err(InvalidEscape(b)))
  {
  }

  /** ESC CLEAR, from Idle or from Receiving, leaves Receiving with an empty
      buffer and raises nothing. */
  lemma EscClearResynchronises(d: Decoder)
    requires d.state == Idle || d.state == Receiving
    ensures Run(d, [ESC, CLEAR]) == (Decoder(Receiving, []), Quiet(2))
  {
    var mid := AdapterStep(d, ESC).0;
    assert mid == Decoder(Escaped, d.buffer);
    assert [ESC, CLEAR][1..] == [CLEAR];
    RunOne(mid, CLEAR);
    assert [Ok(None)] + [Ok(None)] == Quiet(2);
  }

  // ---------------------------------------------------------------------
  // The two copies agree

  /** The simulator's unconditional `state = Receiving` and the adapter's
      guarded one are the same step. */
  lemma StepsAgree(d: Decoder, b: byte)
    ensures SimulatorStep(d, b) == AdapterStep(d, b)
  {
  }

  /** So the two decoders agree on every byte stream: same events, same states. */
  lemma {:induction false} RunsAgree(d: Decoder, input: seq<byte>)
    ensures SimulatorRun(d, input) == Run(d, input)
    decreases |input|
  {
    if input != [] {
      StepsAgree(d, input[0]);
      RunsAgree(AdapterStep(d, input[0]).0, input[1..]);
    }
  }

  // ---------------------------------------------------------------------
  // Whole streams

  lemma RunOne(d: Decoder, b: byte)
    ensures Run(d, [b]) == (AdapterStep(d, b).0, [AdapterStep(d, b).1])
  {
    assert [b][1..] == [];
    var (d1, e) := AdapterStep(d, b);
    assert Run(d1, []) == (d1, []);
    assert [e] + [] == [e];
  }

  lemma {:induction false} RunConcat(d: Decoder, xs: seq<byte>, ys: seq<byte>)
    ensures Run(d, xs + ys) ==
      (Run(Run(d, xs).0, ys).0, Run(d, xs).1 + Run(Run(d, xs).0, ys).1)
    decreases |xs|
  {
    if xs == [] {
      assert xs + ys == ys;
      assert Run(d, xs) == (d, []);
      assert [] + Run(d, ys).1 == Run(d, ys).1;
    } else {
      assert (xs + ys)[0] == xs[0];
      assert (xs + ys)[1..] == xs[1..] + ys;
      var (d1, e) := AdapterStep(d, xs[0]);
      RunConcat(d1, xs[1..], ys);
      var mid := Run(d1, xs[1..]);
      assert Run(d, xs) == (mid.0, [e] + mid.1);
      var tail := Run(mid.0, ys);
      assert Run(d, xs + ys) == (tail.0, [e] + (mid.1 + tail.1));
      assert [e] + (mid.1 + tail.1) == ([e] + mid.1) + tail.1;
    }
  }

  /** Inside a frame, the escaped form of `data` appends exactly `data`. */
  lemma {:induction false} RunEscaped(buffer: seq<byte>, data: seq<byte>)
    requires |buffer| + |data| <= MAX_BUFFER
    ensures Run(Decoder(Receiving, buffer), Escape(data)) ==
      (Decoder(Receiving, buffer + data), Quiet(|Escape(data)|))
    decreases |data|
  {
    if data == [] {
      assert buffer + data == buffer;
    } else {
      var b := data[0];
      var d := Decoder(Receiving, buffer);
      var mid := Decoder(Receiving, buffer + [b]);
      assert Run(d, EscapeByte(b)) == (mid, Quiet(|EscapeByte(b)|)) by {
        if b == END || b == ESC {
          var esc := Decoder(Escaped, buffer);
          assert AdapterStep(d, ESC) == (esc, Ok(None));
          assert AdapterStep(esc, EscapeByte(b)[1]) == (mid, Ok(None));
          assert EscapeByte(b)[1..] == [EscapeByte(b)[1]];
          RunOne(esc, EscapeByte(b)[1]);
          assert [Ok(None)] + [Ok(None)] == Quiet(2);
        } else {
          assert EscapeByte(b) == [b];
          RunOne(d, b);
          assert [Ok(None)] == Quiet(1);
        }
      }
      assert Escape(data) == EscapeByte(b) + Escape(data[1..]);
      RunConcat(d, EscapeByte(b), Escape(data[1..]));
      RunEscaped(buffer + [b], data[1..]);
      assert buffer + [b] + data[1..] == buffer + data;
      QuietConcat(|EscapeByte(b)|, |Escape(data[1..])|);
    }
  }

  /** A fresh decoder fed `slip_encode(data)` yields `Ok(None)` for every byte
      but the last and then exactly the frame `data`, and is fresh again. */
  lemma RoundTrip(data: seq<byte>)
    requires 1 <= |data| <= MAX_BUFFER
    ensures Run(Fresh, Framed(data)) ==
      (Fresh, Quiet(|Escape(data)| + 1) + [Ok(Some(data))])
  {
    var start := Decoder(Receiving, []);
    assert Framed(data) == [END] + (Escape(data) + [END]);
    RunOne(Fresh, END);
    RunConcat(Fresh, [END], Escape(data) + [END]);
    BodyThenEnd(data);
    var n := |Escape(data)|;
    var last: Event := Ok(Some(data));
    assert Run(Fresh, Framed(data)).0 == Fresh;
    assert Run(Fresh, Framed(data)).1 == Quiet(1) + (Quiet(n) + [last]);
    assert Quiet(1) + (Quiet(n) + [last]) == (Quiet(1) + Quiet(n)) + [last];
    QuietConcat(1, n);
  }

  /** From an empty frame, the escaped payload and the closing END deliver it. */
  lemma BodyThenEnd(data: seq<byte>)
    requires 1 <= |data| <= MAX_BUFFER
    ensures Run(Decoder(Receiving, []), Escape(data) + [END]) ==
      (Fresh, Quiet(|Escape(data)|) + [Ok(Some(data))])
  {
    var start := Decoder(Receiving, []);
    RunConcat(start, Escape(data), [END]);
    RunEscaped([], data);
    assert [] + data == data;
    RunOne(Decoder(Receiving, data), END);
  }

  /** The firmware's frames, which start with ESC CLEAR, decode to exactly
      their payload whether the decoder was idle or inside a frame. */
  lemma FirmwareFrameDecodes(d: Decoder, data: seq<byte>)
    requires d.state == Idle || d.state == Receiving
    requires 1 <= |data| <= MAX_BUFFER
    ensures Run(d, [ESC, CLEAR] + Framed(data)) ==
      (Fresh, Quiet(|Escape(data)| + 3) + [Ok(Some(data))])
  {
    var n := |Escape(data)|;
    var last: Event := Ok(Some(data));
    EscClearResynchronises(d);
    RunConcat(d, [ESC, CLEAR], Framed(data));
    FramedFromEmptyFrame(data);
    assert Quiet(2) + (Quiet(n + 1) + [last]) == (Quiet(2) + Quiet(n + 1)) + [last];
    QuietConcat(2, n + 1);
  }

  /** Inside an empty frame, the opening END of a frame is a no-op and the
      rest delivers the payload. */
  lemma FramedFromEmptyFrame(data: seq<byte>)
    requires 1 <= |data| <= MAX_BUFFER
    ensures Run(Decoder(Receiving, []), Framed(data)) ==
      (Fresh, Quiet(|Escape(data)| + 1) + [Ok(Some(data))])
  {
    var start := Decoder(Receiving, []);
    assert Framed(data) == [END] + (Escape(data) + [END]);
    RunOne(start, END);
    RunConcat(start, [END], Escape(data) + [END]);
    BodyThenEnd(data);
    var n := |Escape(data)|;
    var last: Event := Ok(Some(data));
    assert Run(start, Framed(data)).0 == Fresh;
    assert Run(start, Framed(data)).1 == Quiet(1) + (Quiet(n) + [last]);
    assert Quiet(1) + (Quiet(n) + [last]) == (Quiet(1) + Quiet(n)) + [last];
    QuietConcat(1, n);
  }

  /** The adapter's three decoding unit tests, on top of `RoundTrip`. */
  lemma DecodeExamples()
    ensures Frames(Run(Fresh, [END, 0x01, 0x02, 0x03, END]).1) == [[0x01, 0x02, 0x03]]
  {
    var input: seq<byte> := [END, 0x01, 0x02, 0x03, END];
    assert input == Framed([0x01, 0x02, 0x03]) by { SlipEncodeExamples(); }
    RoundTrip([0x01, 0x02, 0x03]);
    FramesQuiet([0x01, 0x02, 0x03], |Escape([0x01, 0x02, 0x03])| + 1);
  }

  lemma {:induction false} FramesQuiet(data: seq<byte>, n: nat)
    ensures Frames(Quiet(n) + [Ok(Some(data))]) == [data]
    decreases n
  {
    if n > 0 {
      assert (Quiet(n) + [Ok(Some(data))])[1..] == Quiet(n - 1) + [Ok(Some(data))];
      FramesQuiet(data, n - 1);
    } else {
      assert Quiet(n) + [Ok(Some(data))] == [Ok(Some(data))];
    }
  }

  /** The Rust decoder object. */
  class SlipDecoder {
    var state: DecodeState
    var buffer: seq<byte>

    ghost predicate Valid()
      reads this
    {
      |buffer| <= MAX_BUFFER
    }

    function Model(): Decoder
      reads this
    {
      Decoder(state, buffer)
    }

    /** `SlipDecoder::new` */
    constructor ()
      ensures Valid() && Model() == Fresh
    {
      state := Idle;
      buffer := [];
    }

    /** `SlipDecoder::reset` */
    method Reset()
      modifies this
      ensures Valid() && Model() == Fresh
    {
      state := Idle;
      buffer := [];
    }

    /** `SlipDecoder::process_byte` */
    method ProcessByte(b: byte) returns (r: Event)
      requires Valid()
      modifies this
      ensures Valid()
      ensures (Model(), r) == AdapterStep(old(Model()), b)
    {
      match state {
        case Idle =>
          if b == END {
            state := Receiving;
            buffer := [];
          } else if b == ESC {
            state := Escaped;
          }
          r := Ok(None);
        case Receiving =>
          if b == END {
            if |buffer| != 0 {
              var frame := buffer;
              Reset();
              r := Ok(Some(frame));
            } else {
              r := Ok(None);
            }
          } else if b == ESC {
            state := Escaped;
            r := Ok(None);
          } else {
            if |buffer| < MAX_BUFFER {
              buffer := buffer + [b];
            } else {
              Reset();
              return Err(FrameTooLarge);
            }
            r := Ok(None);
          }
        case Escaped =>
          if b == CLEAR {
            Reset();
          } else if b == ESC_END {
            if |buffer| < MAX_BUFFER {
              buffer := buffer + [END];
            } else {
              Reset();
              return Err(FrameTooLarge);
            }
          } else if b == ESC_ESC {
            if |buffer| < MAX_BUFFER {
              buffer := buffer + [ESC];
            } else {
              Reset();
              return Err(FrameTooLarge);
            }
          } else {
            Reset();
            return Err(InvalidEscape(b));
          }
          if state != Receiving {
            state := Receiving;
          }
          r := Ok(None);
      }
    }
  }
}
