# Serial RPC link of the hackpack robots, in Dafny

This project models the serial link between the host-side MCP adapter and
an Arduino robot (or the robot simulator) and proves properties of it.
It covers four parts.

- **Framing.** SLIP, as in RFC 1055: END 0xC0, ESC 0xDB, ESC_END 0xDC,
  ESC_ESC 0xDD. The repository adds a clear code, 0xDE.
- **Checksum.** A CRC-8 with polynomial 0x07, initial value 0 and no
  reflection or final XOR.
- **Payloads.** A command is `tag ++ args ++ [crc]`. Arguments are
  little-endian i16/i32 values and NUL-terminated strings.
- **Host rules.** The connection states, the manifest validator, schema
  and cache, and the text handling of the Python runner.

There are three implementations of the protocol, and each is modelled in
the form its source takes.

- **Firmware.** `mcp/mcp.hpp` and `mcp/mcp_process_frame.hpp` become the
  class `Firmware.MCPHandler`. It has the 256-byte `frameBuffer` and
  `responseBuffer` arrays, the `framePos` cursor, the `state` field and an
  `output` trace that stands for `Serial.write`.
  - `process_serial`, `crc8` and `send_slip_frame` are loops with
    invariants.
  - Each method is proved against pure functions. `Step`, `Feed` and
    `FeedAll` take the receive state machine byte by byte.
    `ProcessFrameSpec` gives the reply to one frame.
  - `MCPBindings::dispatch` is not part of this model. It is a
    function-valued parameter that obeys the bindings' contract (predicate
    `Honest`): at most 255 bytes written, and `0 <= response_len <= 255`.
- **SLIP codecs in Rust.** `arduino-mcp-adapter/slip.rs` becomes the class
  `SlipDecoding.SlipDecoder`, specified by the pure step `AdapterStep`,
  and the loop `SlipEncoding.SlipEncode`. The simulator's copy
  (`arduino-simulator/slip.rs`) is `SimulatorStep`, written as its source
  is and proved equal to the adapter's.
- **Payload codecs.** The adapter's `ResponseDecoder` and `CommandEncoder`
  are classes over `pos` and `data`. The simulator's `decode_command`,
  `encode_response`, `parse_arguments` and `handle_command` are functions,
  with methods for its loops.
- **Host rules.** `ConnectionManager` is a class whose methods are proved
  equal to pure transition functions over `Conn` (state, port open, bytes
  sent). The operating system's answers are parameters (`Environment`,
  `Exchange`, `Reply`). `ManifestManager` is a class over its cache map.

The three `crc8` loops (firmware, simulator, adapter connection) are one
function, `Crc.Crc8`. It has one imperative model in `Crc.ComputeCrc8` and
another in `Firmware.MCPHandler.Crc8`.

The module `Interop` connects the parts. It proves:

- what the host reads back from the firmware's and the simulator's frames;
- that a host command reaches the firmware's dispatcher exactly once;
- whole calls through each device;
- the places where the implementations disagree (all reproduced, not
  corrected):
  - the firmware's error payload does not carry its error code;
  - the firmware and the Rust decoders treat an invalid escape differently;
  - they treat an ESC while idle differently;
  - one-byte frames are handled differently;
  - a firmware reply that arrives during a frame loses that frame.

Bytes are the newtype `Base.byte` (0..255). JSON values are a small
datatype. Wire data, JSON string values and device IDs are byte sequences
(`seq<byte>`). Parameter, function and key names, the Python script and
the console text are `string`, that is, sequences of Unicode characters;
Rust's `char::is_whitespace` is modelled as the Unicode White_Space
property.

## Model

| member | source | states |
|---|---|---|
| Crc.Crc8IsLeftFold | mcp/mcp.hpp:32-45 | The CRC of no bytes is 0, and the CRC of `xs ++ [b]` is eight shift/XOR-0x07 steps applied to `crc8(xs) ^ b`: a left fold over the bytes |
| Crc.CrcFromConcat | mcp/mcp.hpp:32-45 | Absorbing `xs ++ ys` is absorbing `xs` and then `ys` from the intermediate register |
| Crc.ComputeCrc8 | mcp/arduino-simulator/protocol.rs:7-22 | The nested shift/XOR loop (the same loop as connection.rs:335-348) returns `Crc8(data)` |
| Crc.Crc8OfCountingBytes | mcp/arduino-simulator/protocol.rs:103-111 | `crc8([1,2,3]) == 0x48` and `crc8([5]) == 0x1B` |
| Crc.Crc8OfErrorPayloads | mcp/arduino-simulator/main.rs:301-311 | `crc8([0xFF]) == 0xF3`, `crc8([0xFF,1]) == 0xD0` and `crc8([0xFF,2]) == 0xD9` |
| LittleEndian.I16RoundTrip | mcp/arduino-simulator/protocol.rs:74-77 | Reading back the two little-endian bytes of an i16 gives the value |
| LittleEndian.I16BytesRoundTrip | mcp/arduino-mcp-adapter/protocol.rs:14-21 | Every pair of bytes is the encoding of the i16 that `from_le_bytes` reads from it |
| LittleEndian.I32RoundTrip | mcp/arduino-simulator/protocol.rs:78-81 | Reading back the four little-endian bytes of an i32 gives the value |
| LittleEndian.I32BytesRoundTrip | mcp/arduino-mcp-adapter/protocol.rs:23-35 | Every four bytes are the encoding of the i32 read from them |
| LittleEndian.WrapI16 | mcp/arduino-mcp-adapter/connection.rs:207-211 | `as i16` keeps in-range values and otherwise wraps modulo 2^16 |
| LittleEndian.WrapI32 | mcp/arduino-mcp-adapter/connection.rs:212-216 | `as i32` keeps in-range values and otherwise wraps modulo 2^32 |
| LittleEndian.Examples | mcp/arduino-simulator/protocol.rs:119-143 | 42 as i16 is `[42, 0]`; 1000 as i32 is `[0xE8, 0x03, 0, 0]` |
| SlipEncoding.SlipEncode | mcp/arduino-mcp-adapter/slip.rs:134-161 | The encoding loop returns exactly `[END] ++ esc(data) ++ [END]`, with END becoming ESC ESC_END and ESC becoming ESC ESC_ESC |
| SlipEncoding.EscapeConcat | mcp/arduino-mcp-adapter/slip.rs:141-157 | Escaping is byte by byte: the escape of `xs ++ ys` is the escape of `xs` followed by the escape of `ys` |
| SlipEncoding.EscapeLength | mcp/arduino-mcp-adapter/slip.rs:141-157 | The escaped body is as long as the data plus the number of END and ESC bytes in it |
| SlipEncoding.EscapeHasNoEnd | mcp/arduino-mcp-adapter/slip.rs:141-157 | No END byte appears in an escaped body |
| SlipEncoding.FramedEndPositions | mcp/arduino-mcp-adapter/slip.rs:134-161 | A framed payload is as long as the data plus 2 plus the number of END and ESC bytes in it, and END appears exactly at its first and last positions |
| SlipEncoding.SlipEncodeExamples | mcp/arduino-mcp-adapter/slip.rs:167-190 | The encodings of `[1,2,3]` and of `[1, END, 3, ESC, 5]` are the ones the unit tests expect |
| SlipDecoding.AdapterStep | mcp/arduino-mcp-adapter/slip.rs:38-129 | One `process_byte` step never lets the buffer exceed 1024 bytes |
| SlipDecoding.Run | mcp/arduino-mcp-adapter/slip.rs:38-129 | Feeding a byte sequence yields one event per byte |
| SlipDecoding.IdleStep | mcp/arduino-mcp-adapter/slip.rs:46-58 | In Idle, END gives Receiving with an empty buffer, ESC gives Escaped with the buffer kept, other bytes change nothing, and the result is always `Ok(None)` |
| SlipDecoding.ReceivingEnd | mcp/arduino-mcp-adapter/slip.rs:60-71 | In Receiving, END with a non-empty buffer returns the buffer and resets to Idle; with an empty buffer it returns `Ok(None)` and stays in Receiving |
| SlipDecoding.Overflow | mcp/arduino-mcp-adapter/slip.rs:78-86 | Appending to a full 1024-byte buffer, in Receiving or through an escape, resets to Idle and returns `Err(FrameTooLarge)` |
| SlipDecoding.EscapedStep | mcp/arduino-mcp-adapter/slip.rs:90-127 | In Escaped, CLEAR empties the buffer, ESC_END appends END and ESC_ESC appends ESC, all ending in Receiving; any other byte resets to Idle with `Err(InvalidEscape)` |
| SlipDecoding.EscClearResynchronises | mcp/arduino-simulator/slip.rs:44-47 | From Idle or Receiving, ESC CLEAR leaves Receiving with an empty buffer and reports nothing |
| SlipDecoding.StepsAgree | mcp/arduino-simulator/slip.rs:37-114 | The simulator's step (unconditional `state = Receiving` after an escape) equals the adapter's guarded step on every state and byte |
| SlipDecoding.SimulatorStep | mcp/arduino-simulator/slip.rs:37-114 | A frame is delivered only by END while receiving a non-empty buffer, and is that buffer, leaving a fresh decoder; after an escape the decoder is receiving again unless it reports an error; every error leaves a fresh decoder; the buffer stays within 1024 bytes |
| SlipDecoding.RunsAgree | mcp/arduino-simulator/slip.rs:37-114 | The two decoders give the same events and end states on every byte sequence |
| SlipDecoding.RoundTrip | mcp/arduino-mcp-adapter/slip.rs:232-247 | A fresh decoder fed `slip_encode(data)`, for data of 1 to 1024 bytes, reports exactly one frame, equal to `data`, no error, and ends fresh |
| SlipDecoding.FirmwareFrameDecodes | mcp/mcp.hpp:52-75 | From Idle or Receiving, the firmware's output `[ESC, CLEAR] ++ slip_encode(data)` decodes to exactly the frame `data` |
| SlipDecoding.DecodeExamples | mcp/arduino-mcp-adapter/slip.rs:192-230 | Decoding `[END, 1, 2, 3, END]` yields the one frame `[1, 2, 3]` |
| SlipDecoding.SlipDecoder.constructor | mcp/arduino-mcp-adapter/slip.rs:24-29 | A new decoder is Idle with an empty buffer |
| SlipDecoding.SlipDecoder.Reset | mcp/arduino-mcp-adapter/slip.rs:31-34 | `reset` makes the decoder Idle with an empty buffer |
| SlipDecoding.SlipDecoder.ProcessByte | mcp/arduino-mcp-adapter/slip.rs:38-129 | The method's new state and result are those of `AdapterStep`, and the buffer stays within 1024 bytes |
| Firmware.Step | mcp/mcp.hpp:85-150 | The receive state machine keeps `frame_pos` within 256, and hands a frame to `process_frame` exactly when END arrives in Receiving with `frame_pos > 1`; the frame is the buffered bytes |
| Firmware.Staged | mcp/mcp_process_frame.hpp:27 | After dispatch, `response_buffer` holds the bytes written by the dispatcher followed by its earlier contents |
| Firmware.MCPHandler.constructor | mcp/mcp.hpp:78 | A new handler is Idle with `frame_pos == 0`, nothing sent and nothing dispatched |
| Firmware.MCPHandler.Crc8 | mcp/mcp.hpp:32-45 | The nested loop over the array prefix returns `Crc8(data[..len])` |
| Firmware.MCPHandler.ResetFrame | mcp/mcp.hpp:47-50 | `reset_frame` sets `frame_pos` to 0 and the state to Idle |
| Firmware.MCPHandler.SendSlipFrame | mcp/mcp.hpp:52-75 | The output grows by exactly `[ESC, CLEAR, END] ++ esc(data[..len]) ++ [END]` |
| Firmware.MCPHandler.Dispatch | mcp/mcp_process_frame.hpp:27 | One dispatcher call on `frame_buffer[..data_len]` is logged; `response_buffer` is overwritten by what it wrote and the rest is kept |
| Firmware.MCPHandler.SendError | mcp/mcp_process_frame.hpp:18-21 | The error frame sent is `SlipOut([0xFF, crc8([0xFF])])`: byte 1 is overwritten with the CRC |
| Firmware.MCPHandler.SendResponse | mcp/mcp_process_frame.hpp:31-33 | `response_buffer[len]` becomes the CRC of the first `len` bytes, and those `len + 1` bytes are sent |
| Firmware.ProcessFrameSpec | mcp/mcp_process_frame.hpp:8-41 | A frame shorter than 2 bytes sends nothing, dispatches nothing and keeps `response_buffer`; the dispatcher is called at most once, exactly when the last byte is the CRC-8 of the rest, and on the data without that byte; whatever is sent is longer than 2 bytes and starts with ESC CLEAR |
| Firmware.MCPHandler.ProcessFrame | mcp/mcp_process_frame.hpp:8-41 | The output, `response_buffer` and dispatch log change exactly as `ProcessFrameSpec` says; `frame_buffer` is not written |
| Firmware.MCPHandler.ProcessByte | mcp/mcp.hpp:82-150 | One byte changes the handler exactly as `Feed` (decoder step, then `process_frame` on a complete frame); every buffer write is in bounds |
| Firmware.MCPHandler.ProcessSerial | mcp/mcp.hpp:80-152 | Reading the available bytes changes the handler exactly as `FeedAll` of those bytes |
| FirmwareProperties.DeliversOnce | mcp/mcp.hpp:80-152 | From Idle, a framed payload of 2 to 256 bytes calls `process_frame` once on exactly that payload, and the handler ends Idle |
| FirmwareProperties.SlipOutDeliversOnce | mcp/mcp.hpp:52-75 | The same holds for the firmware's own `send_slip_frame` output: the leading ESC CLEAR is ignored in Idle |
| FirmwareProperties.ShortFrameIgnored | mcp/mcp.hpp:99-106 | A frame of fewer than two bytes changes nothing: no dispatch and no output |
| FirmwareProperties.OverlongFrameDropped | mcp/mcp.hpp:110-120 | A frame longer than 256 bytes is dropped without dispatch or output, and its closing END opens an empty frame |
| FirmwareProperties.ErrorPayloadIsConstant | mcp/mcp_process_frame.hpp:18-21 | Whatever the code, the error payload is `[0xFF, 0xF3]`: the error code never reaches the wire |
| FirmwareProperties.ProcessFrameAnswers | mcp/mcp_process_frame.hpp:12-40 | The CRC checked is the last byte against the rest. A mismatch sends the fixed error frame and dispatches nothing. A match dispatches the data once. Success sends `p ++ [crc8(p)]` for the staged response `p`; failure sends the same error frame as a mismatch |
| FirmwareProperties.ReplySealed | mcp/mcp_process_frame.hpp:19-39 | Every frame `process_frame` sends is `p ++ [crc8(p)]` with `p` shorter than 256 bytes, or it sends nothing |
| FirmwareProperties.ReplyOfFFLooksLikeError | mcp/mcp_process_frame.hpp:29-40 | A successful reply of the single byte 0xFF is the same on the wire as either error |
| SimulatorProtocol.DecodeCommand | mcp/arduino-simulator/protocol.rs:34-64 | Length 0 and length 1 are rejected with their own errors. Otherwise the frame is accepted exactly when its last byte is the CRC of the rest, and it splits into tag, args and CRC |
| SimulatorProtocol.DecodeCommandRoundTrip | mcp/arduino-simulator/protocol.rs:145-166 | `decode_command([tag] ++ args ++ [crc8([tag] ++ args)]) == Ok((tag, args))` |
| SimulatorProtocol.EncodeResponse | mcp/arduino-simulator/protocol.rs:67-97 | The frame is the response body followed by its CRC |
| SimulatorProtocol.ResponseBodyDecodes | mcp/arduino-simulator/protocol.rs:113-143 | Void encodes as `[0x00]`, I16 in 3 bytes, I32 in 5 and CStr in the string's length plus 2, with the value little-endian or the string followed by one NUL |
| SimulatorProtocol.CodecExamples | mcp/arduino-simulator/protocol.rs:113-174 | The lengths, bytes and decode results the unit tests expect, including the CRC mismatch for `[5, 0xFF]` |
| AdapterProtocol.ReadI16At | mcp/arduino-mcp-adapter/protocol.rs:14-21 | Errors exactly when fewer than 2 bytes remain, leaving `pos` unchanged; otherwise reads the little-endian value and advances by 2 |
| AdapterProtocol.ReadI32At | mcp/arduino-mcp-adapter/protocol.rs:23-35 | Errors exactly when fewer than 4 bytes remain, leaving `pos` unchanged; otherwise reads the little-endian value and advances by 4 |
| AdapterProtocol.ReadCStringAt | mcp/arduino-mcp-adapter/protocol.rs:37-63 | Returns the NUL-free bytes from `pos` up to the first 0 or the end, and skips the terminator when there is one |
| AdapterProtocol.ResponseDecoder.constructor | mcp/arduino-mcp-adapter/protocol.rs:9-11 | A new decoder reads `data` from position 0 |
| AdapterProtocol.ResponseDecoder.ReadI16 | mcp/arduino-mcp-adapter/protocol.rs:14-21 | The method's result and new `pos` are those of `ReadI16At`, and `pos` stays within the data |
| AdapterProtocol.ResponseDecoder.ReadI32 | mcp/arduino-mcp-adapter/protocol.rs:23-35 | The method's result and new `pos` are those of `ReadI32At`, and `pos` stays within the data |
| AdapterProtocol.ResponseDecoder.ReadCString | mcp/arduino-mcp-adapter/protocol.rs:37-63 | Its result and new `pos` are those of `ReadCStringAt`: the NUL-free bytes up to the first NUL (found with `ZeroIndex`) or the end of the data, with `pos` moved past that NUL when there is one |
| AdapterProtocol.CommandEncoder.constructor | mcp/arduino-mcp-adapter/protocol.rs:71-73 | A new encoder holds no bytes |
| AdapterProtocol.CommandEncoder.WriteI16 | mcp/arduino-mcp-adapter/protocol.rs:75-77 | Appends the 2 little-endian bytes of the value |
| AdapterProtocol.CommandEncoder.WriteI32 | mcp/arduino-mcp-adapter/protocol.rs:79-81 | Appends the 4 little-endian bytes of the value |
| AdapterProtocol.CommandEncoder.WriteCString | mcp/arduino-mcp-adapter/protocol.rs:83-86 | Appends the string's bytes and one NUL |
| AdapterProtocol.CommandEncoder.Finish | mcp/arduino-mcp-adapter/protocol.rs:88-90 | Returns everything written, in call order |
| AdapterProtocol.EncodeArgsSnoc | mcp/arduino-mcp-adapter/protocol.rs:66-91 | The encoding of a list of arguments is the encodings of the arguments, concatenated in order |
| AdapterProtocol.ReadInvertsWrite | mcp/arduino-mcp-adapter/protocol.rs:14-86 | A value written by `write_*` (a string without NUL) is read back unchanged by the matching `read_*`, whatever surrounds it, and the read ends just after it |
| AdapterProtocol.ReadI16Inverts | mcp/arduino-mcp-adapter/protocol.rs:14-21 | `read_i16` at an encoded i16 returns it and advances by 2 |
| AdapterProtocol.ReadI32Inverts | mcp/arduino-mcp-adapter/protocol.rs:23-35 | `read_i32` at an encoded i32 returns it and advances by 4 |
| AdapterProtocol.ReadCStringInverts | mcp/arduino-mcp-adapter/protocol.rs:37-63 | `read_cstring` at an encoded string returns it and moves past its terminator |
| AdapterProtocol.WriteThenRead | mcp/arduino-mcp-adapter/protocol.rs:66-91 | Writing an i16, an i32 and a string, then reading them with a `ResponseDecoder`, returns the same three values and ends at the end of the data |
| AdapterProtocol.DecodeResponseByType | mcp/arduino-mcp-adapter/protocol.rs:93-113 | Empty data gives the success message for every type. "i16" and "i32" decode little-endian and fail exactly when too short. Any other type reads a C string |
| AdapterProtocol.ReadsAtEnd | mcp/arduino-mcp-adapter/protocol.rs:14-63 | At the end of the data, `read_cstring` returns "" without moving, and `read_i16`/`read_i32` fail |
| Manifests.AsI64 | mcp/src/manifest.rs:217-219 | `as_i64` is defined exactly for integers in the i64 range |
| Manifests.Lookup | mcp/src/manifest.rs:193-203 | A key is found exactly when the object has it, with its stored value |
| Manifests.FirstUnexpected | mcp/src/manifest.rs:178-190 | Reports nothing exactly when every key names a parameter; otherwise reports the first such key in iteration order |
| Manifests.CheckType | mcp/src/manifest.rs:206-251 | i16/i32 need a JSON number; i16 integers in the i64 range outside [-32768, 32767] fail with their value, while numbers that are not i64 (floats, integers above i64::MAX) pass as 0; i32 accepts any number; CStr needs a string and bool a boolean; other types accept anything; every error names the parameter |
| Manifests.CheckParams | mcp/src/manifest.rs:193-251 | Success holds exactly when every parameter is present and passes its type check; a missing-parameter error names an absent key |
| Manifests.ValidateFunctionArguments | mcp/src/manifest.rs:151-255 | Non-objects are rejected, and only they get that error. Accepted arguments have exactly the parameter names as keys, each value of its type, and conversely such arguments are accepted. An unexpected key is reported before any missing parameter |
| Manifests.I16CheckAdmitsNonI64Numbers | mcp/src/manifest.rs:214-229 | Through `as_i64().unwrap_or(0)`, a float or an integer beyond i64 passes the i16 check, 32768 is rejected, and i32 accepts 2^32 |
| Manifests.TypeToJsonType | mcp/src/manifest.rs:301-309 | i16/i32/i64 map to "integer", f32/f64 to "number" and bool to "boolean"; everything else maps to "string" |
| Manifests.SchemaRequired | mcp/src/manifest.rs:267-288 | The schema's "required" lists every parameter name, in parameter order |
| Manifests.SchemaKeys | mcp/src/manifest.rs:267-288 | The schema's properties are exactly the parameter names |
| Manifests.SchemaLastWins | mcp/src/manifest.rs:267-288 | Each property's type is `type_to_json_type` of the last parameter with that name |
| Manifests.CreateInputSchema | mcp/src/manifest.rs:267-288 | The loop builds exactly `SchemaOf(params)` |
| Manifests.CreateToolsList | mcp/src/manifest.rs:257-265 | One tool per function, in order, with its name, description and required parameters; each tool's input schema is `SchemaOf` its function's parameters |
| Manifests.LoadResult | mcp/src/manifest.rs:290-298 | Loading succeeds exactly when the manifest file parses, and yields its contents |
| Manifests.ManifestManager.constructor | mcp/src/manifest.rs:48-53 | The cache starts empty |
| Manifests.ManifestManager.GetManifest | mcp/src/manifest.rs:55-105 | A cached manifest is returned without reading the disk. Otherwise the file is loaded, and only a successful load is added to the cache |
| Manifests.ManifestManager.ReloadManifest | mcp/src/manifest.rs:107-120 | The entry is removed, then replaced when the reload succeeds |
| Simulator.KindOf | mcp/arduino-simulator/main.rs:260-294 | The parameter arms: exactly "i16", "i32" and "CStr" have their own arm |
| Simulator.ParseOne | mcp/arduino-simulator/main.rs:260-294 | A parsed value has its parameter's kind and moves the offset forward. i16 and i32 fail exactly when 2 or 4 bytes are not left, and otherwise read the value whose little-endian bytes are those at the offset. A string fails exactly when the offset is past the end, and otherwise holds the NUL-free bytes up to the first NUL or the end. `UnknownParamType` arises exactly for an unknown type |
| Simulator.ParseFrom | mcp/arduino-simulator/main.rs:255-299 | On success there is one value per parameter |
| Simulator.ParsedKinds | mcp/arduino-simulator/main.rs:255-299 | On success the values match the parameters one by one, in order |
| Simulator.DescribesPointwise | mcp/arduino-simulator/main.rs:255-299 | Values describe parameters exactly when the lengths agree and each value has its parameter's kind |
| Simulator.ParseParameter | mcp/arduino-simulator/main.rs:260-294 | The `match` on the parameter type, with its scan for NUL, computes `ParseOne` |
| Simulator.ParseArguments | mcp/arduino-simulator/main.rs:255-299 | The offset loop computes `ParseFrom(params, args, 0)` |
| Simulator.ParseI16Inverts | mcp/arduino-simulator/main.rs:261-268 | An i16 parameter reads the little-endian value and advances by 2 |
| Simulator.ParseI32Inverts | mcp/arduino-simulator/main.rs:269-281 | An i32 parameter reads the little-endian value and advances by 4 |
| Simulator.ParseStrInverts | mcp/arduino-simulator/main.rs:282-291 | A CStr parameter reads up to the NUL and moves past it |
| Simulator.ParseOneInvertsEncode | mcp/arduino-simulator/main.rs:260-294 | Parsing one parameter inverts the host's encoding of a value of its kind |
| Simulator.ParseInvertsEncode | mcp/arduino-simulator/main.rs:255-299 | `parse_arguments` returns exactly the values the host's `CommandEncoder` wrote, when their kinds match the parameters |
| Simulator.UnterminatedStringThenString | mcp/arduino-simulator/main.rs:283-290 | After an unterminated string, a second CStr slices past the end of the arguments (a panic in the source) |
| Simulator.FindFunction | mcp/arduino-simulator/main.rs:201-209 | Finds the first manifest function with the tag, and nothing exactly when none has it |
| Simulator.StubResponse | mcp/arduino-simulator/main.rs:228-249 | No return type gives Void, "i16" gives I16(0), "i32" gives I32(0), and anything else gives an empty CStr |
| Simulator.HandleCommand | mcp/arduino-simulator/main.rs:183-253 | Decode errors are passed on. Tag 0 is answered with the device ID whatever the manifest says. A non-zero tag is unknown exactly when no function has it. A declared function whose arguments fail to parse gives `BadArguments` with that error, and otherwise its stub response |
| Simulator.UnknownTagCode | mcp/arduino-simulator/main.rs:367-377 | An unknown tag is answered with error code 0x02 |
| Simulator.BadCommandCode | mcp/arduino-simulator/main.rs:367-377 | A rejected command frame is answered with error code 0x01 |
| Simulator.ShortArgumentsCode | mcp/arduino-simulator/main.rs:367-377 | Too few bytes for an i16 or i32 argument give error code 0x01 |
| Simulator.UnknownParamTypeCode | mcp/arduino-simulator/main.rs:367-377 | An unknown parameter type gives code 0x02 exactly when its name contains "Unknown function tag", else 0x01 |
| Simulator.ParamTypeNamedLikeTheTagError | mcp/arduino-simulator/main.rs:367-377 | A parameter type named "Unknown function tag" is reported as an unknown tag (code 0x02) |
| Simulator.ErrorFrame | mcp/arduino-simulator/main.rs:301-311 | The error payload is three bytes: 0xFF, the code, and the CRC-8 of those two |
| Simulator.React | mcp/arduino-simulator/main.rs:346-385 | A byte that completes nothing gets no answer; a handled frame is answered with its framed response; a decoding error with error code 0x01 and an unknown tag with 0x02; the loop panics exactly when a string argument is sliced past the end |
| Simulator.Respond | mcp/arduino-simulator/main.rs:345-385 | The simulator panics on a run of events exactly when one of them crashes it, and a run of events that complete nothing writes nothing |
| Simulator.ErrorFrameCarriesCode | mcp/arduino-simulator/main.rs:301-311 | The simulator's error payload is `[0xFF, code, crc8([0xFF, code])]`: `[FF 01 D0]` and `[FF 02 D9]` |
| Connection.DeviceId | mcp/arduino-mcp-adapter/connection.rs:24-33 | `device_id()` is `Some(id)` exactly for `Ready(id)`, so `is_ready` holds exactly when it is `Some` |
| Connection.StateWords | mcp/arduino-mcp-adapter/connection.rs:36-43 | The words after "Robot ": they start with 'e' exactly for an error, whose words are "error: " and its message; they are "is ready" exactly for `Ready`; characters 0 and 3 tell the other four states apart |
| Connection.ErrorMessage | mcp/arduino-mcp-adapter/connection.rs:35-44 | Every message starts with "Robot "; it starts with "Robot error: " exactly for an error state, followed by that error's message; it is "Robot is ready" exactly for `Ready` |
| Connection.ErrorMessageIdentifiesState | mcp/arduino-mcp-adapter/connection.rs:35-44 | Different states have different messages, except that every `Ready` reads the same |
| Connection.CommandPayload | mcp/arduino-mcp-adapter/connection.rs:258-281 | The payload framed is `[tag] ++ args ++ [crc8([tag] ++ args)]` |
| Connection.StripCrc | mcp/arduino-mcp-adapter/connection.rs:305-317 | Only an empty frame is too short; otherwise the result is the frame without its last byte |
| Connection.CrcNeverChecked | mcp/arduino-mcp-adapter/connection.rs:305-317 | The trailing CRC is never verified: any last byte gives the same data |
| Connection.FirstFrame | mcp/arduino-mcp-adapter/connection.rs:289-333 | A frame read from the wire is non-empty and within the decoder's 1024 bytes |
| Connection.ReadRaw | mcp/arduino-mcp-adapter/connection.rs:289-333 | `read_response_raw` never reports a short frame (the decoder never delivers an empty one), and its data is shorter than 1024 bytes |
| Connection.ConvertArgs | mcp/arduino-mcp-adapter/connection.rs:203-231 | Argument conversion succeeds exactly when every parameter's value converts, giving one value per parameter in order |
| Connection.MissingDeviceDisconnects | mcp/arduino-mcp-adapter/connection.rs:72-81 | A missing device path leaves the manager Disconnected with the port closed and nothing sent |
| Connection.CheckKeepsSettled | mcp/arduino-mcp-adapter/connection.rs:68-110 | After a check the state is Disconnected, Ready or Error, the port is open when Ready and closed when Disconnected |
| Connection.ReadyOnlyThroughIdExchange | mcp/arduino-mcp-adapter/connection.rs:112-170 | A check reaches Ready only when the path exists, the port opens and the device-ID command was sent and answered; the ID is the reply read as a C string |
| Connection.NotReadySendsNothing | mcp/arduino-mcp-adapter/connection.rs:185-190 | `execute_function` fails before touching the port unless the state is Ready, with "Robot not ready: " and the state's message |
| Connection.ReadyCallSendsOneCommand | mcp/arduino-mcp-adapter/connection.rs:185-248 | When ready, a call sends nothing or exactly one frame, the command for the function's tag and converted arguments |
| Connection.ExecuteKeepsSettled | mcp/arduino-mcp-adapter/connection.rs:185-248 | A call keeps the manager's state settled |
| Connection.ValidatedArgumentsCanPanicOrWrap | mcp/arduino-mcp-adapter/connection.rs:203-231 | Arguments the validator accepts can still fail conversion (a float for an i16 panics at `unwrap`) or wrap (2^31 for an i32 is sent as -2^31) |
| Connection.EncodeParameter | mcp/arduino-mcp-adapter/connection.rs:205-229 | One parameter is converted as `ConvertArg` and, when it converts, its encoding is appended |
| Connection.EncodeArguments | mcp/arduino-mcp-adapter/connection.rs:203-231 | The loop yields bytes exactly when all arguments convert, and then they are the encoding of the converted values |
| Connection.ReadResponseOfCString | mcp/arduino-mcp-adapter/connection.rs:283-287 | A raw reply holding a NUL-free string and its NUL is read as that string, and the manager is unchanged |
| Connection.AnswerIn | mcp/arduino-mcp-adapter/connection.rs:237-247 | Reading and decoding the reply changes at most the manager's state, and only to `Error` |
| Connection.ConnectionManager.constructor | mcp/arduino-mcp-adapter/connection.rs:55-62 | A new manager is Disconnected with no port and nothing sent |
| Connection.ConnectionManager.SendCommandWithArgs | mcp/arduino-mcp-adapter/connection.rs:258-281 | On a successful write the sent bytes grow by the SLIP-framed command; a write failure sends nothing |
| Connection.ConnectionManager.SendCommand | mcp/arduino-mcp-adapter/connection.rs:254-256 | `send_command` is the case with no arguments |
| Connection.ConnectionManager.ReadResponseRaw | mcp/arduino-mcp-adapter/connection.rs:289-333 | The result is `ReadRaw` of the reply; a serial read error also records an Error state |
| Connection.ConnectionManager.ReadResponse | mcp/arduino-mcp-adapter/connection.rs:283-287 | The raw response read as a C string |
| Connection.ConnectionManager.GetDeviceId | mcp/arduino-mcp-adapter/connection.rs:172-183 | Without a port it fails; otherwise it sends command 0 and reads the reply as a string |
| Connection.ConnectionManager.InitializeDevice | mcp/arduino-mcp-adapter/connection.rs:149-170 | Initializing, then Ready(id) on a successful ID read, else Error with the failure text |
| Connection.ConnectionManager.AttemptConnection | mcp/arduino-mcp-adapter/connection.rs:112-147 | A successful open goes Connected and then initializes; a failed open records Error with the message for its kind |
| Connection.ConnectionManager.CheckAndUpdateConnection | mcp/arduino-mcp-adapter/connection.rs:68-110 | State changes as `CheckIn`: a missing path disconnects, Disconnected or Error attempts a connection, and a failed probe disconnects |
| Connection.ConnectionManager.ExecuteFunction | mcp/arduino-mcp-adapter/connection.rs:185-248 | The new state and result are those of `ExecuteIn` |
| PythonRunner.BlankIffAllWhitespace | mcp/arduino-mcp-adapter/python_runner.rs:17-19 | `trim()` is empty exactly when every character is white space |
| PythonRunner.PrepareScript | mcp/arduino-mcp-adapter/python_runner.rs:17-26 | A blank script is rejected. Otherwise the result starts with prelude ++ marker ++ script and ends in a newline, added exactly when the script does not already end with one |
| PythonRunner.TrimNewlines | mcp/arduino-mcp-adapter/python_runner.rs:85-86 | The result is the longest prefix not ending in '\n'; only newlines were removed |
| PythonRunner.FormatConsoleOutput | mcp/arduino-mcp-adapter/python_runner.rs:84-97 | Never empty and never ends in '\n'. Both streams empty gives the fixed message; stdout alone gives trimmed stdout; stderr alone gives the stderr header and trimmed stderr; both give trimmed stdout, a newline, the header and trimmed stderr |
| PythonRunner.TrailingNewlinesIgnored | mcp/arduino-mcp-adapter/python_runner.rs:84-97 | An extra trailing newline on either stream does not change the output |
| PythonRunner.TrimNewlinesIdempotent | mcp/arduino-mcp-adapter/python_runner.rs:85-86 | Trimming newlines twice is the same as once |
| Interop.HostReadsReply | mcp/arduino-mcp-adapter/connection.rs:289-333 | The host reads back the body of any reply frame, from `slip_encode` and from the firmware's `send_slip_frame` alike |
| Interop.HostReadsErrorReplies | mcp/mcp_process_frame.hpp:18-39 | The host reads a firmware error as the one byte `[0xFF]`, and a simulator error as `[0xFF, code]` |
| Interop.SimulatorErrorReadsAsNumber | mcp/arduino-mcp-adapter/protocol.rs:93-113 | For an i16 function, a simulator error reply is read as an ordinary number |
| Interop.HostCommandReachesFirmware | mcp/mcp.hpp:80-152 | A host command frame reaches the firmware's dispatcher exactly once, with the tag and arguments, and the firmware ends Idle |
| Interop.ExecuteWithReply | mcp/arduino-mcp-adapter/connection.rs:185-248 | With convertible arguments and a reply, a call sends one command and returns the reply decoded by its return type |
| Interop.CallThroughFirmware | mcp/mcp_process_frame.hpp:8-41 | A call through the firmware returns the dispatcher's response; a failed dispatch is read as the byte 0xFF |
| Interop.FirmwareLosesFrameAfterClear | mcp/mcp.hpp:124-148 | A firmware frame arriving while the firmware is receiving is lost: ESC CLEAR empties the frame and the END ends it |
| Interop.StrayEscBeforeFrame | mcp/mcp.hpp:86-95 | ESC END from Idle opens a frame on the firmware but is an invalid escape for the Rust decoders |
| Interop.InvalidEscapeHandledDifferently | mcp/mcp.hpp:142-147 | After ESC, an invalid byte sends the firmware to Receiving with an empty frame and the Rust decoder to Idle with an error |
| Interop.OneByteFrame | mcp/mcp.hpp:102 | A one-byte frame is ignored by the firmware, delivered by the Rust decoder, and answered by the simulator with error code 0x01 |
| Interop.SimulatorHandlesOneFrame | mcp/arduino-simulator/main.rs:347-387 | A framed command is decoded and answered with the SLIP frame of its response |
| Interop.SimulatorAnswersHostCommand | mcp/arduino-simulator/main.rs:183-253 | A host command for a manifest function with matching arguments is answered with the stub response for its return type |
| Interop.SimulatorAnswersDeviceId | mcp/arduino-simulator/main.rs:194-198 | Command 0 is answered with the device ID as a C string |
| Interop.HostReadsSimulatorResponse | mcp/arduino-simulator/protocol.rs:67-97 | The host reads back the body of every simulator response |
| Interop.StubReadsBack | mcp/arduino-simulator/main.rs:228-249 | The stub responses are read as success, 0, or the empty string, by return type |
| Interop.CallThroughSimulator | mcp/arduino-simulator/main.rs:183-253 | A call through the simulator sends one command and returns success, 0 or the empty string, by return type |
| Interop.ConnectsToSimulator | mcp/arduino-mcp-adapter/connection.rs:68-170 | Connecting to the simulator ends Ready with the simulator's device ID |
| Interop.SimulatorIdArrives | mcp/arduino-simulator/main.rs:194-198 | The simulator's answer to command 0 reaches the host's raw read as the device ID and its NUL |
| Interop.HostReadsSimulatorId | mcp/arduino-mcp-adapter/connection.rs:172-183 | The host reads the simulator's answer to command 0 as its device ID |

## Left out

- `Serial.write` debug characters (`'R'`, `'S'`, `'E'`, ...) are not in the firmware's output trace. They are not protocol bytes.
- Serial ports, the simulator's PTY, sleeps, logging and Ctrl-C handling are not modelled. What arrives or fails is a parameter (`Reply`, `Exchange`, `Environment`).
- `read_response_raw`'s chunked read loop is taken as a whole reply. A reply that never holds a frame gives `NeverReturns` where the source keeps waiting.
- Partial writes and `flush` are folded into one write outcome.
- Mutex locking is left out. The nested lock of `port` in `check_and_update_connection` (connection.rs lines 98-104) would deadlock a `std::sync::Mutex`. The model takes the evident intent: a failed probe write disconnects.
- `MCPBindings::dispatch` is not part of this model. It is a function-valued parameter bound only by its contract (`Honest`).
- Firmware.MCPHandler.Dispatch: it is a method calling that function rather than an abstract method.
- The `MCP_TOOL`/`MCP_DESCRIPTION` macros are left out.
- UTF-8 lossy decoding is left out: strings from the wire stay bytes.
- `parse_arguments` returns the display strings of the values (`"42"`, quoted strings); the model returns the values themselves.
- Decimal rendering of numbers is left out: `ResponseText.Number` holds the integer, and the error's tag is rendered by `Decimal`.
- JSON parsing and the filesystem are left out. A manifest file is a `DiskEntry` (parsed or not), and `list_available_manifests` is not modelled.
- The Tool JSON shape and the tools-list error path are left out.
- The Python prelude template and `build_prelude`, the temporary file, process spawning, the timeout and the exit status are left out.
- Rust panics are error values: `SlicePastEnd` in `parse_arguments`, `Panicked` for `unwrap` in `execute_function`, `Crash` in the simulator's loop.
- The simulator's `connected` flag, the decoder reset on reconnect and write errors are left out, and so is loading the manifest in `Simulator::new`.
- HTTP/JSON-RPC servers and command-line entry points are left out.
