/** The simulator's command handling, `arduino-simulator/main.rs`: argument
    parsing, `handle_command`, the error frame and the choice of error code
    for each failure. The simulator's own `Manifest`/`Function`/`Parameter`
    records have the same fields as the host's and are modelled by the
    same datatypes. */
module Simulator {
  import opened Base
  import opened Crc
  import opened LittleEndian
  import opened SlipEncoding
  import opened SlipDecoding
  import opened SimulatorProtocol
  import opened AdapterProtocol
  import opened Manifests

  /** The failures of `parse_arguments`. `SlicePastEnd` is not an `Err` in
      the source: `args[offset..]` with `offset > args.len()` panics. */
  datatype ParseError =
    | NotEnoughForI16Param
    | NotEnoughForI32Param
    | UnknownParamType(paramType: string)
    | SlicePastEnd(offset: nat)

  /** The arms of `match param.param_type.as_str()`. */
  datatype ParamKind = KindI16 | KindI32 | KindCStr | KindOther

  function KindOf(t: string): (k: ParamKind)
    ensures k == KindI16 <==> t == "i16"
    ensures k == KindI32 <==> t == "i32"
    ensures k == KindCStr <==> t == "CStr"
  {
    if t == "i16" then KindI16 else if t == "i32" then KindI32 else if t == "CStr" then KindCStr else KindOther
  }

  /** The parameter kind a value is parsed as. */
  function Kind(v: ArgValue): ParamKind
  {
    match v
    case ArgI16(_) => KindI16
    case ArgI32(_) => KindI32
    case ArgStr(_) => KindCStr
  }

  function Prepend(v: ArgValue, r: Result<seq<ArgValue>, ParseError>): Result<seq<ArgValue>, ParseError>
  {
    if r.Ok? then Ok([v] + r.value) else r
  }

  /** `s` is the C string at `offset` in `args`: its bytes run, NUL-free, to
      the first NUL or the end of `args`, and `next` is one past them. */
  predicate CStringAt(args: seq<byte>, offset: nat, s: seq<byte>, next: nat)
  {
    && offset + |s| <= |args| && args[offset..offset + |s|] == s && NoNul(s)
    && (offset + |s| == |args| || args[offset + |s|] == 0)
    && next == offset + |s| + 1
  }

  /** One iteration of the `parse_arguments` loop: the value parsed as type
      `t` at `offset`, and the offset of the next parameter. */
  function ParseOne(t: string, args: seq<byte>, offset: nat): (r: Result<(ArgValue, nat), ParseError>)
    ensures r.Ok? ==> Kind(r.value.0) == KindOf(t) && offset < r.value.1
    ensures r.Err? ==> (r.error == UnknownParamType(t) <==> KindOf(t) == KindOther)
    // Too few bytes for a number is an error, and only that.
    ensures KindOf(t) == KindI16 ==>
      (r.Err? <==> offset + 2 > |args|) && (r.Err? ==> r.error == NotEnoughForI16Param)
    ensures KindOf(t) == KindI16 && r.Ok? ==>
      r.value.1 == offset + 2 && I16Bytes(r.value.0.i) == args[offset..offset + 2]
    ensures KindOf(t) == KindI32 ==>
      (r.Err? <==> offset + 4 > |args|) && (r.Err? ==> r.error == NotEnoughForI32Param)
    ensures KindOf(t) == KindI32 && r.Ok? ==>
      r.value.1 == offset + 4 && I32Bytes(r.value.0.w) == args[offset..offset + 4]
    // A string fails only where `args[offset..]` panics; otherwise it runs to
    // the first NUL or the end, and the next offset is one past it.
    ensures KindOf(t) == KindCStr ==>
      (r.Err? <==> offset > |args|) && (r.Err? ==> r.error == SlicePastEnd(offset))
    ensures KindOf(t) == KindCStr && r.Ok? ==> r.value.0.ArgStr? && CStringAt(args, offset, r.value.0.s, r.value.1)
  {
    match KindOf(t)
    case KindI16 =>
      if offset + 2 > |args| then Err(NotEnoughForI16Param)
      else
        I16BytesRoundTrip(args[offset], args[offset + 1]);
        Ok((ArgI16(I16From(args[offset], args[offset + 1])), offset + 2))
    case KindI32 =>
      if offset + 4 > |args| then Err(NotEnoughForI32Param)
      else
        I32BytesRoundTrip(args[offset], args[offset + 1], args[offset + 2], args[offset + 3]);
        Ok((ArgI32(I32From(args[offset], args[offset + 1], args[offset + 2], args[offset + 3])), offset + 4))
    case KindCStr =>
      if offset > |args| then Err(SlicePastEnd(offset))
      else
        var n := ZeroIndex(args[offset..]);
        var end := offset + n;
        assert args[offset..end] == args[offset..][..n];
        assert end < |args| ==> args[end] == args[offset..][n];
        Ok((ArgStr(args[offset..end]), end + 1))
    case KindOther => Err(UnknownParamType(t))
  }

  /** `parse_arguments` from parameter `params[0]` on, at byte `offset`:
      one value per parameter, of the parameter's type, in order. */
  function ParseFrom(params: seq<Parameter>, args: seq<byte>, offset: nat): (r: Result<seq<ArgValue>, ParseError>)
    ensures r.Ok? ==> |r.value| == |params|
    decreases |params|
  {
    if params == [] then Ok([])
    else
      match ParseOne(params[0].paramType, args, offset)
      case Err(e) => Err(e)
      case Ok((v, next)) => Prepend(v, ParseFrom(params[1..], args, next))
  }

  /** Each parsed value has the kind its parameter declares. */
  lemma {:induction false} ParsedKinds(params: seq<Parameter>, args: seq<byte>, offset: nat)
    requires ParseFrom(params, args, offset).Ok?
    ensures Describes(params, ParseFrom(params, args, offset).value)
    decreases |params|
  {
    if params != [] {
      var next := ParseOne(params[0].paramType, args, offset).value.1;
      var r := ParseFrom(params, args, offset).value;
      ParsedKinds(params[1..], args, next);
      assert r[1..] == ParseFrom(params[1..], args, next).value;
    }
  }

  function Prepended(xs: seq<ArgValue>, r: Result<seq<ArgValue>, ParseError>): Result<seq<ArgValue>, ParseError>
  {
    if r.Ok? then Ok(xs + r.value) else r
  }

  lemma PrependedStep(xs: seq<ArgValue>, v: ArgValue, r: Result<seq<ArgValue>, ParseError>)
    ensures Prepended(xs, Prepend(v, r)) == Prepended(xs + [v], r)
  {
    if r.Ok? {
      assert xs + ([v] + r.value) == xs + [v] + r.value;
    }
  }

  /** One loop iteration that parses a value moves it from the remaining
      parse to the collected prefix. */
  lemma ParseStep(params: seq<Parameter>, i: nat, args: seq<byte>, offset: nat, result: seq<ArgValue>, v: ArgValue, next: nat)
    requires i < |params| && ParseOne(params[i].paramType, args, offset) == Ok((v, next))
    ensures Prepended(result, ParseFrom(params[i..], args, offset)) == Prepended(result + [v], ParseFrom(params[i + 1..], args, next))
  {
    assert params[i..][0] == params[i] && params[i..][1..] == params[i + 1..];
    PrependedStep(result, v, ParseFrom(params[i + 1..], args, next));
  }

  /** An iteration that fails ends the whole parse with its error. */
  lemma ParseStops(params: seq<Parameter>, i: nat, args: seq<byte>, offset: nat, result: seq<ArgValue>, e: ParseError)
    requires i < |params| && ParseOne(params[i].paramType, args, offset) == Err(e)
    ensures Prepended(result, ParseFrom(params[i..], args, offset)) == Err(e)
  {
    assert params[i..][0] == params[i];
  }

  /** One arm of `parse_arguments`' match: the value of one parameter and
      the offset after it. */
  method ParseParameter(paramType: string, args: seq<byte>, offset: nat) returns (r: Result<(ArgValue, nat), ParseError>)
    ensures r == ParseOne(paramType, args, offset)
  {
    match KindOf(paramType) {
      case KindI16 =>
        if offset + 2 > |args| {
          return Err(NotEnoughForI16Param);
        }
        var value := I16From(args[offset], args[offset + 1]);
        r := Ok((ArgI16(value), offset + 2));
      case KindI32 =>
        if offset + 4 > |args| {
          return Err(NotEnoughForI32Param);
        }
        var value := I32From(args[offset], args[offset + 1], args[offset + 2], args[offset + 3]);
        r := Ok((ArgI32(value), offset + 4));
      case KindCStr =>
        if offset > |args| {
          // The source slices `args[offset..]` here and panics.
          return Err(SlicePastEnd(offset));
        }
        var end := offset + ZeroIndex(args[offset..]);
        r := Ok((ArgStr(args[offset..end]), end + 1));
      case KindOther =>
        r := Err(UnknownParamType(paramType));
    }
  }

  /** `parse_arguments`: the loop over the parameters with a running offset. */
  method ParseArguments(params: seq<Parameter>, args: seq<byte>) returns (r: Result<seq<ArgValue>, ParseError>)
    ensures r == ParseFrom(params, args, 0)
  {
    var result: seq<ArgValue> := [];
    var offset: nat := 0;
    var i := 0;
    assert params[i..] == params;
    assert Prepended(result, ParseFrom(params, args, 0)) == ParseFrom(params, args, 0) by {
      if ParseFrom(params, args, 0).Ok? { assert [] + ParseFrom(params, args, 0).value == ParseFrom(params, args, 0).value; }
    }
    while i < |params|
      invariant 0 <= i <= |params|
      invariant ParseFrom(params, args, 0) == Prepended(result, ParseFrom(params[i..], args, offset))
    {
      var step := ParseParameter(params[i].paramType, args, offset);
      match step {
        case Err(e) =>
          ParseStops(params, i, args, offset, result, e);
          return Err(e);
        case Ok((value, next)) =>
          ParseStep(params, i, args, offset, result, value, next);
          result := result + [value];
          offset := next;
      }
      i := i + 1;
    }
    assert params[i..] == [];
    assert result + [] == result;
    return Ok(result);
  }

  /** `params` declares exactly the kinds of `values`, in order. */
  predicate Describes(params: seq<Parameter>, values: seq<ArgValue>)
    decreases |params|
  {
    if params == [] then values == []
    else values != [] && KindOf(params[0].paramType) == Kind(values[0]) && Describes(params[1..], values[1..])
  }

  /** `Describes` read position by position. */
  lemma {:induction false} DescribesPointwise(params: seq<Parameter>, values: seq<ArgValue>)
    ensures Describes(params, values) <==>
      |params| == |values| && forall i :: 0 <= i < |params| ==> KindOf(params[i].paramType) == Kind(values[i])
    decreases |params|
  {
    if params != [] && values != [] {
      DescribesPointwise(params[1..], values[1..]);
    }
    if params != [] && values != [] && |params| == |values| {
      assert (forall i :: 0 <= i < |params| ==> KindOf(params[i].paramType) == Kind(values[i])) <==>
        KindOf(params[0].paramType) == Kind(values[0])
        && forall i :: 0 <= i < |params| - 1 ==> KindOf(params[1..][i].paramType) == Kind(values[1..][i]);
    }
  }

  /** No string among `values` holds a NUL. */
  predicate AllReadable(values: seq<ArgValue>)
    decreases |values|
  {
    values != [] ==> Readable(values[0]) && AllReadable(values[1..])
  }

  /** A parameter takes exactly the bytes the host wrote for it. */
  lemma ParseOneInvertsEncode(t: string, v: ArgValue, prefix: seq<byte>, tail: seq<byte>)
    requires Readable(v) && KindOf(t) == Kind(v)
    ensures ParseOne(t, prefix + (EncodeArg(v) + tail), |prefix|) == Ok((v, |prefix| + |EncodeArg(v)|))
  {
    match v
    case ArgI16(x) => ParseI16Inverts(t, x, prefix, tail);
    case ArgI32(x) => ParseI32Inverts(t, x, prefix, tail);
    case ArgStr(s) => ParseStrInverts(t, s, prefix, tail);
  }

  lemma ParseI16Inverts(t: string, x: i16, prefix: seq<byte>, tail: seq<byte>)
    requires KindOf(t) == KindI16
    ensures var args := prefix + (I16Bytes(x) + tail);
      ParseOne(t, args, |prefix|) == Ok((ArgI16(x), |prefix| + 2))
  {
    var args := prefix + (I16Bytes(x) + tail);
    I16RoundTrip(x);
    assert args[|prefix|] == I16Bytes(x)[0] && args[|prefix| + 1] == I16Bytes(x)[1];
  }

  lemma ParseI32Inverts(t: string, x: i32, prefix: seq<byte>, tail: seq<byte>)
    requires KindOf(t) == KindI32
    ensures var args := prefix + (I32Bytes(x) + tail);
      ParseOne(t, args, |prefix|) == Ok((ArgI32(x), |prefix| + 4))
  {
    var args := prefix + (I32Bytes(x) + tail);
    I32RoundTrip(x);
    assert args[|prefix|] == I32Bytes(x)[0] && args[|prefix| + 1] == I32Bytes(x)[1];
    assert args[|prefix| + 2] == I32Bytes(x)[2] && args[|prefix| + 3] == I32Bytes(x)[3];
  }

  lemma ParseStrInverts(t: string, s: seq<byte>, prefix: seq<byte>, tail: seq<byte>)
    requires KindOf(t) == KindCStr && NoNul(s)
    ensures var args := prefix + ((s + [0]) + tail);
      ParseOne(t, args, |prefix|) == Ok((ArgStr(s), |prefix| + |s| + 1))
  {
    var args := prefix + ((s + [0]) + tail);
    assert args[|prefix|..] == s + [0] + tail;
    ZeroIndexOfTerminated(s, tail);
    assert args[|prefix|..|prefix| + |s|] == s;
  }

  /** Arguments the host encodes in declaration order are parsed back
      unchanged, as long as no string holds a NUL. */
  lemma ParseInvertsEncode(params: seq<Parameter>, values: seq<ArgValue>)
    requires Describes(params, values) && AllReadable(values)
    ensures ParseFrom(params, EncodeArgs(values), 0) == Ok(values)
  {
    assert [] + EncodeArgs(values) == EncodeArgs(values);
    ParseInvertsEncodeAt(params, values, [], EncodeArgs(values));
  }

  /** The same from any byte offset: `args` holds `prefix`, then the
      encoded values. */
  lemma {:induction false} ParseInvertsEncodeAt(params: seq<Parameter>, values: seq<ArgValue>, prefix: seq<byte>, args: seq<byte>)
    requires Describes(params, values) && AllReadable(values)
    requires args == prefix + EncodeArgs(values)
    ensures ParseFrom(params, args, |prefix|) == Ok(values)
    decreases |values|
  {
    if values != [] {
      var v, rest := values[0], values[1..];
      var next := |prefix| + |EncodeArg(v)|;
      assert ParseOne(params[0].paramType, args, |prefix|) == Ok((v, next)) by {
        EncodedAfterFirst(values, prefix);
        ParseHeadAt(params[0].paramType, v, prefix, EncodeArgs(rest), args, next);
      }
      assert ParseFrom(params[1..], args, next) == Ok(rest) by {
        assert Describes(params[1..], rest) && AllReadable(rest);
        EncodedAfterFirst(values, prefix);
        ParseInvertsEncodeAt(params[1..], rest, prefix + EncodeArg(v), args);
      }
      ParseCons(params, args, |prefix|, v, next, rest);
      assert [v] + rest == values;
    } else {
      assert params == [];
    }
  }

  /** Once the first parameter gives `v` and the later ones give `rest`,
      the whole list gives `v` in front of `rest`. */
  lemma ParseCons(params: seq<Parameter>, args: seq<byte>, offset: nat, v: ArgValue, next: nat, rest: seq<ArgValue>)
    requires params != [] && ParseOne(params[0].paramType, args, offset) == Ok((v, next))
    requires ParseFrom(params[1..], args, next) == Ok(rest)
    ensures ParseFrom(params, args, offset) == Ok([v] + rest)
  {
    ParseFromFirst(params, args, offset, v, next);
  }

  /** The first parameter of an encoded run takes its own value. */
  lemma ParseHeadAt(t: string, v: ArgValue, prefix: seq<byte>, tail: seq<byte>, args: seq<byte>, next: nat)
    requires args == (prefix + EncodeArg(v)) + tail && next == |prefix| + |EncodeArg(v)|
    requires KindOf(t) == Kind(v) && Readable(v)
    ensures ParseOne(t, args, |prefix|) == Ok((v, next))
  {
    Regroup(prefix, EncodeArg(v), tail);
    ParseOneInvertsEncode(t, v, prefix, tail);
  }

  /** Concatenation regrouped. */
  lemma Regroup(a: seq<byte>, b: seq<byte>, c: seq<byte>)
    ensures (a + b) + c == a + (b + c)
  {
  }

  /** `ParseFrom` once the first parameter has been parsed. */
  lemma ParseFromFirst(params: seq<Parameter>, args: seq<byte>, offset: nat, v: ArgValue, next: nat)
    requires params != [] && ParseOne(params[0].paramType, args, offset) == Ok((v, next))
    ensures ParseFrom(params, args, offset) == Prepend(v, ParseFrom(params[1..], args, next))
  {
  }

  /** The encoding of `values` split after its first value, grouped both ways. */
  lemma EncodedAfterFirst(values: seq<ArgValue>, prefix: seq<byte>)
    requires values != []
    ensures var a, b := EncodeArg(values[0]), EncodeArgs(values[1..]);
      prefix + EncodeArgs(values) == prefix + (a + b) == (prefix + a) + b
  {
  }

  /** After an unterminated string, a following string parameter slices
      past the end of the arguments: the source panics there. */
  lemma UnterminatedStringThenString(a: string, b: string)
    ensures ParseFrom([Parameter(a, "CStr"), Parameter(b, "CStr")], [0x41], 0) == Err(SlicePastEnd(2))
  {
    var params := [Parameter(a, "CStr"), Parameter(b, "CStr")];
    assert ZeroIndex([0x41]) == 1 by {
      assert [0x41 as byte][1..] == [];
    }
    assert params[1..] == [Parameter(b, "CStr")];
  }

  /** The first manifest function with the tag (`iter().find`). */
  function FindFunction(functions: seq<Function>, tag: byte): (r: Option<Function>)
    ensures r.None? <==> forall i :: 0 <= i < |functions| ==> functions[i].tag != tag
    ensures r.Some? ==>
      exists i :: (0 <= i < |functions| && functions[i] == r.value && r.value.tag == tag
                   && forall j :: 0 <= j < i ==> functions[j].tag != tag)
  {
    if functions == [] then None
    else if functions[0].tag == tag then Some(functions[0])
    else
      var r := FindFunction(functions[1..], tag);
      if r.Some? then
        var i :| 0 <= i < |functions[1..]| && functions[1..][i] == r.value && r.value.tag == tag
          && forall j :: 0 <= j < i ==> functions[1..][j].tag != tag;
        assert functions[i + 1] == r.value;
        assert forall j :: 0 <= j < i + 1 ==> functions[j].tag != tag by {
          forall j | 0 <= j < i + 1 ensures functions[j].tag != tag {
            if j > 0 { assert functions[j] == functions[1..][j - 1]; }
          }
        }
        r
      else
        assert forall i :: 0 <= i < |functions| ==> functions[i].tag != tag by {
          forall i | 0 <= i < |functions| ensures functions[i].tag != tag {
            if i > 0 { assert functions[i] == functions[1..][i - 1]; }
          }
        }
        r
  }

  /** The canned answer for a declared return type. */
  function StubResponse(returnType: Option<string>): (r: ResponseData)
    ensures returnType.None? <==> r == Void
    ensures r.I16? ==> returnType == Some("i16") && r.i == 0
    ensures r.I32? ==> returnType == Some("i32") && r.w == 0
    ensures r.CStr? ==> r.s == [] && returnType.Some? && returnType.value != "i16" && returnType.value != "i32"
  {
    match returnType
    case None => Void
    case Some(t) =>
      if t == "i16" then I16(0)
      else if t == "i32" then I32(0)
      else CStr([])
  }

  /** The parts of `Simulator` that `handle_command` reads. */
  datatype SimulatorConfig = SimulatorConfig(deviceId: seq<byte>, manifest: Manifest)

  datatype HandleError =
    | BadCommand(cause: CommandError)
    | UnknownTag(tag: byte)
    | BadArguments(parse: ParseError)

  /** `handle_command`: the response frame (before SLIP) or the error. */
  function HandleCommand(sim: SimulatorConfig, frame: seq<byte>): (r: Result<seq<byte>, HandleError>)
    ensures DecodeCommand(frame).Err? ==> r == Err(BadCommand(DecodeCommand(frame).error))
    // Tag 0 is the device ID, whatever the manifest says.
    ensures DecodeCommand(frame).Ok? && DecodeCommand(frame).value.0 == 0 ==>
      r == Ok(EncodeResponse(CStr(sim.deviceId)))
    ensures r.Err? && r.error.UnknownTag? ==>
      r.error.tag != 0 && forall f :: f in sim.manifest.functions ==> f.tag != r.error.tag
    // Conversely, a non-zero tag no function has is an unknown tag.
    ensures (DecodeCommand(frame).Ok? && DecodeCommand(frame).value.0 != 0
             && forall f :: f in sim.manifest.functions ==> f.tag != DecodeCommand(frame).value.0) ==>
      r == Err(UnknownTag(DecodeCommand(frame).value.0))
    // A declared function answers its stub, unless its arguments fail to parse.
    ensures (DecodeCommand(frame).Ok? && DecodeCommand(frame).value.0 != 0
             && FindFunction(sim.manifest.functions, DecodeCommand(frame).value.0).Some?) ==>
      var f := FindFunction(sim.manifest.functions, DecodeCommand(frame).value.0).value;
      var parsed := ParseFrom(f.params, DecodeCommand(frame).value.1, 0);
      && (parsed.Err? ==> r == Err(BadArguments(parsed.error)))
      && (parsed.Ok? ==> r == Ok(EncodeResponse(StubResponse(f.returnType))))
  {
    match DecodeCommand(frame)
    case Err(e) => Err(BadCommand(e))
    case Ok((tag, args)) =>
      if tag == 0 then Ok(EncodeResponse(CStr(sim.deviceId)))
      else
        match FindFunction(sim.manifest.functions, tag)
        case None => Err(UnknownTag(tag))
        case Some(f) =>
          match ParseFrom(f.params, args, 0)
          case Err(e) => Err(BadArguments(e))
          case Ok(_) => Ok(EncodeResponse(StubResponse(f.returnType)))
  }

  /** Decimal digits of `n`, as `{}` renders an integer. */
  function Decimal(n: nat): (r: string)
    ensures |r| >= 1
    ensures forall i :: 0 <= i < |r| ==> '0' <= r[i] <= '9'
    decreases n
  {
    var digit := ['0' + (n % 10) as char];
    if n < 10 then digit else Decimal(n / 10) + digit
  }

  const UNKNOWN_TAG: string := "Unknown function tag"

  /** The error's `to_string()`; a panic has none. */
  function HandleErrorMessage(e: HandleError): Option<string>
  {
    match e
    case BadCommand(c) => Some(CommandErrorMessage(c))
    case UnknownTag(t) => Some(UNKNOWN_TAG + ": " + Decimal(t as nat))
    case BadArguments(NotEnoughForI16Param) => Some("Not enough data for i16 parameter")
    case BadArguments(NotEnoughForI32Param) => Some("Not enough data for i32 parameter")
    case BadArguments(UnknownParamType(t)) => Some(UNKNOWN_PARAM_TYPE + t)
    case BadArguments(SlicePastEnd(_)) => None
  }

  /** The error code of the run loop: chosen by searching the message for
      "Unknown function tag". */
  function ErrorCode(message: string): byte
  {
    if Contains(message, UNKNOWN_TAG) then 0x02 else 0x01
  }

  /** `send_error_response`'s payload, before SLIP framing. */
  function ErrorFrame(code: byte): (frame: seq<byte>)
    // The error marker, the code, and the CRC-8 of the two.
    ensures |frame| == 3 && frame[..2] == [0xFF, code] && frame[2] == Crc8(frame[..2])
  {
    var frame := [0xFF, code];
    frame + [Crc8(frame)]
  }

  /** What the run loop does with one decoder event. */
  datatype Reaction = Silent | Send(wire: seq<byte>) | Crash

  function React(sim: SimulatorConfig, event: Event): (r: Reaction)
    // Only a byte that completes nothing and raises nothing goes unanswered.
    ensures r.Silent? <==> event == Ok(None)
    // The one panic is a string argument sliced past the end.
    ensures r.Crash? <==>
      (event.Ok? && event.value.Some? && HandleCommand(sim, event.value.value).Err?
       && HandleCommand(sim, event.value.value).error.BadArguments?
       && HandleCommand(sim, event.value.value).error.parse.SlicePastEnd?)
    // A handled frame is answered with its response, framed.
    ensures (event.Ok? && event.value.Some? && HandleCommand(sim, event.value.value).Ok?) ==>
      r == Send(Framed(HandleCommand(sim, event.value.value).value))
    // A decoding error is answered with code 0x01, an unknown tag with 0x02.
    ensures event.Err? ==> r == Send(Framed(ErrorFrame(0x01)))
    ensures (event.Ok? && event.value.Some? && HandleCommand(sim, event.value.value).Err?
             && HandleCommand(sim, event.value.value).error.UnknownTag?) ==>
      r == Send(Framed(ErrorFrame(0x02)))
  {
    match event
    case Ok(None) => Silent
    case Ok(Some(frame)) =>
      (match HandleCommand(sim, frame)
       case Ok(response) => Send(Framed(response))
       case Err(e) =>
         assert e.UnknownTag? ==> ErrorCode(HandleErrorMessage(e).value) == 0x02 by {
           if e.UnknownTag? { UnknownTagCode(e.tag); }
         }
         match HandleErrorMessage(e)
         case None => Crash
         case Some(message) => Send(Framed(ErrorFrame(ErrorCode(message)))))
    case Err(_) => Send(Framed(ErrorFrame(0x01)))
  }

  /** Everything written in reply to a run of events, and whether the
      simulator panicked (after which nothing more is written). */
  function Respond(sim: SimulatorConfig, events: seq<Event>): (r: (seq<byte>, bool))
    // The simulator panics exactly when one of the events crashes it.
    ensures r.1 <==> exists i :: 0 <= i < |events| && React(sim, events[i]).Crash?
    // Events that complete nothing write nothing.
    ensures (forall i :: 0 <= i < |events| ==> React(sim, events[i]).Silent?) ==> r.0 == []
    decreases |events|
  {
    if events == [] then ([], false)
    else
      match React(sim, events[0])
      case Silent => Respond(sim, events[1..])
      case Send(wire) => var rest := Respond(sim, events[1..]); (wire + rest.0, rest.1)
      case Crash => ([], true)
  }

  lemma {:induction false} RespondQuietThen(sim: SimulatorConfig, n: nat, e: Event)
    ensures Respond(sim, Quiet(n) + [e]) == Respond(sim, [e])
    decreases n
  {
    if n > 0 {
      assert (Quiet(n) + [e])[0] == Ok(None);
      assert (Quiet(n) + [e])[1..] == Quiet(n - 1) + [e];
      RespondQuietThen(sim, n - 1, e);
    } else {
      assert Quiet(n) + [e] == [e];
    }
  }

  /** A message without an upper-case U cannot contain the phrase. */
  lemma NoPhraseWithoutU(s: string)
    requires 'U' !in s
    ensures !Contains(s, UNKNOWN_TAG)
  {
    forall i | 0 <= i <= |s| ensures !MatchesAt(s, UNKNOWN_TAG, i) {
      if i + |UNKNOWN_TAG| <= |s| {
        assert s[i..i + |UNKNOWN_TAG|][0] == s[i];
      }
    }
  }

  const UNKNOWN_PARAM_TYPE: string := "Unknown parameter type: "

  /** A message that starts with "Unknown parameter type: " contains the
      phrase exactly when the type name does. */
  lemma PhraseInParamTypeMessage(t: string)
    ensures Contains(UNKNOWN_PARAM_TYPE + t, UNKNOWN_TAG) <==> Contains(t, UNKNOWN_TAG)
  {
    var s, k := UNKNOWN_PARAM_TYPE + t, |UNKNOWN_PARAM_TYPE|;
    if Contains(t, UNKNOWN_TAG) {
      var i :| 0 <= i <= |t| && MatchesAt(t, UNKNOWN_TAG, i);
      PhraseCarriedOver(t, i);
    }
    if Contains(s, UNKNOWN_TAG) {
      var i :| 0 <= i <= |s| && MatchesAt(s, UNKNOWN_TAG, i);
      if i < k {
        NoPhraseInPrefix(t, i);
      } else {
        PhraseFromTypeName(t, i);
      }
    }
  }

  /** The phrase in the type name shows up in the message, shifted. */
  lemma PhraseCarriedOver(t: string, i: int)
    requires MatchesAt(t, UNKNOWN_TAG, i)
    ensures MatchesAt(UNKNOWN_PARAM_TYPE + t, UNKNOWN_TAG, |UNKNOWN_PARAM_TYPE| + i)
  {
    var s, k, n := UNKNOWN_PARAM_TYPE + t, |UNKNOWN_PARAM_TYPE|, |UNKNOWN_TAG|;
    assert s[k + i..k + i + n] == t[i..i + n];
  }

  /** No match of the phrase starts inside "Unknown parameter type: ". */
  lemma NoPhraseInPrefix(t: string, i: int)
    requires 0 <= i < |UNKNOWN_PARAM_TYPE|
    ensures !MatchesAt(UNKNOWN_PARAM_TYPE + t, UNKNOWN_TAG, i)
  {
    var s, n := UNKNOWN_PARAM_TYPE + t, |UNKNOWN_TAG|;
    if i + n <= |s| {
      if i == 0 {
        assert s[i..i + n][8] == s[8] == 'p';
      } else {
        assert s[i..i + n][0] == s[i] == UNKNOWN_PARAM_TYPE[i];
      }
    }
  }

  /** A match after the prefix is a match in the type name. */
  lemma PhraseFromTypeName(t: string, i: int)
    requires |UNKNOWN_PARAM_TYPE| <= i && MatchesAt(UNKNOWN_PARAM_TYPE + t, UNKNOWN_TAG, i)
    ensures MatchesAt(t, UNKNOWN_TAG, i - |UNKNOWN_PARAM_TYPE|)
  {
    var s, k, n := UNKNOWN_PARAM_TYPE + t, |UNKNOWN_PARAM_TYPE|, |UNKNOWN_TAG|;
    assert t[i - k..i - k + n] == s[i..i + n];
  }

  /** The error codes the simulator sends: 0x02 for an unknown tag, 0x01
      for a malformed or corrupt frame and for short argument data; an
      unknown parameter type gets 0x02 only when its name itself contains
      "Unknown function tag". */
  lemma UnknownTagCode(tag: byte)
    ensures ErrorCode(HandleErrorMessage(UnknownTag(tag)).value) == 0x02
  {
    var m := HandleErrorMessage(UnknownTag(tag)).value;
    assert m[0..|UNKNOWN_TAG|] == UNKNOWN_TAG;
    assert MatchesAt(m, UNKNOWN_TAG, 0);
  }

  lemma BadCommandCode(c: CommandError)
    ensures ErrorCode(HandleErrorMessage(BadCommand(c)).value) == 0x01
  {
    match c
    case EmptyFrame => NoPhraseWithoutU("Empty command frame");
    case FrameTooShort =>
      var a, b := "Command frame too short ", "(need at least tag + CRC)";
      assert 'U' !in a && 'U' !in b;
      NoPhraseWithoutU(a + b);
    case CrcMismatch => NoPhraseWithoutU("CRC mismatch");
  }

  lemma ShortArgumentsCode()
    ensures ErrorCode(HandleErrorMessage(BadArguments(NotEnoughForI16Param)).value) == 0x01
    ensures ErrorCode(HandleErrorMessage(BadArguments(NotEnoughForI32Param)).value) == 0x01
  {
    NoPhraseWithoutU("Not enough data for i16 parameter");
    NoPhraseWithoutU("Not enough data for i32 parameter");
  }

  lemma UnknownParamTypeCode(t: string)
    ensures ErrorCode(HandleErrorMessage(BadArguments(UnknownParamType(t))).value)
         == if Contains(t, UNKNOWN_TAG) then 0x02 else 0x01
  {
    PhraseInParamTypeMessage(t);
  }

  /** A parameter type named after the phrase turns a parse failure into
      the unknown-tag code. */
  lemma ParamTypeNamedLikeTheTagError()
    ensures ErrorCode(HandleErrorMessage(BadArguments(UnknownParamType(UNKNOWN_TAG))).value) == 0x02
  {
    UnknownParamTypeCode(UNKNOWN_TAG);
    assert UNKNOWN_TAG[0..|UNKNOWN_TAG|] == UNKNOWN_TAG;
    assert MatchesAt(UNKNOWN_TAG, UNKNOWN_TAG, 0);
  }

  /** The simulator's error frame carries its code, sealed with a CRC. */
  lemma ErrorFrameCarriesCode(code: byte)
    ensures |ErrorFrame(code)| == 3 && ErrorFrame(code)[..2] == [0xFF, code]
    ensures ErrorFrame(code)[2] == Crc8(ErrorFrame(code)[..2])
    ensures ErrorFrame(0x01) == [0xFF, 0x01, 0xD0] && ErrorFrame(0x02) == [0xFF, 0x02, 0xD9]
  {
    Crc8OfErrorPayloads();
  }
}
