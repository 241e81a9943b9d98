/** The host's device manifests, `src/manifest.rs`: the manifest records,
    the check of a tool call's JSON arguments against a function's
    parameters, the JSON schema offered for each function, and the
    per-device manifest cache. */
module Manifests {
  import opened Base

  datatype Parameter = Parameter(name: string, paramType: string)

  datatype Function = Function(
    tag: byte,
    name: string,
    desc: string,
    returnType: Option<string>,
    params: seq<Parameter>)

  datatype Manifest = Manifest(name: string, description: string, version: string, functions: seq<Function>)

  /** A JSON number as `serde_json` holds it: an integer (in the i64 or u64
      range) or a float. */
  datatype Number = Int(i: int) | Float

  /** A JSON value. Strings hold their UTF-8 bytes; an object lists its
      entries in the map's iteration order. */
  datatype Json =
    | Null
    | Bool(b: bool)
    | Num(n: Number)
    | Str(s: seq<byte>)
    | Array(items: seq<Json>)
    | Object(fields: seq<(string, Json)>)

  /** `Number::as_i64` */
  function AsI64(n: Number): (r: Option<int>)
    ensures r.Some? ==> n.Int? && r.value == n.i && -0x8000_0000_0000_0000 <= r.value < 0x8000_0000_0000_0000
    ensures n.Int? && -0x8000_0000_0000_0000 <= n.i < 0x8000_0000_0000_0000 ==> r.Some?
  {
    if n.Int? && -0x8000_0000_0000_0000 <= n.i < 0x8000_0000_0000_0000 then Some(n.i) else None
  }

  /** The value stored under `key`, if any. */
  function Lookup(fields: seq<(string, Json)>, key: string): (r: Option<Json>)
    ensures r.Some? <==> key in KeySet(fields)
    ensures r.Some? ==> (key, r.value) in fields
  {
    if fields == [] then None
    else if fields[0].0 == key then Some(fields[0].1)
    else Lookup(fields[1..], key)
  }

  function KeySet(fields: seq<(string, Json)>): set<string>
  {
    set i | 0 <= i < |fields| :: fields[i].0
  }

  function Keys(fields: seq<(string, Json)>): seq<string>
  {
    seq(|fields|, i requires 0 <= i < |fields| => fields[i].0)
  }

  function Names(params: seq<Parameter>): set<string>
  {
    set i | 0 <= i < |params| :: params[i].name
  }

  /** The `Err` cases of `validate_function_arguments`, with the names they
      mention (the rest of each message is prose). */
  datatype ValidationError =
    | NotAnObject
    | TakesNoParameters(provided: seq<string>)
    | RequiresParameters(count: nat)
    | InvalidParameter(key: string)
    | MissingParameter(param: string)
    | NotANumber(param: string)
    | OutOfRangeForI16(param: string, value: int)
    | NotAString(param: string)
    | NotABoolean(param: string)

  /** The errors raised while checking one parameter. */
  predicate AboutParameter(e: ValidationError)
  {
    e.MissingParameter? || e.NotANumber? || e.OutOfRangeForI16? || e.NotAString? || e.NotABoolean?
  }

  /** The first key, in iteration order, that names no parameter. */
  function FirstUnexpected(fields: seq<(string, Json)>, params: seq<Parameter>): (r: Option<string>)
    ensures r.None? <==> KeySet(fields) <= Names(params)
    ensures r.Some? ==> r.value !in Names(params)
    ensures r.Some? ==>
      exists i :: (0 <= i < |fields| && fields[i].0 == r.value
                   && forall j :: 0 <= j < i ==> fields[j].0 in Names(params))
  {
    if fields == [] then None
    else if fields[0].0 !in Names(params) then Some(fields[0].0)
    else
      var r := FirstUnexpected(fields[1..], params);
      assert KeySet(fields) == {fields[0].0} + KeySet(fields[1..]) by {
        forall k | k in KeySet(fields) ensures k in {fields[0].0} + KeySet(fields[1..]) {
          var i :| 0 <= i < |fields| && fields[i].0 == k;
          if i > 0 { assert fields[1..][i - 1].0 == k; }
        }
        forall k | k in KeySet(fields[1..]) ensures k in KeySet(fields) {
          var i :| 0 <= i < |fields[1..]| && fields[1..][i].0 == k;
          assert fields[i + 1].0 == k;
        }
      }
      if r.Some? then
        var i :| 0 <= i < |fields[1..]| && fields[1..][i].0 == r.value
          && forall j :: 0 <= j < i ==> fields[1..][j].0 in Names(params);
        assert fields[i + 1].0 == r.value;
        assert forall j :: 0 <= j < i + 1 ==> fields[j].0 in Names(params) by {
          forall j | 0 <= j < i + 1 ensures fields[j].0 in Names(params) {
            if j > 0 { assert fields[j].0 == fields[1..][j - 1].0; }
          }
        }
        r
      else r
  }

  /** The type check of one argument value. */
  function CheckType(p: Parameter, v: Json): (r: Result<(), ValidationError>)
    ensures r.Err? ==> AboutParameter(r.error) && r.error.param == p.name
    // Integers must be JSON numbers; only i16 has a range, and any i16 value passes.
    ensures (p.paramType == "i16" || p.paramType == "i32") && r.Ok? ==> v.Num?
    ensures p.paramType == "i32" ==> (r.Ok? <==> v.Num?)
    ensures p.paramType == "i16" && v.Num? && v.n.Int? && -0x8000 <= v.n.i < 0x8000 ==> r.Ok?
    ensures p.paramType == "i16" && v.Num? && v.n.Int? && 0x8000 <= v.n.i < 0x8000_0000_0000_0000 ==>
      r == Err(OutOfRangeForI16(p.name, v.n.i))
    ensures p.paramType == "i16" && v.Num? && v.n.Int? && -0x8000_0000_0000_0000 <= v.n.i < -0x8000 ==>
      r == Err(OutOfRangeForI16(p.name, v.n.i))
    ensures p.paramType == "CStr" ==> (r.Ok? <==> v.Str?)
    ensures p.paramType == "bool" ==> (r.Ok? <==> v.Bool?)
    // A type the validator does not know accepts any value.
    ensures p.paramType !in {"i16", "i32", "CStr", "bool"} ==> r.Ok?
  {
    if p.paramType == "i16" || p.paramType == "i32" then
      if !v.Num? then Err(NotANumber(p.name))
      else if p.paramType == "i16" then
        var value := match AsI64(v.n) case Some(x) => x case None => 0;
        if value < -0x8000 || value > 0x7FFF then Err(OutOfRangeForI16(p.name, value)) else Ok(())
      else Ok(())
    else if p.paramType == "CStr" then
      if !v.Str? then Err(NotAString(p.name)) else Ok(())
    else if p.paramType == "bool" then
      if !v.Bool? then Err(NotABoolean(p.name)) else Ok(())
    else Ok(())
  }

  /** The loop over the parameters, in order: presence, then type. */
  function CheckParams(params: seq<Parameter>, fields: seq<(string, Json)>): (r: Result<(), ValidationError>)
    ensures r.Ok? ==> Names(params) <= KeySet(fields)
    ensures r.Ok? ==> forall i :: 0 <= i < |params| ==> CheckType(params[i], Lookup(fields, params[i].name).value).Ok?
    ensures r.Err? ==> AboutParameter(r.error) && r.error.param in Names(params)
    ensures r.Err? && r.error.MissingParameter? ==> r.error.param !in KeySet(fields)
    // Every parameter present with a value of its type is accepted.
    ensures (forall i :: 0 <= i < |params| ==>
               Lookup(fields, params[i].name).Some? && CheckType(params[i], Lookup(fields, params[i].name).value).Ok?) ==>
      r.Ok?
  {
    if params == [] then Ok(())
    else
      var p := params[0];
      match Lookup(fields, p.name)
      case None => Err(MissingParameter(p.name))
      case Some(v) =>
        match CheckType(p, v)
        case Err(e) => Err(e)
        case Ok(_) =>
          var r := CheckParams(params[1..], fields);
          assert Names(params) == {p.name} + Names(params[1..]) by {
            forall n | n in Names(params) ensures n in {p.name} + Names(params[1..]) {
              var i :| 0 <= i < |params| && params[i].name == n;
              if i > 0 { assert params[1..][i - 1].name == n; }
            }
            forall n | n in Names(params[1..]) ensures n in Names(params) {
              var i :| 0 <= i < |params[1..]| && params[1..][i].name == n;
              assert params[i + 1].name == n;
            }
          }
          if r.Err? then
            assert r.error.param in Names(params);
            r
          else
            assert r.Ok? ==> forall i :: 0 <= i < |params| ==> CheckType(params[i], Lookup(fields, params[i].name).value).Ok? by {
              if r.Ok? {
                forall i | 0 <= i < |params| ensures CheckType(params[i], Lookup(fields, params[i].name).value).Ok? {
                  if i > 0 { assert params[i] == params[1..][i - 1]; }
                }
              }
            }
            r
  }

  /** `validate_function_arguments` */
  function ValidateFunctionArguments(f: Function, arguments: Json): (r: Result<(), ValidationError>)
    ensures r == Err(NotAnObject) <==> !arguments.Object?
    // Accepted arguments name exactly the parameters, each value of its type.
    ensures r.Ok? ==> KeySet(arguments.fields) == Names(f.params)
    ensures r.Ok? ==> forall i :: 0 <= i < |f.params| ==>
      CheckType(f.params[i], Lookup(arguments.fields, f.params[i].name).value).Ok?
    // A key that names no parameter is reported before any missing parameter.
    ensures arguments.Object? && f.params != [] && !(KeySet(arguments.fields) <= Names(f.params)) ==>
      r.Err? && r.error.InvalidParameter? && r.error.key !in Names(f.params)
    // Conversely, arguments naming exactly the parameters, each value of its
    // type, are accepted.
    ensures (arguments.Object? && KeySet(arguments.fields) == Names(f.params)
             && forall i :: 0 <= i < |f.params| ==>
                  Lookup(arguments.fields, f.params[i].name).Some?
                  && CheckType(f.params[i], Lookup(arguments.fields, f.params[i].name).value).Ok?) ==>
      r.Ok?
  {
    if !arguments.Object? then Err(NotAnObject)
    else
      var fields := arguments.fields;
      if |f.params| == 0 && |fields| != 0 then
        assert fields[0].0 in KeySet(fields);
        Err(TakesNoParameters(Keys(fields)))
      else if |f.params| != 0 && |fields| == 0 then
        assert f.params[0].name in Names(f.params);
        Err(RequiresParameters(|f.params|))
      else
        match FirstUnexpected(fields, f.params)
        case Some(k) => Err(InvalidParameter(k))
        case None =>
          var r := CheckParams(f.params, fields);
          assert |f.params| == 0 ==> KeySet(fields) == {} && Names(f.params) == {};
          r
  }

  /** What `as_i64().unwrap_or(0)` lets through: a float, or an integer
      above the i64 range, passes the i16 range check as 0. */
  lemma I16CheckAdmitsNonI64Numbers(name: string)
    ensures CheckType(Parameter(name, "i16"), Num(Float)).Ok?
    ensures CheckType(Parameter(name, "i16"), Num(Int(0x8000_0000_0000_0000))).Ok?
    ensures CheckType(Parameter(name, "i16"), Num(Int(0x8000))) == Err(OutOfRangeForI16(name, 0x8000))
    ensures CheckType(Parameter(name, "i32"), Num(Int(0x1_0000_0000))).Ok?
  {
  }

  /** `type_to_json_type` */
  function TypeToJsonType(rustType: string): (r: string)
    ensures r in {"integer", "number", "string", "boolean"}
    ensures r == "integer" <==> rustType in {"i16", "i32", "i64"}
    ensures r == "number" <==> rustType in {"f32", "f64"}
    ensures r == "boolean" <==> rustType == "bool"
  {
    if rustType == "i16" || rustType == "i32" || rustType == "i64" then "integer"
    else if rustType == "f32" || rustType == "f64" then "number"
    else if rustType == "CStr" then "string"
    else if rustType == "bool" then "boolean"
    else "string"
  }

  /** The object `create_input_schema` returns (its `"type"` is always
      `"object"`): the JSON type of each property and the required names. */
  datatype InputSchema = InputSchema(properties: map<string, string>, required: seq<string>)

  /** The schema after the first `|params|` loop iterations. The loop's
      inline match is the same mapping as `type_to_json_type`. */
  function SchemaOf(params: seq<Parameter>): InputSchema
  {
    if params == [] then InputSchema(map[], [])
    else
      var s := SchemaOf(params[..|params| - 1]);
      var p := params[|params| - 1];
      InputSchema(s.properties[p.name := TypeToJsonType(p.paramType)], s.required + [p.name])
  }

  /** `create_input_schema` lists every parameter as required, in order. */
  lemma {:induction false} SchemaRequired(params: seq<Parameter>)
    ensures SchemaOf(params).required == seq(|params|, i requires 0 <= i < |params| => params[i].name)
    decreases |params|
  {
    if params != [] {
      SchemaRequired(params[..|params| - 1]);
    }
  }

  /** Every parameter name has a property, and nothing else does. */
  lemma {:induction false} SchemaKeys(params: seq<Parameter>)
    ensures SchemaOf(params).properties.Keys == Names(params)
    decreases |params|
  {
    if params != [] {
      var init := params[..|params| - 1];
      SchemaKeys(init);
      assert Names(params) == Names(init) + {params[|params| - 1].name} by {
        forall n | n in Names(params) ensures n in Names(init) + {params[|params| - 1].name} {
          var i :| 0 <= i < |params| && params[i].name == n;
          if i < |params| - 1 { assert init[i].name == n; }
        }
        forall n | n in Names(init) ensures n in Names(params) {
          var i :| 0 <= i < |init| && init[i].name == n;
          assert params[i].name == n;
        }
      }
    }
  }

  /** A property's JSON type is that of the LAST parameter with its name
      (the map insert overwrites). */
  lemma {:induction false} SchemaLastWins(params: seq<Parameter>, i: nat)
    requires i < |params|
    requires forall j :: i < j < |params| ==> params[j].name != params[i].name
    ensures params[i].name in SchemaOf(params).properties
    ensures SchemaOf(params).properties[params[i].name] == TypeToJsonType(params[i].paramType)
    decreases |params|
  {
    if i < |params| - 1 {
      var init := params[..|params| - 1];
      assert init[i] == params[i];
      forall j | i < j < |init| ensures init[j].name != init[i].name {
        assert init[j] == params[j];
      }
      SchemaLastWins(init, i);
    }
  }

  method CreateInputSchema(f: Function) returns (schema: InputSchema)
    ensures schema == SchemaOf(f.params)
  {
    var properties: map<string, string> := map[];
    var required: seq<string> := [];
    var i := 0;
    while i < |f.params|
      invariant 0 <= i <= |f.params|
      invariant InputSchema(properties, required) == SchemaOf(f.params[..i])
    {
      var param := f.params[i];
      properties := properties[param.name := TypeToJsonType(param.paramType)];
      required := required + [param.name];
      assert f.params[..i + 1][..i] == f.params[..i];
      i := i + 1;
    }
    assert f.params[..i] == f.params;
    schema := InputSchema(properties, required);
  }

  datatype Tool = Tool(name: string, description: string, inputSchema: InputSchema)

  /** `create_tools_list`: one tool per function, in manifest order. */
  function CreateToolsList(m: Manifest): (tools: seq<Tool>)
    ensures |tools| == |m.functions|
    ensures forall i :: 0 <= i < |tools| ==>
      tools[i].name == m.functions[i].name && tools[i].description == m.functions[i].desc
      && tools[i].inputSchema.required == seq(|m.functions[i].params|, k requires 0 <= k < |m.functions[i].params| => m.functions[i].params[k].name)
    // Each tool's schema is its function's, so its property types are those of
    // `SchemaKeys` and `SchemaLastWins`.
    ensures forall i :: 0 <= i < |tools| ==> tools[i].inputSchema == SchemaOf(m.functions[i].params)
  {
    var tools := seq(|m.functions|, i requires 0 <= i < |m.functions| =>
      Tool(m.functions[i].name, m.functions[i].desc, SchemaOf(m.functions[i].params)));
    assert forall i :: 0 <= i < |tools| ==> tools[i].inputSchema == SchemaOf(m.functions[i].params);
    forall i | 0 <= i < |tools|
      ensures tools[i].inputSchema.required == seq(|m.functions[i].params|, k requires 0 <= k < |m.functions[i].params| => m.functions[i].params[k].name)
    {
      SchemaRequired(m.functions[i].params);
    }
    tools
  }

  /** What the manifest directory holds for a device: no `<id>.json`, a
      file that cannot be read, one that does not parse, or a manifest. */
  datatype DiskEntry = NoFile | Unreadable(reason: string) | Malformed(reason: string) | Parsed(manifest: Manifest)

  datatype ManifestError = NotFound(deviceId: string) | ReadFailed(reason: string) | ParseFailed(reason: string)

  /** `load_manifest_from_file` after the existence check of `get_manifest`. */
  function LoadResult(deviceId: string, entry: DiskEntry): (r: Result<Manifest, ManifestError>)
    ensures r.Ok? <==> entry.Parsed?
    ensures r.Ok? ==> r.value == entry.manifest
  {
    match entry
    case NoFile => Err(NotFound(deviceId))
    case Unreadable(e) => Err(ReadFailed(e))
    case Malformed(e) => Err(ParseFailed(e))
    case Parsed(m) => Ok(m)
  }

  /** `ManifestManager`: the cache of loaded manifests, keyed by device ID.
      The manifest directory is passed to each call as `disk`. */
  class ManifestManager {
    var loaded: map<string, Manifest>

    constructor ()
      ensures loaded == map[]
    {
      loaded := map[];
    }

    /** `get_manifest`; `readDisk` tells whether the disk was consulted. */
    method GetManifest(deviceId: string, disk: string -> DiskEntry) returns (r: Result<Manifest, ManifestError>, readDisk: bool)
      modifies this
      ensures deviceId in old(loaded) ==> r == Ok(old(loaded)[deviceId]) && !readDisk && loaded == old(loaded)
      ensures deviceId !in old(loaded) ==> readDisk && r == LoadResult(deviceId, disk(deviceId))
      ensures deviceId !in old(loaded) && r.Ok? ==> loaded == old(loaded)[deviceId := r.value]
      ensures deviceId !in old(loaded) && r.Err? ==> loaded == old(loaded)
    {
      if deviceId in loaded {
        return Ok(loaded[deviceId]), false;
      }
      readDisk := true;
      var entry := disk(deviceId);
      if entry.NoFile? {
        return Err(NotFound(deviceId)), readDisk;
      }
      r := LoadResult(deviceId, entry);
      if r.Err? {
        return;
      }
      loaded := loaded[deviceId := r.value];
    }

    /** `reload_manifest`: drops the cached entry, then loads it again. */
    method ReloadManifest(deviceId: string, disk: string -> DiskEntry) returns (r: Result<(), ManifestError>)
      modifies this
      ensures r.Ok? <==> disk(deviceId).Parsed?
      ensures disk(deviceId).Parsed? ==> loaded == old(loaded)[deviceId := disk(deviceId).manifest]
      ensures !disk(deviceId).Parsed? ==> loaded == old(loaded) - {deviceId}
    {
      loaded := loaded - {deviceId};
      var m, _ := GetManifest(deviceId, disk);
      if m.Err? {
        return Err(m.error);
      }
      r := Ok(());
    }
  }
}
