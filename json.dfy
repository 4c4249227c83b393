/** The part of Qt's JSON object model that the settings handlers read:
    a value looked up in an object, and its conversions with a fallback. */
module Json {

  /** A JSON value. `Undefined` is what looking up a missing key yields;
      arrays and objects are not inspected by the handlers, so they are one case. */
  datatype JsonValue =
    | Undefined
    | Null
    | Bool(b: bool)
    | Number(n: int)
    | Str(s: string)
    | Composite

  type JsonObject = map<string, JsonValue>

  /** `obj[key]` on a const object: a missing key reads as `Undefined`. */
  function Field(obj: JsonObject, key: string): (v: JsonValue)
  {
    if key in obj then obj[key] else Undefined
  }

  /** `toBool(def)`: the boolean if the value is one, otherwise the fallback. */
  function ToBool(v: JsonValue, def: bool := false): (r: bool)
  {
    if v.Bool? then v.b else def
  }

  /** `toInt(def)`: the number if the value is one, otherwise the fallback. */
  function ToInt(v: JsonValue, def: int := 0): (r: int)
  {
    if v.Number? then v.n else def
  }

  /** `toString(def)`: the string if the value is one, otherwise the fallback. */
  function ToStr(v: JsonValue, def: string := ""): (r: string)
  {
    if v.Str? then v.s else def
  }
}
