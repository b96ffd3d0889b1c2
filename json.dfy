/** The JSON values the core reads: the legacy attribute values and the parsed offer payload. */
module Json {
  import opened Wrappers

  /** A JSON value. Numbers are kept as integers; floating point is not modelled. */
  datatype Value =
    | Null
    | Bool(b: bool)
    | Number(n: int)
    | String(s: string)
    | Array(items: seq<Value>)
    | Object(fields: map<string, Value>)

  /** `value[key]`: the field of an object, or Null when the key is missing or the value is not an object. */
  function Index(v: Value, key: string): Value
  {
    if v.Object? && key in v.fields then v.fields[key] else Null
  }

  /** `value.as_str()`: the text of a JSON string, nothing for any other value. */
  function AsStr(v: Value): Option<string>
  {
    if v.String? then Some(v.s) else None
  }

  /** `value.as_str().unwrap_or_default()`: the text of a JSON string, "" for any other value. */
  function AsStrOrEmpty(v: Value): string
  {
    UnwrapOr(AsStr(v), "")
  }
}
