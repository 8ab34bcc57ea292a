/** The dynamically typed configuration values (`interface{}`) that the
    configuration loader hands to the output adapters and filters. */
module Values {

  /** A decoded configuration value. Integers and floats are distinct, as
      they are after decoding a configuration file (`int64` and `float64`). */
  datatype Value =
    | Null
    | Bool(b: bool)
    | Int(i: int)
    | Float(f: real)
    | Str(s: string)
    | List(items: seq<Value>)
    | Object(fields: map<string, Value>)

  /** Go's `m[k]` on a `map[string]interface{}`: nil when the key is absent. */
  function Get(m: map<string, Value>, k: string): (v: Value)
    ensures k !in m ==> v == Null
    ensures k in m ==> v == m[k]
  {
    if k in m then m[k] else Null
  }
}
