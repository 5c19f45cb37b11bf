/** JSON values as far as the models read them (`serde_json::Value`). */
module Json {
  import opened Wrappers
  import opened Backoff

  datatype Value =
    | Null
    | Bool(b: bool)
    | Integer(n: int)
    | Float(digits: string)
    | Str(s: string)
    | Array(items: seq<Value>)
    | Object(fields: map<string, Value>)
  {
    function AsU64(): Option<nat> {
      if Integer? && 0 <= n <= U64_MAX then Some(n) else None
    }

    function AsStr(): Option<string> {
      if Str? then Some(s) else None
    }

    function AsBool(): Option<bool> {
      if Bool? then Some(b) else None
    }

    /** `Value::get` with a string index: only objects have members. */
    function Get(key: string): Option<Value> {
      if Object? && key in fields then Some(fields[key]) else None
    }
  }

  /** `v as u32` */
  function TruncateU32(n: nat): u32 {
    n % 0x1_0000_0000
  }
}
