/**
 The JSON values passed between the poller's tasks: what serde_json::Value and
 its accessors mean to the code modelled here.
 */
module Json {
  import opened Basics

  datatype Value =
    | Null
    | Bool(flag: bool)
    | Integer(number: int)
    | Float(mantissa: int, exponent: int)
    | String(text: string)
    | Array(items: seq<Value>)
    | Object(fields: map<string, Value>)
  {
    /** get: a field of an object, nothing for any other value. */
    function Get(name: string): Option<Value> {
      if Object? && name in fields then Some(fields[name]) else None
    }

    function AsI64(): Option<int> {
      if Integer? && -0x8000_0000_0000_0000 <= number < 0x8000_0000_0000_0000 then Some(number) else None
    }

    function AsStr(): Option<string> {
      if String? then Some(text) else None
    }

    function AsArray(): Option<seq<Value>> {
      if Array? then Some(items) else None
    }
  }
}
