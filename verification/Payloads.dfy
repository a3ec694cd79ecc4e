/** JSON-like payloads as providers send them, with Python's notions of truth and of a missing key. */
module Payloads {
  import opened Wrappers

  datatype Value = Null | Bool(b: bool) | Number(n: int) | Text(text: string) | List(items: seq<Value>) | Dict(fields: map<string, Value>)

  /** What the Python runtime contributes: `int(...)`, `str(...)` and the JSON codec. */
  datatype Runtime = Runtime(toInt: Value -> Option<int>, render: Value -> string, isJson: string -> bool, dumps: Value -> string,
                             strip: string -> string, lower: string -> string)

  predicate Truthy(v: Value) {
    match v
    case Null => false
    case Bool(b) => b
    case Number(n) => n != 0
    case Text(s) => s != ""
    case List(items) => items != []
    case Dict(fields) => fields != map[]
  }

  /** `payload.get(key)`. */
  function Get(fields: map<string, Value>, key: string): Value {
    if key in fields then fields[key] else Null
  }

  /** `a or b`. */
  function Or(a: Value, b: Value): Value {
    if Truthy(a) then a else b
  }

  function Str(rt: Runtime, v: Value): string {
    if v.Text? then v.text else rt.render(v)
  }

  /** The fields of a dictionary, none of anything else. */
  function FieldsOf(v: Value): map<string, Value> {
    if v.Dict? then v.fields else map[]
  }
}
