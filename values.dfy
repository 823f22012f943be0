/**
 * The values that cross the wire and the configuration files: what msgpack or
 * JSON decoding produces. Python's `None`, `int`, `str`, `list` and `dict`
 * (with string keys). Python's `bool` is a subclass of `int` whose `True` and
 * `False` compare equal to 1 and 0, so they are represented as `Int(1)` and
 * `Int(0)`; with that choice Dafny's `==` on values is Python's `==`.
 */
module Values {

  datatype Value =
    | Null
    | Int(i: int)
    | Str(s: string)
    | Arr(items: seq<Value>)
    | Obj(fields: map<string, Value>)

  const True: Value := Int(1)
  const False: Value := Int(0)

  /** `d.get(key)` on a dict: `None` when the key is absent. */
  function Get(fields: map<string, Value>, key: string): Value {
    if key in fields then fields[key] else Null
  }

  /** `d.get(key, default)` */
  function GetOr(fields: map<string, Value>, key: string, default: Value): Value {
    if key in fields then fields[key] else default
  }

  /** Python truthiness (`if v:`). */
  predicate Truthy(v: Value) {
    match v
    case Null => false
    case Int(i) => i != 0
    case Str(s) => s != ""
    case Arr(items) => items != []
    case Obj(fields) => fields != map[]
  }
}
