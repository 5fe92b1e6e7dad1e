/** JavaScript values as they arrive in a parsed JSON request body, and the
    few JavaScript tests the student controller applies to them. */
module JsValue {

  /** A value of a request-body field. A field missing from the body reads as
      `Undefined`; JSON numbers are finite, so a number is a real. */
  datatype Value =
    | Undefined
    | Null
    | Bool(b: bool)
    | Num(x: real)
    | Str(s: string)
    | Arr(elems: seq<Value>)
    | Obj(members: seq<(string, Value)>)

  /** JavaScript truthiness: `!v` is `true` exactly when `Truthy(v)` is false. */
  predicate Truthy(v: Value) {
    match v
    case Undefined => false
    case Null => false
    case Bool(b) => b
    case Num(x) => x != 0.0
    case Str(s) => s != ""
    case Arr(_) => true
    case Obj(_) => true
  }

  /** `Number.isInteger(v)`: a number with no fractional part. */
  predicate IsInteger(v: Value) {
    v.Num? && v.x.Floor as real == v.x
  }

  /** `Array.isArray(v) && v.every(id => Number.isInteger(id))`; `every` holds
      of the empty array. */
  predicate IsIntegerArray(v: Value) {
    v.Arr? && forall i :: 0 <= i < |v.elems| ==> IsInteger(v.elems[i])
  }

  /** How the database driver binds a request value as a query parameter: an
      undefined value is sent as SQL NULL, every other value as itself. */
  function Bind(v: Value): Value {
    if v.Undefined? then Null else v
  }

  /** The JavaScript number that stands for an integer identifier. */
  function IdValue(id: int): Value {
    Num(id as real)
  }
}
