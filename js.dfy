/**
 * JavaScript values as the site's code sees them in request bodies, database rows and
 * translation responses, with JavaScript's notion of truthiness.
 */
module Js {

  /** A JSON-like JavaScript value; numbers are integers in this model. */
  datatype Value =
    | Undefined
    | Null
    | Bool(b: bool)
    | Num(n: int)
    | Str(s: string)
    | Arr(items: seq<Value>)
    | Obj(fields: map<string, Value>)

  /** A plain object: a record of named fields; an absent key reads as `undefined`. */
  type Record = map<string, Value>

  /** `!!v` */
  predicate Truthy(v: Value) {
    match v
    case Undefined => false
    case Null => false
    case Bool(b) => b
    case Num(n) => n != 0
    case Str(s) => s != []
    case Arr(_) => true
    case Obj(_) => true
  }

  /** `a || b`: the first operand when it is truthy, otherwise the second. */
  function Or(a: Value, b: Value): (r: Value)
    ensures Truthy(a) ==> r == a
    ensures !Truthy(a) ==> r == b
    ensures Truthy(r) <==> Truthy(a) || Truthy(b)
  {
    if Truthy(a) then a else b
  }

  /** `r.key` on a record */
  function Field(r: Record, key: string): Value {
    if key in r then r[key] else Undefined
  }

  /**
   * `v[0]` on a truthy value: the first element of an array, the first character of a
   * string, the field named "0" of an object, and `undefined` otherwise.
   */
  function First(v: Value): Value
    requires Truthy(v)
  {
    match v
    case Arr(items) => if items != [] then items[0] else Undefined
    case Str(s) => Str([s[0]])
    case Obj(fields) => if "0" in fields then fields["0"] else Undefined
    case _ => Undefined
  }
}
