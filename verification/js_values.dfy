/** The part of JavaScript value semantics the tool relies on when it reads a
    parsed metadata file: the values a property can hold, truthiness, and the
    `||` operator used to supply defaults. */
module JsValues {

  /** A property value of a parsed JSON object. `Undefined` is what reading a
      missing property yields; `Compound` stands for any array or object. */
  datatype JsValue =
    | Undefined
    | Null
    | Bool(b: bool)
    | Num(n: real)
    | Str(s: string)
    | Compound

  /** A parsed metadata file: a JSON object, property name to value. */
  type Metadata = map<string, JsValue>

  /** ECMAScript ToBoolean: undefined, null, false, 0 and "" are falsy; every
      other value (including every array and object) is truthy. */
  predicate Truthy(v: JsValue) {
    match v
    case Undefined => false
    case Null => false
    case Bool(b) => b
    case Num(n) => n != 0.0
    case Str(s) => |s| > 0
    case Compound => true
  }

  /** `m.key`: the property's value, or undefined when the object lacks it. */
  function Field(m: Metadata, key: string): (v: JsValue)
    ensures key !in m ==> v == Undefined
    ensures key in m ==> v == m[key]
  {
    if key in m then m[key] else Undefined
  }

  /** `a || b`: the left operand when it is truthy, otherwise the right one. */
  function Or(a: JsValue, b: JsValue): (r: JsValue)
    ensures Truthy(a) ==> r == a
    ensures !Truthy(a) ==> r == b
    ensures Truthy(r) <==> Truthy(a) || Truthy(b)
  {
    if Truthy(a) then a else b
  }
}
