/** JavaScript values as far as the student backend looks at them.

    Only four things about a value matter to the parser and the validators:
    whether it is `undefined`, whether it is `null`, whether it is a string
    (and which one), and, for every other value (numbers, booleans, objects,
    arrays, timestamps), whether it is truthy. */
module Js {

  datatype Value =
    | Undefined
    | Null
    | Str(s: string)
    | Other(truthy: bool)

  /** JavaScript truthiness: `undefined`, `null`, `""` and the falsy
      non-strings (`0`, `false`, `NaN`) are falsy, everything else truthy. */
  predicate Truthy(v: Value) {
    match v
    case Undefined => false
    case Null => false
    case Str(s) => s != []
    case Other(t) => t
  }

  /** `val && typeof val === 'string'`: a string other than `""`. */
  predicate IsNonEmptyString(v: Value) {
    Truthy(v) && v.Str?
  }

  /** `obj[key]` on a plain object: a missing property reads as `undefined`. */
  function Get(m: map<string, Value>, key: string): Value {
    if key in m then m[key] else Undefined
  }

  /** The value of a destructured parameter with a default: the default is
      used exactly when the argument is `undefined`. */
  function OrDefault(v: Value, default: Value): Value {
    if v.Undefined? then default else v
  }

  /** What a call can throw in this core. */
  datatype Thrown = TypeError

  datatype Result<+T, +E> = Ok(value: T) | Err(error: E)

  datatype Option<+T> = None | Some(value: T)

  /** A plain JavaScript object, whose own properties a caller hands over
      by reference and which a callee may update in place. */
  class JsObject {
    var props: map<string, Value>

    constructor (initial: map<string, Value>)
      ensures props == initial
    {
      props := initial;
    }
  }
}
