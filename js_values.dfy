/** The few JavaScript runtime notions the modelled code relies on: a value
    that may be absent, a dynamically typed value, and truthiness. */
module JsValues {

  /** `None` stands for `null`, `undefined`, or (where a function checks the
      type of its argument) a value of the wrong type. */
  datatype Option<+T> = None | Some(value: T)

  /** A JavaScript value, as far as the formatters distinguish values.
      Numbers are integers only. `Obj` is any object (including arrays and
      `Error` instances); `message` is its `message` property, `Undefined`
      when it has none. */
  datatype Value =
    | Undefined
    | Null
    | Bool(b: bool)
    | Num(n: int)
    | Str(s: string)
    | Obj(message: Value)

  /** JavaScript truthiness (ToBoolean): `undefined`, `null`, `false`, `0`
      and `""` are falsy, every object is truthy. */
  predicate Truthy(v: Value) {
    match v
    case Undefined => false
    case Null => false
    case Bool(b) => b
    case Num(n) => n != 0
    case Str(s) => s != []
    case Obj(_) => true
  }

  /** Truthiness of a string that may be absent (`!s` in the source). */
  predicate PresentNonEmpty(s: Option<string>) {
    s.Some? && s.value != []
  }
}
