/** JavaScript values as they reach the agent from parsed JSON replies, and
    the two JavaScript tests the agent applies to them: truthiness (`if (x)`,
    `!x`) and nullishness (`x ?? y`, `x != null`). */
module Js {

  datatype Option<T> = None | Some(value: T)

  /** The JSON scalars a reply field can hold, plus `undefined` for a field
      (or an optional-chained object) that is missing. Numbers are exact
      integers; JavaScript's doubles, which round above 2^53, are not modelled. */
  datatype JsValue =
    | Undefined
    | Null
    | Bool(b: bool)
    | Num(n: int)
    | Str(s: string)

  /** `x == null` in JavaScript: true exactly for `null` and `undefined`. */
  predicate Nullish(v: JsValue) {
    v.Undefined? || v.Null?
  }

  /** JavaScript truthiness restricted to the values above. */
  predicate Truthy(v: JsValue) {
    match v
    case Undefined => false
    case Null => false
    case Bool(b) => b
    case Num(n) => n != 0
    case Str(s) => s != ""
  }

  /** `v ?? fallback`. */
  function Coalesce(v: JsValue, fallback: JsValue): (r: JsValue)
    ensures Nullish(v) ==> r == fallback
    ensures !Nullish(v) ==> r == v
  {
    if Nullish(v) then fallback else v
  }

  /** The placeholder string the agent reports for unknown status fields. */
  const NotAvailable: JsValue := Str("N/A")
}
