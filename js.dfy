/** The fragment of JavaScript value semantics that the relay relies on:
    JSON-shaped values, truthiness, property access with and without
    optional chaining, and a completion that either returns or throws. */
module Js {

  /** A value as `JSON.parse` (or a missing property) produces it.
      Numbers are IEEE doubles in JavaScript; here they are reals, and NaN,
      which JSON cannot express, is absent. */
  datatype JsValue =
    | Undefined
    | Null
    | Bool(b: bool)
    | Num(n: real)
    | Str(s: string)
    | Arr(items: seq<JsValue>)
    | Obj(fields: map<string, JsValue>)

  /** A value or `null`. */
  datatype Option<T> = None | Some(value: T)

  /** The completion of a JavaScript evaluation: a normal result or a thrown exception. */
  datatype Outcome<T> = Return(value: T) | Throw

  predicate IsNullish(v: JsValue) {
    v.Undefined? || v.Null?
  }

  /** ECMAScript ToBoolean: `undefined`, `null`, `false`, `0` and `""` are falsy. */
  predicate Truthy(v: JsValue) {
    match v
    case Undefined => false
    case Null => false
    case Bool(b) => b
    case Num(n) => n != 0.0
    case Str(s) => s != ""
    case Arr(_) => true
    case Obj(_) => true
  }

  /** `v?.key`: a nullish `v`, a non-object `v` or a missing key all give `undefined`.
      The keys the relay reads are never inherited properties of strings,
      arrays or plain objects, so only an object's own fields can supply one. */
  function Get(v: JsValue, key: string): (r: JsValue)
    ensures r != Undefined <==> v.Obj? && key in v.fields && v.fields[key] != Undefined
  {
    if v.Obj? && key in v.fields then v.fields[key] else Undefined
  }

  /** `v.key` without optional chaining: a TypeError on a nullish `v`, `v?.key` otherwise. */
  function Member(v: JsValue, key: string): Outcome<JsValue> {
    if IsNullish(v) then Throw else Return(Get(v, key))
  }

  /** `Array.isArray(v) ? v : []` */
  function ArrayOrEmpty(v: JsValue): seq<JsValue> {
    if v.Arr? then v.items else []
  }
}
