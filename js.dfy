/**
 * The JavaScript values and effects the pages deal in: JSON-like values with
 * their truthiness, what a `catch` block receives, the answer of a network
 * request, and the visible effects a handler issues (toasts, navigation).
 */
module Js {

  datatype Option<+T> = None | Some(value: T)

  /** A JavaScript value as it arrives from the server or an exception.
      Arrays are objects whose keys are their indices; `entries` lists an
      object's own enumerable properties in `Object.keys` order. */
  datatype JsValue =
    | Undefined
    | Null
    | Bool(b: bool)
    | Num(n: int)
    | Str(s: string)
    | Obj(entries: seq<(string, JsValue)>)

  /** JavaScript truthiness (`NaN` is not modelled: numbers are integers). */
  predicate Truthy(v: JsValue) {
    match v
    case Undefined => false
    case Null => false
    case Bool(b) => b
    case Num(n) => n != 0
    case Str(s) => s != []
    case Obj(_) => true
  }

  /** `typeof v === 'object'`, which holds of `null` too. */
  predicate IsObject(v: JsValue) {
    v.Null? || v.Obj?
  }

  /** The value of the first entry named `key`, or `undefined`. */
  function Lookup(entries: seq<(string, JsValue)>, key: string): (v: JsValue)
    ensures v.Undefined? || exists i :: 0 <= i < |entries| && entries[i] == (key, v)
  {
    if entries == [] then Undefined
    else if entries[0].0 == key then entries[0].1
    else Lookup(entries[1..], key)
  }

  /** The property read `v[key]` on a value that is neither `null` nor
      `undefined` (those throw a `TypeError`): an object's own property, and
      `undefined` for every other kind of value. */
  function Get(v: JsValue, key: string): JsValue
    requires !v.Undefined? && !v.Null?
  {
    if v.Obj? then Lookup(v.entries, key) else Undefined
  }

  /** What a `catch` block receives from a failed request or a `throw new
      Error(...)`: the two properties that the error handler reads. */
  datatype Thrown = Thrown(response: JsValue, message: JsValue)

  /** A `TypeError` raised by reading a property of `undefined`. */
  function TypeErrorReading(prop: string): Thrown {
    Thrown(Undefined, Str("Cannot read properties of undefined (reading '" + prop + "')"))
  }

  /** How an awaited promise settles: with a value, or by throwing. */
  datatype Outcome<+R> = Resolved(value: R) | Rejected(error: Thrown)

  /** An HTTP response as far as the pages look at it: its numeric `status`
      and its JSON body `data`, where `NoBody` stands for an absent
      (`undefined` or `null`) body. */
  datatype Response<+B> = Response(status: int, data: Body<B>)
  datatype Body<+B> = NoBody | Body(body: B)

  /** The visible effects a handler issues, in order. */
  datatype Effect =
    | ToastSuccess(text: string)
    | ToastError(shown: JsValue)
    | Navigate(path: string)
    | PurgePersisted
    | After(delayMs: nat, effect: Effect)

  /** A string read as a condition: `if (s)` holds when it is non-empty. */
  predicate Present(s: Option<string>) {
    s.Some? && s.value != []
  }
}
