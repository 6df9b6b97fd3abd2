/**
 * `handleError` (src/helpers/errorHandler.ts): chooses the one value shown
 * in an error toast for an exception caught by any page.
 */
module ErrorHandler {
  import opened Js

  const ApiFallback := "An error occurred. Please try again."
  const Fallback := "Something went wrong. Please try again."

  /** `error.response && error.response.data`: the server answered with a body. */
  predicate HasServerData(e: Thrown) {
    Truthy(e.response) && Truthy(Get(e.response, "data"))
  }

  /** `error.response.data.message`, defined when the server answered. */
  function ServerMessage(e: Thrown): JsValue
    requires HasServerData(e)
  {
    Get(Get(e.response, "data"), "message")
  }

  /** `message[Object.keys(message)[0]]` on an object: the value under its
      first key, or `undefined` when it has no key (`Object.keys` is empty,
      and `message[undefined]` reads the absent property "undefined"). */
  function FirstKeyValue(message: JsValue): (v: JsValue)
    requires message.Obj?
    ensures message.entries == [] ==> v == Undefined
    ensures message.entries != [] ==> v == message.entries[0].1
  {
    if message.entries == [] then Lookup(message.entries, "undefined")
    else Lookup(message.entries, message.entries[0].0)
  }

  /** The argument passed to `toast.error`, following the branches of the
      source in order; the second test of `message` repeats the first and
      is never taken. */
  function HandleError(e: Thrown): (shown: JsValue)
    ensures (HasServerData(e) && Truthy(ServerMessage(e)) && ServerMessage(e).Obj?) ==>
              shown == FirstKeyValue(ServerMessage(e))
    ensures (HasServerData(e) && Truthy(ServerMessage(e)) && !ServerMessage(e).Obj?) ==>
              shown == ServerMessage(e)
    ensures HasServerData(e) && !Truthy(ServerMessage(e)) ==> shown == Str(ApiFallback)
    ensures !HasServerData(e) ==> shown == if Truthy(e.message) then e.message else Str(Fallback)
  {
    if Truthy(e.response) && Truthy(Get(e.response, "data")) then
      var message := Get(Get(e.response, "data"), "message");
      if Truthy(message) then
        if IsObject(message) then FirstKeyValue(message) else message
      else if Truthy(message) then message
      else Str(ApiFallback)
    else if Truthy(e.message) then e.message
    else Str(Fallback)
  }

  /** Which rule of the handler produced the toast. */
  datatype Rule = FieldMessage | FlatMessage | ApiDefault | TransportMessage | Default

  /** The rules in the order of preference: a structured per-field message,
      a flat server message, the API default, the transport error's own
      message, the last-resort default. */
  function RuleOf(e: Thrown): Rule {
    if HasServerData(e) then
      if Truthy(ServerMessage(e)) then
        if ServerMessage(e).Obj? then FieldMessage else FlatMessage
      else ApiDefault
    else if Truthy(e.message) then TransportMessage
    else Default
  }

  /** The shown value is exactly the one the chosen rule provides, so each
      error yields one message from one rule. */
  lemma ShownByRule(e: Thrown)
    ensures match RuleOf(e)
            case FieldMessage => HandleError(e) == FirstKeyValue(ServerMessage(e))
            case FlatMessage => HandleError(e) == ServerMessage(e) && Truthy(HandleError(e))
            case ApiDefault => HandleError(e) == Str(ApiFallback)
            case TransportMessage => HandleError(e) == e.message && Truthy(HandleError(e))
            case Default => HandleError(e) == Str(Fallback)
  {
  }

  /** A message supplied by the server always wins over the transport
      error's own message: changing `error.message` changes nothing. */
  lemma ServerMessageTakesPrecedence(response: JsValue, m1: JsValue, m2: JsValue)
    requires HasServerData(Thrown(response, m1))
    ensures HasServerData(Thrown(response, m2))
    ensures HandleError(Thrown(response, m1)) == HandleError(Thrown(response, m2))
    ensures RuleOf(Thrown(response, m1)) != TransportMessage
  {
  }

  /** A field-error object such as `{email: "taken"}` shows its first value;
      an empty object shows `undefined`. */
  lemma FieldMessageShowsFirstValue(response: JsValue, m: JsValue, key: string, text: JsValue,
                                    more: seq<(string, JsValue)>)
    requires HasServerData(Thrown(response, m))
    requires ServerMessage(Thrown(response, m)) == Obj([(key, text)] + more)
    ensures HandleError(Thrown(response, m)) == text
  {
  }

  /** A falsy value (an empty toast) is shown only through a message object
      from the server that is empty or whose first value is falsy: every
      other rule shows a truthy value. */
  lemma FalsyOnlyFromFieldMessage(e: Thrown)
    ensures !Truthy(HandleError(e)) ==> RuleOf(e) == FieldMessage
  {
  }
}
