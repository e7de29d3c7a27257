/**
 * The slice of JavaScript semantics the chat gateway relies on: the values
 * `JSON.parse` yields, reading a property off such a value, truthiness,
 * and the value a `catch` clause receives.
 */
module Js {

  /** A value produced by `JSON.parse`. Object keys are unique (the last duplicate wins). */
  datatype Json =
    | JNull
    | JBool(b: bool)
    | JNum(n: real)
    | JStr(s: string)
    | JArr(items: seq<Json>)
    | JObj(fields: map<string, Json>)

  /** The result of reading a property: `undefined`, or a JSON value. */
  datatype Prop = Undefined | Val(value: Json)

  /** What a `throw` delivers to `catch`: an `Error` object (with its message) or any other value. */
  datatype Thrown = JsError(message: string) | NonError

  /** The outcome of `JSON.parse(text)`: the parsed value, or what it threw. */
  datatype ParseOutcome = Parsed(value: Json) | ParseFail(thrown: Thrown)

  /** The places in the gateway where the engine throws a `TypeError` for a property read. */
  datatype ReadSite =
    | TypeOfNull          // reading `type` off a parsed null
    | SocketsOfUndefined  // reading `sockets` off a room that is not there
    | PushOfUndefined     // reading `push` off the missing `sockets` of an inherited key
    | ForEachOfUndefined  // reading `forEach` off the missing `sockets` of an inherited key

  /** The engine's text for each such `TypeError`; it differs between engines, so it is left open. */
  datatype Engine = Engine(typeErrorText: ReadSite -> string)

  /**
   * `v.key` for a `v` that is not `null` (reading a property of `null`
   * throws, and callers handle that). Only objects have the keys read here;
   * none of them is inherited from a prototype.
   */
  function Get(v: Json, key: string): Prop
    requires !v.JNull?
  {
    if v.JObj? && key in v.fields then Val(v.fields[key]) else Undefined
  }

  /** JavaScript truthiness: `undefined`, `null`, `false`, `0`, `-0` and `""` are falsy. */
  predicate Truthy(p: Prop) {
    match p
    case Undefined => false
    case Val(JNull) => false
    case Val(JBool(b)) => b
    case Val(JNum(n)) => n != 0.0
    case Val(JStr(s)) => s != ""
    case Val(_) => true
  }

  /** The text both `catch` clauses report: an `Error`'s own message, else a fixed fallback. */
  function CaughtText(t: Thrown, fallback: string): string {
    match t
    case JsError(message) => message
    case NonError => fallback
  }

  /** A property holding a non-empty string. */
  predicate NonEmptyString(p: Prop) {
    p.Val? && p.value.JStr? && p.value.s != ""
  }

  /** A value passes the "truthy and of type string" guard exactly when it is a non-empty string. */
  lemma TruthyStringIsNonEmpty(p: Prop)
    ensures (Truthy(p) && p.value.JStr?) <==> NonEmptyString(p)
  {
  }
}
