/**
 The few JavaScript runtime notions the header relies on: optional fields,
 truthiness of `||` defaults, decoded JSON values, iteration of a value by
 spread or `new Set(...)`, the TypeError such iteration can throw, and the
 browser's `localStorage` as an explicit state value.

 A `string` here is a JavaScript string: one `char` stands for one UTF-16
 code unit, which is what `String.prototype.slice` counts.
 */
module Js {

  /** A field that may be absent (`undefined` or `null`). */
  datatype Option<+T> = None | Some(value: T) {

    /** The value of a field defaulted with `||`, for a field whose present
        values are all truthy or equal to the default. */
    function GetOr(fallback: T): T {
      match this
      case Some(v) => v
      case None => fallback
    }
  }

  /**
   A value produced by `JSON.parse`. Arrays are modelled only when every
   element is a string; object members are not modelled because every
   object is treated alike (truthy, not iterable).
   */
  datatype JsonValue =
    | JNull
    | JBool(b: bool)
    | JNumber(n: real)
    | JString(s: string)
    | JArray(items: seq<string>)
    | JObject

  /** JavaScript truthiness of a decoded JSON value. */
  predicate Truthy(v: JsonValue) {
    match v
    case JNull => false
    case JBool(b) => b
    case JNumber(n) => n != 0.0
    case JString(s) => s != ""
    case JArray(_) => true
    case JObject => true
  }

  /** The one exception the modelled code can raise: a TypeError from
      iterating a value that is not iterable, such as a number or an object. */
  datatype Fault = NotIterable

  /** The outcome of JavaScript code that either returns or throws. */
  datatype Result<+T> = Ok(value: T) | Throws(fault: Fault)

  /** The one-character strings a string iterator yields. */
  function Chars(s: string): (r: seq<string>)
    ensures |r| == |s|
    ensures forall i :: 0 <= i < |s| ==> r[i] == [s[i]]
  {
    seq(|s|, i requires 0 <= i < |s| => [s[i]])
  }

  /**
   What spreading a truthy value into an array, or building a `Set` from
   it, visits: an array its elements, a string its characters; any other
   truthy value throws a TypeError. Falsy values never get here, since the
   stored keys are defaulted to an empty array first (and `null` would
   behave differently for the two forms).
   */
  function Iterate(v: JsonValue): (r: Result<seq<string>>)
    requires Truthy(v)
    ensures r.Throws? <==> !(v.JArray? || v.JString?)
    ensures v.JArray? ==> r == Ok(v.items)
    ensures v.JString? ==> r == Ok(Chars(v.s))
  {
    match v
    case JArray(items) => Ok(items)
    case JString(s) => Ok(Chars(s))
    case _ => Throws(NotIterable)
  }

  /** The text held under one `localStorage` entry, as `JSON.parse` sees it. */
  datatype StoredText =
    | Malformed                 // `JSON.parse` throws a SyntaxError
    | Json(value: JsonValue)    // `JSON.parse` succeeds

  /** `localStorage`: entry name to stored text; an absent name reads as `null`. */
  type Storage = map<string, StoredText>

  /** Reading one `localStorage` entry: absent names read as missing. */
  function GetItem(storage: Storage, name: string): Option<StoredText> {
    if name in storage then Some(storage[name]) else None
  }

  /**
   How the three read sites decode the stored read keys: a missing entry
   parses as `null`, malformed text is caught and replaced by an empty
   array, and a falsy parsed value is replaced by an empty array. The
   result is NOT checked to be an array.
   */
  function ParseOrEmpty(text: Option<StoredText>): (v: JsonValue)
    ensures text.None? || text == Some(Malformed) ==> v == JArray([])
    ensures Truthy(v)
    ensures text.Some? && text.value.Json? && !Truthy(text.value.value) ==> v == JArray([])
    ensures text.Some? && text.value.Json? && Truthy(text.value.value) ==> v == text.value.value
  {
    match text
    case None => JArray([])
    case Some(Malformed) => JArray([])
    case Some(Json(parsed)) => if Truthy(parsed) then parsed else JArray([])
  }
}
