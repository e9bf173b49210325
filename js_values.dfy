/**
 * The JavaScript values the ticket routine reads from its `user` argument and
 * sends to the document store: properties of parsed JSON that are missing
 * (`undefined`), `null` or a string, how `if (x)` and `??` treat them, and what
 * a property of a store payload becomes once the payload is serialised.
 */
module JsValues {

  /** A nullable attribute as the store keeps it: `null` or a string. */
  datatype Option<+T> = None | Some(value: T)

  /** A string-typed property of a parsed JSON object. */
  datatype JsStr = Undefined | Null | Str(s: string)

  /** `if (v)`: `undefined`, `null` and the empty string are all falsy. */
  predicate Truthy(v: JsStr)
  {
    v.Str? && v.s != ""
  }

  /** `if (f)` on an attribute read back from the store. */
  predicate Present(f: Option<string>)
  {
    f.Some? && f.value != ""
  }

  /** `a ?? b`: only `null` and `undefined` fall through; the empty string does not. */
  function Coalesce(a: JsStr, b: JsStr): (r: JsStr)
    ensures a.Str? ==> r == a
    ensures !a.Str? ==> r == b
  {
    match a
    case Str(_) => a
    case _ => b
  }

  /**
   * What an attribute holds after a record is created from a payload
   * property: a string is kept; `null`, and an `undefined` that
   * serialisation dropped, leave the attribute null.
   */
  function Stored(v: JsStr): (f: Option<string>)
    ensures f.Some? <==> v.Str?
    ensures v.Str? ==> f.value == v.s
  {
    match v
    case Str(s) => Some(s)
    case _ => None
  }

  /** One property of an update payload as the store receives it. */
  datatype Write = Keep | Put(value: Option<string>)

  /**
   * `JSON.stringify` drops a property whose value is `undefined`, so the
   * attribute is not written; an explicit `null` is written and clears it.
   */
  function Serialised(v: JsStr): (w: Write)
    ensures w.Keep? <==> v.Undefined?
    ensures w.Put? ==> w.value == Stored(v)
  {
    match v
    case Undefined => Keep
    case _ => Put(Stored(v))
  }
}
