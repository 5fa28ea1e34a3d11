/** The few JavaScript values that flow through the render pipeline, with
    the two language rules the pipeline relies on: string conversion (used by
    template literals, `new URL(...)` and `JSON.parse`) and truthiness (used
    by the `?:` guards). */
module JsValue {

  import opened Wrappers

  /** `undefined`, a string, or a parsed query-string object whose
      parameters are single strings. */
  datatype Value = Undefined | Str(s: string) | Query(params: map<string, string>)

  /** The exceptions a pipeline stage can throw. */
  datatype Thrown = TypeError | SyntaxError

  /** `String(v)`. */
  function ToString(v: Value): string {
    match v
    case Undefined => "undefined"
    case Str(s) => s
    case Query(_) => "[object Object]"
  }

  /** `!!v`: the empty string and `undefined` are falsy, objects are not. */
  predicate Truthy(v: Value) {
    match v
    case Undefined => false
    case Str(s) => s != ""
    case Query(_) => true
  }

  /** A missing value reads as `undefined`. */
  function OfOption(o: Option<string>): (v: Value)
    ensures v.Undefined? <==> o.None?
    ensures o.Some? ==> v == Str(o.value)
  {
    match o
    case None => Undefined
    case Some(s) => Str(s)
  }
}
