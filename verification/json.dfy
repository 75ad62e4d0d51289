/** The part of JSON request handling the API handlers rely on: what
    `await request.json()` yields, how a destructured member reads, and
    JavaScript truthiness of the result. */
module Json {
  import opened Base

  /** A JSON member value. Arrays and objects are not modelled as member values. */
  datatype Value = JNull | JBool(b: bool) | JNumber(n: real) | JString(s: string)

  /** The outcome of `await request.json()`:
      - `Unparseable`: the body is not JSON, so the call throws;
      - `NullBody`: the body is the JSON literal `null`, which cannot be destructured;
      - `Members(m)`: any other JSON text, seen through destructuring; an object
        contributes its members, and a number, string, boolean or array has none of
        the names the handlers look up, so it reads as an empty map. */
  datatype Body = Unparseable | NullBody | Members(fields: map<string, Value>)

  /** `body.name` after destructuring: `None` stands for `undefined`. */
  function Get(fields: map<string, Value>, name: string): (r: Option<Value>)
    ensures r.Some? <==> name in fields
    ensures r.Some? ==> r.value == fields[name]
  {
    if name in fields then Some(fields[name]) else None
  }

  /** JavaScript truthiness: `undefined`, `null`, `false`, `0` and `""` are falsy.
      (A JSON number is never `NaN`.) */
  predicate Truthy(v: Option<Value>)
  {
    match v
    case None => false
    case Some(JNull) => false
    case Some(JBool(b)) => b
    case Some(JNumber(n)) => n != 0.0
    case Some(JString(s)) => s != ""
  }

  /** `typeof v === "number"` */
  predicate IsNumber(v: Option<Value>)
  {
    v.Some? && v.value.JNumber?
  }
}
