/** Values shared by every module: optional values, results, and the JSON
    values that travel in request bodies, exception messages and responses. */
module Common {

  datatype Option<+T> = None | Some(value: T)

  datatype Result<+T, +E> = Success(value: T) | Failure(error: E)

  /** A JavaScript value as it appears in a JSON body. `JUndefined` stands for a
      property that is absent or `undefined` (it is dropped on serialisation). */
  datatype Json =
    | JUndefined
    | JBool(b: bool)
    | JNum(n: int)
    | JStr(s: string)
    | JArr(items: seq<Json>)
    | JObj(fields: map<string, Json>)

  /** JavaScript truthiness of the values above: `undefined`, `false`, `0` and
      `""` are falsy; every array and object is truthy. */
  predicate Truthy(j: Json) {
    match j
    case JUndefined => false
    case JBool(b) => b
    case JNum(n) => n != 0
    case JStr(s) => s != ""
    case _ => true
  }

  /** `j || fallback` */
  function OrElse(j: Json, fallback: Json): (r: Json)
    ensures Truthy(j) ==> r == j
    ensures !Truthy(j) ==> r == fallback
  {
    if Truthy(j) then j else fallback
  }

  /** Reading a property of a parsed body: `undefined` when it is absent. */
  function Lookup(body: map<string, string>, key: string): (r: Option<string>)
    ensures r.Some? <==> key in body
    ensures r.Some? ==> r.value == body[key]
  {
    if key in body then Some(body[key]) else None
  }

  /** `String(v)`: a missing value is converted to the text "undefined". */
  function JsString(v: Option<string>): string {
    match v
    case Some(s) => s
    case None => "undefined"
  }

  /** `typeof v` for a property that is a string or absent. */
  function TypeOf(v: Option<string>): string {
    if v.Some? then "string" else "undefined"
  }
}
