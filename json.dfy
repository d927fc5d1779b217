/** JSON values as they arrive in a request body and leave in a response. */
module Json {

  datatype Value =
    | Null
    | Bool(b: bool)
    | Num(n: int)
    | Str(s: string)
    | Array(items: seq<Value>)
    | Object(fields: map<string, Value>)

  /** A JSON object: the request body, or a row handed to the database. */
  type Record = map<string, Value>
}
