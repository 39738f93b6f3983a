/** JSON values as the services exchange them (Python dicts, lists and scalars). */
module Json {

  /** A JSON value; numbers are integers in this model. */
  datatype Value =
    | Null
    | Bool(b: bool)
    | Num(n: int)
    | Str(s: string)
    | List(items: seq<Value>)
    | Obj(fields: map<string, Value>)

  /** A JSON object, the Python `dict` a service sends or receives. */
  type Dict = map<string, Value>
}
