/** JSON values (`serde_json::Value`) and the flat records built from them. */
module Json {

  /** A JSON value. An object's members are kept in the order the map
      iterates them; numbers are kept as the rational they denote. */
  datatype Json =
    | Null
    | Bool(b: bool)
    | Num(n: real)
    | Str(s: string)
    | Arr(items: seq<Json>)
    | Obj(fields: seq<Field>)

  datatype Field = Field(key: string, value: Json)

  /** `HashMap<String, Value>`: a placeholder map, or one flattened record. */
  type Record = map<string, Json>
}
