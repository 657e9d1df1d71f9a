/** The JSON documents the rewriter edits: `serde_json::Value`, whose objects
    keep their fields in insertion order. */
module Json {

  datatype Value =
    | Null
    | Bool(b: bool)
    | Number(n: int)
    | String(s: string)
    | Array(items: seq<Value>)
    | Object(fields: seq<(string, Value)>)
}
