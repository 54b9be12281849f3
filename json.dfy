/** The parsed JSON document the schema adapter consumes (serde_json's `Value`): the
    value forms of section 3 of RFC 8259, with an object (section 4) as a map from
    member names to values. */
module JsonValue {

  datatype Value =
    | Null
    | Bool(b: bool)
    | Number(n: int)
    | String(s: string)
    | Array(items: seq<Value>)
    | Object(members: map<string, Value>)
}
