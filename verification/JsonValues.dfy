/** JSON documents. */
module JsonValues {
  import opened Common

  datatype Json =
    | Null
    | Bool(b: bool)
    | Integer(i: int)
    | Float(text: string)
    | Str(s: string)
    | Array(items: seq<Json>)
    | Object(members: map<string, Json>)

  /** The member of an object; no other value has members. */
  function Member(json: Json, key: string): Option<Json> {
    if json.Object? && key in json.members then Some(json.members[key]) else None
  }
}
