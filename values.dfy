/** Plain values shared by every part of the hook engine: optional values
    (JavaScript's `null` / `undefined` against a present value) and the
    plain structured data that entities and payloads are made of. */
module Values {

  /** A value that may be absent: `None` stands for `null` or `undefined`. */
  datatype Option<+T> = None | Some(value: T)

  /** The plain structured representation of a document (what
      `toObject()` and `JSON.parse` produce). Numbers are integers here. */
  datatype Json =
    | JNull
    | JBool(b: bool)
    | JNum(n: int)
    | JStr(s: string)
    | JArr(items: seq<Json>)
    | JObj(fields: map<string, Json>)

  /** The empty object literal `{}`. */
  const EmptyObject: Json := JObj(map[])

  /** JavaScript truthiness of an optional string field: absent and the
      empty string are falsy, every other string is truthy. */
  predicate Truthy(s: Option<string>) {
    s.Some? && s.value != ""
  }
}
