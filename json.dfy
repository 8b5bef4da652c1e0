/**
 * The outcome of `JSON.parse`, taken as given: the converter never looks
 * inside the parser, only at the value it returns or the error it throws.
 */
module Json {
  import opened Wrappers

  /**
   * A parsed JSON value. Numbers keep their source text (floating point is
   * not modelled); an object is the map `JSON.parse` builds, in which a
   * repeated key has already kept its last value.
   */
  datatype JsonValue =
    | JNull
    | JBool(b: bool)
    | JNumber(text: string)
    | JString(s: string)
    | JArray(items: seq<JsonValue>)
    | JObject(fields: map<string, JsonValue>)

  /** What `JSON.parse(text)` does: throw a SyntaxError with some message, or return a value. */
  datatype ParseOutcome = ParseError(message: string) | Parsed(value: JsonValue)

  /** `Array.isArray(v)`. */
  predicate IsArray(v: JsonValue)
  {
    v.JArray?
  }

  /**
   * `v.f` for a value that is not `null`: the member of an object, `undefined`
   * (None) for an absent member or a non-object.
   */
  function Member(v: JsonValue, f: string): (r: Option<JsonValue>)
    requires !v.JNull?
    ensures r.Some? <==> v.JObject? && f in v.fields
    ensures r.Some? ==> r.value == v.fields[f]
  {
    if v.JObject? && f in v.fields then Some(v.fields[f]) else None
  }
}
