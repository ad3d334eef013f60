/** The JSON document tree used for the AST and for serialised types. */
module JsonValues {

  /**
   * A JSON value. Numbers only appear as source offsets here, so they are
   * naturals; floating-point numbers are not part of this model.
   */
  datatype Json =
    | JNull
    | JBool(b: bool)
    | JNumber(n: nat)
    | JString(s: string)
    | JArray(elements: seq<Json>)
    | JObject(fields: map<string, Json>)
}
