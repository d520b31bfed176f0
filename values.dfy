/**
 * Values shared by the gateway's persistence layers: nullable values and the
 * JSON values that the auth store keeps, with JavaScript's notion of
 * truthiness, which the code uses to test for "present".
 */
module Values {

  /** A value that may be missing: SQL NULL, JavaScript null or undefined. */
  datatype Option<+T> = None | Some(value: T)
  {
    /** The value if present, otherwise the default. */
    function GetOr(default: T): T
    {
      match this
      case Some(v) => v
      case None => default
    }
  }

  /** A value as JSON.parse returns it. */
  datatype Json =
    | JNull
    | JBool(b: bool)
    | JNumber(n: real)
    | JString(s: string)
    | JArray(items: seq<Json>)
    | JObject(fields: map<string, Json>)

  /** JavaScript truthiness of a parsed JSON value (`if (v)`, `v || d`). */
  predicate Truthy(v: Json)
  {
    match v
    case JNull => false
    case JBool(b) => b
    case JNumber(n) => n != 0.0
    case JString(s) => s != ""
    case JArray(_) => true
    case JObject(_) => true
  }

  /** JavaScript truthiness of a nullable string: present and not empty. */
  predicate TruthyText(s: Option<string>)
  {
    s.Some? && s.value != ""
  }
}
