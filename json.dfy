/** The JSON-representable part of a parsed document node, as the document
    loader hands it over. */
module Json {

  datatype Json =
    | JNull
    | JBool(b: bool)
    | JNumber(n: real)
    | JString(s: string)
    | JArray(items: seq<Json>)
    | JObject(fields: map<string, Json>)

  /** `j` is an object whose `key` holds exactly `v`. */
  predicate HasField(j: Json, key: string, v: Json) {
    j.JObject? && key in j.fields && j.fields[key] == v
  }

  /** `wide` is `narrow` with extra object keys, at any depth (inside array
      elements too; arrays keep their length). */
  ghost predicate Extends(wide: Json, narrow: Json)
    decreases narrow
  {
    match narrow
    case JObject(fields) =>
      && wide.JObject?
      && fields.Keys <= wide.fields.Keys
      && forall k :: k in fields ==> Extends(wide.fields[k], fields[k])
    case JArray(items) =>
      && wide.JArray?
      && |wide.items| == |items|
      && forall i :: 0 <= i < |items| ==> Extends(wide.items[i], items[i])
    case _ => wide == narrow
  }
}
