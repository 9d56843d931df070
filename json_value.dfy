/** The values json.loads produces, with the two Python operations the core
    applies to them: truthiness (used by the name check) and len(). */
module JsonValue {
  import opened Common

  datatype Json =
    | Null
    | Bool(b: bool)
    | Number(n: real)
    | Str(s: string)
    | Array(items: seq<Json>)
    | Object(fields: map<string, Json>)

  /** Python truthiness of a decoded value: None, False, 0, "", [] and {}
      are false. */
  predicate Truthy(j: Json)
  {
    match j
    case Null => false
    case Bool(b) => b
    case Number(n) => n != 0.0
    case Str(s) => s != []
    case Array(items) => items != []
    case Object(fields) => fields != map[]
  }

  /** Python len(): defined on str, list and dict; a TypeError (None here)
      on null, booleans and numbers. */
  function Len(j: Json): (r: Option<nat>)
    ensures r.None? <==> j.Null? || j.Bool? || j.Number?
  {
    match j
    case Str(s) => Some(|s|)
    case Array(items) => Some(|items|)
    case Object(fields) => Some(|fields|)
    case _ => None
  }
}
