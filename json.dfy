/**
  The structured values the ledger stores and hashes: what `json.load` produces.
  Numbers are integers only (floating point is not part of this model).
 */
module JsonValue {
  import opened Wrappers

  datatype Json =
    | Null
    | Bool(boolValue: bool)
    | Num(numValue: int)
    | Str(strValue: string)
    | Arr(items: seq<Json>)
    | Obj(fields: map<string, Json>)

  /** Python truthiness: `not v` holds exactly when this is false. */
  predicate Truthy(v: Json)
  {
    match v
    case Null => false
    case Bool(b) => b
    case Num(n) => n != 0
    case Str(s) => s != []
    case Arr(a) => a != []
    case Obj(m) => m != map[]
  }

  /** `v.get(key)` on a dictionary; `None` when the key is absent. */
  function Get(fields: map<string, Json>, key: string): (r: Option<Json>)
    ensures r.Some? <==> key in fields
    ensures r.Some? ==> r.value == fields[key]
  {
    if key in fields then Some(fields[key]) else None
  }
}
