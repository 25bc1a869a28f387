/** The Python values the two handlers see: JSON values as `json.loads` returns them,
    Python's truth value, and the identity a value has as a dict or Counter key. */
module Values {
  /** A parsed JSON value. A JSON number written with a fraction or an exponent is a
      Python float; the model keeps the exact decimal value it denotes. */
  datatype Json =
    | JNull
    | JBool(b: bool)
    | JInt(i: int)
    | JFloat(r: real)
    | JStr(s: string)
    | JArr(items: seq<Json>)
    | JObj(fields: map<string, Json>)

  /** Python's `bool(v)`: None, False, zero, "" and empty containers are falsy. */
  predicate Truthy(v: Json) {
    match v
    case JNull => false
    case JBool(b) => b
    case JInt(i) => i != 0
    case JFloat(r) => r != 0.0
    case JStr(s) => s != ""
    case JArr(a) => a != []
    case JObj(m) => m != map[]
  }

  /** Lists and dicts are unhashable: using one as a dict key raises TypeError. */
  predicate Hashable(v: Json) {
    !v.JArr? && !v.JObj?
  }

  /** What decides whether two hashable values are the same dict key. Python compares
      numbers by value across types, so True, 1 and 1.0 are one key. */
  datatype Key = KNone | KNum(n: real) | KStr(s: string)

  function KeyOf(v: Json): Key
    requires Hashable(v)
  {
    match v
    case JNull => KNone
    case JBool(b) => KNum(if b then 1.0 else 0.0)
    case JInt(i) => KNum(i as real)
    case JFloat(r) => KNum(r)
    case JStr(s) => KStr(s)
  }

  /** `d.get(name, default)` on a dict. */
  function GetOr(fields: map<string, Json>, name: string, default: Json): Json {
    if name in fields then fields[name] else default
  }

  /** `record.get(name)` on a record already known to be a dict; None when absent. */
  function FieldOf(record: Json, name: string): Json
    requires record.JObj?
  {
    GetOr(record.fields, name, JNull)
  }
}
