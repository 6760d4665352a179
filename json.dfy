/** The JSON values the data and settings files hold, with Python's reading of them. */
module Json {
  import opened Wrappers

  /** A parsed JSON value; numbers are kept as reals (Python reads them as int or float). */
  datatype Json =
    | JNull
    | JBool(b: bool)
    | JNum(n: real)
    | JStr(s: string)
    | JArr(items: seq<Json>)
    | JObj(fields: map<string, Json>)

  /** Python truthiness of a parsed value: false, null, zero and empty containers are false. */
  predicate Truthy(j: Json) {
    match j
    case JNull => false
    case JBool(b) => b
    case JNum(n) => n != 0.0
    case JStr(s) => s != ""
    case JArr(items) => items != []
    case JObj(fields) => fields != map[]
  }

  /** `d.get(k)`: the value under `k`, or None (which Python treats as false). */
  function Get(d: map<string, Json>, k: string): (r: Option<Json>)
    ensures r.Some? <==> k in d
    ensures r.Some? ==> r.value == d[k]
  {
    if k in d then Some(d[k]) else None
  }

  /** `bool(d.get(k))`. */
  predicate GetTruthy(d: map<string, Json>, k: string) {
    k in d && Truthy(d[k])
  }
}
