/** JSON values as the program sees them after parsing: objects by key, numbers as exact reals. */
module Json {
  import opened Prelude

  datatype Json =
    | JNull
    | JBool(b: bool)
    | JNum(n: real)
    | JStr(s: string)
    | JArr(items: seq<Json>)
    | JObj(fields: map<string, Json>)

  /** `typeof v === "object" && v !== null`; arrays are objects. */
  predicate IsObject(j: Json) {
    j.JArr? || j.JObj?
  }

  /** Property access; None is `undefined`. Arrays have none of the keys that are asked for. */
  function Get(j: Json, key: string): Option<Json> {
    if j.JObj? && key in j.fields then Some(j.fields[key]) else None
  }

  /** Property access where `undefined` and null lead down the same branch. */
  function Field(j: Json, key: string): Json {
    Get(j, key).GetOr(JNull)
  }

  function Str(j: Json): Option<string> {
    if j.JStr? then Some(j.s) else None
  }

  function Num(j: Json): Option<real> {
    if j.JNum? then Some(j.n) else None
  }

  function Items(j: Json): seq<Json> {
    if j.JArr? then j.items else []
  }

  function OrNull(s: Option<string>): Json {
    if s.Some? then JStr(s.value) else JNull
  }

  function NumOrNull(n: Option<real>): Json {
    if n.Some? then JNum(n.value) else JNull
  }

  /** A key that is left out when there is no value. */
  function Optional(key: string, v: Option<Json>): map<string, Json> {
    if v.Some? then map[key := v.value] else map[]
  }
}
