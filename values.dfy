/** The Python values that flow through the batch logic: what `json.loads`
    returns and what `config_parse` puts in its dictionaries. Python's `None`
    and JSON `null` are the same value, `JNull`. A JSON number is an integer
    or, when written with a fraction or an exponent, or as `Infinity`,
    `-Infinity` or `NaN` (all of which `json.loads` accepts), a float. */
module Values {

  datatype Json =
    | JNull
    | JBool(b: bool)
    | JNum(n: int)
    | JFloat(f: Float)
    | JStr(s: string)
    | JArr(items: seq<Json>)
    | JObj(fields: map<string, Json>)

  /** A Python float: a finite value, an infinity, or not a number. The
      rounding of binary floating point is not modelled. */
  datatype Float = Finite(x: real) | Infinite(negative: bool) | NaN

  /** Python's `bool(v)`: `None`, `False`, `0`, `0.0`, `''`, `[]` and `{}` are
      false; an infinity and NaN are true. */
  predicate Truthy(v: Json)
  {
    match v
    case JNull => false
    case JBool(b) => b
    case JNum(n) => n != 0
    case JFloat(f) => !(f.Finite? && f.x == 0.0)
    case JStr(s) => s != []
    case JArr(items) => items != []
    case JObj(fields) => fields != map[]
  }

  /** `m.get(key, default)`. */
  function Get(m: map<string, Json>, key: string, default: Json): (r: Json)
    ensures key in m ==> r == m[key]
    ensures key !in m ==> r == default
  {
    if key in m then m[key] else default
  }

  /** Python's `a or b`: `a` when it is true, else `b`. */
  function Or(a: Json, b: Json): (r: Json)
    ensures Truthy(a) ==> r == a
    ensures !Truthy(a) ==> r == b
  {
    if Truthy(a) then a else b
  }
}
