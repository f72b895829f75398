/** JSON values as `httpx`'s `resp.json()` hands them to the handlers, with the two Python
    operations the handlers apply to them: truthiness and the `in` operator. */
module PyJson {
  import opened Options
  import opened Text

  /** A parsed JSON document. Numbers are integers here; fractional numbers are not part of
      this model. */
  datatype Json =
    | JNull
    | JBool(b: bool)
    | JNum(n: int)
    | JStr(s: string)
    | JArr(items: seq<Json>)
    | JObj(fields: map<string, Json>)

  /** Python truthiness of the value `json.loads` produces: `None`, `False`, `0`, `""`, `[]`
      and `{}` are false, everything else is true. */
  predicate Truthy(j: Json): (t: bool)
    ensures !t <==> j in {JNull, JBool(false), JNum(0), JStr(""), JArr([]), JObj(map[])}
  {
    match j
    case JNull => false
    case JBool(b) => b
    case JNum(n) => n != 0
    case JStr(s) => s != []
    case JArr(items) => items != []
    case JObj(fields) => fields != map[]
  }

  /** `key in j` exactly as Python evaluates it: key membership for a dict, element
      equality for a list, substring search for a string, and a `TypeError` (here `None`) for
      `None`, booleans and numbers. */
  function PyIn(key: string, j: Json): (r: Option<bool>)
    ensures r.None? <==> j.JNull? || j.JBool? || j.JNum?
  {
    match j
    case JObj(fields) => Some(key in fields)
    case JArr(items) => Some(JStr(key) in items)
    case JStr(s) => Some(HasSubstring(s, key))
    case _ => None
  }

  /** Whatever holds a non-empty key is truthy, so for such a key `j and key in j` is just
      `key in j`. */
  lemma HoldingIsTruthy(key: string, j: Json)
    requires key != [] && PyIn(key, j) == Some(true)
    ensures Truthy(j)
  {
    if j.JStr? {
      assert |j.s| >= |key|;
    }
  }

  /** `resp.json()` as the handlers see it: a body that fails to parse and the JSON literal
      `null` both come back as Python `None`. */
  function ResponseJson(parsed: Option<Json>): (rj: Option<Json>)
    ensures rj.Some? ==> parsed == rj && !rj.value.JNull?
    ensures rj.None? ==> parsed.None? || parsed.value.JNull?
  {
    if parsed.Some? && parsed.value.JNull? then None else parsed
  }
}
