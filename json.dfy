/** JSON values as `json.load` returns them, and Python's `in` operator
    applied to a string and such a value. */
module Json {
  import opened Wrappers
  import opened Strings

  /** `null`, booleans, numbers, strings, arrays (Python lists) and objects
      (Python dicts). Numbers are kept exact. */
  datatype Json =
    | JNull
    | JBool(b: bool)
    | JNum(n: real)
    | JStr(s: string)
    | JArr(items: seq<Json>)
    | JObj(fields: map<string, Json>)

  /** `needle in v`: element test on a list, key test on a dict, substring
      test on a string; `None` stands for the TypeError Python raises for
      `null`, booleans and numbers, which are not containers. */
  function Contains(needle: string, v: Json): (r: Option<bool>)
    ensures r.None? <==> (v.JNull? || v.JBool? || v.JNum?)
    ensures v.JArr? ==> r == Some(JStr(needle) in v.items)
    ensures v.JObj? ==> r == Some(needle in v.fields)
    ensures v.JStr? ==> r == Some(IsSubstring(needle, v.s))
  {
    match v
    case JArr(items) => Some(JStr(needle) in items)
    case JObj(fields) => Some(needle in fields)
    case JStr(s) => Some(IsSubstring(needle, s))
    case _ => None
  }
}
