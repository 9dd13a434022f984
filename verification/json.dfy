/** JSON-shaped values as the connector sees them after the API client decoded a
    response, together with Python's truthiness and `str()` on them. */
module Json {
  import Text

  /** A decoded JSON document. Numbers are integers: no response field the
      connector inspects is fractional. */
  datatype Value =
    | Null
    | Bool(b: bool)
    | Num(n: int)
    | Str(s: string)
    | Arr(items: seq<Value>)
    | Obj(fields: map<string, Value>)

  /** Python's truth test: `None`, `False`, `0` and empty containers are false. */
  predicate Truthy(v: Value) {
    match v
    case Null => false
    case Bool(b) => b
    case Num(n) => n != 0
    case Str(s) => s != ""
    case Arr(items) => items != []
    case Obj(fields) => fields != map[]
  }

  /** Python's `str()` (what `"{0}".format(v)` prints) for scalar values. */
  function Show(v: Value): (r: string)
    ensures v.Str? ==> r == v.s
    ensures v.Null? ==> r == "None"
    ensures v.Num? ==> Text.IsDecimal(r) && Text.DecimalValue(r) == v.n
    ensures v.Num? && r[0] == '0' ==> r == "0"
    ensures v.Num? && r[0] == '-' ==> r[1] != '0'
  {
    match v
    case Null => "None"
    case Bool(b) => if b then "True" else "False"
    case Num(n) => Text.IntToString(n)
    case Str(s) => s
    case Arr(_) => "[...]"
    case Obj(_) => "{...}"
  }
}
