/** JSON values as `requests`' `.json()` hands them to Python, and the two
    Python operations the pipeline applies to them: `str()` (in f-strings) and
    truthiness (in `if not content`). */
module PyValue {
  import opened PyStr

  datatype Json = Null | Bool(b: bool) | Int(n: int) | Str(s: string)

  /** A JSON object, i.e. a Python `dict` with string keys. */
  type JsonObject = map<string, Json>

  /** Python's `str(v)`, which is what an f-string substitutes. */
  function Text(v: Json): string {
    match v
    case Null => "None"
    case Bool(b) => if b then "True" else "False"
    case Int(n) => IntText(n)
    case Str(s) => s
  }

  /** Python's `bool(v)`. */
  predicate Truthy(v: Json) {
    match v
    case Null => false
    case Bool(b) => b
    case Int(n) => n != 0
    case Str(s) => s != ""
  }

  /** Python's `obj.get(key, default)`: the default is used only when the key
      is absent, never for a key that is present with a `null` value. */
  function Get(obj: JsonObject, key: string, default: Json): Json {
    if key in obj then obj[key] else default
  }
}
