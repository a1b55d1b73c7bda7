/** Parsed JSON documents as the Python `json` module hands them to the
    validator, and the few Python behaviours of those values that it relies
    on: truthiness, `dict.get`, and the type names that appear in exception
    messages. */
module JsonData {

  /** A parsed JSON value; an object is a dictionary from member name to
      value. */
  datatype Json =
    | Null
    | Bool(b: bool)
    | Int(i: int)
    | Str(s: string)
    | Array(items: seq<Json>)
    | Object(members: map<string, Json>)

  /** The value, or the text of the Python exception that replaced it. */
  datatype Result<T> = Ok(value: T) | Err(message: string)

  /** `bool(j)` in Python. */
  predicate Truthy(j: Json) {
    match j
    case Null => false
    case Bool(b) => b
    case Int(i) => i != 0
    case Str(s) => s != ""
    case Array(a) => |a| > 0
    case Object(m) => |m| > 0
  }

  /** `type(j).__name__` in Python. */
  function TypeName(j: Json): string {
    match j
    case Null => "NoneType"
    case Bool(_) => "bool"
    case Int(_) => "int"
    case Str(_) => "str"
    case Array(_) => "list"
    case Object(_) => "dict"
  }

  /** `d.get(key)`: `None` when the key is absent. */
  function Get(d: map<string, Json>, key: string): (r: Json)
    ensures key !in d ==> r == Null
    ensures key in d ==> r == d[key]
  {
    if key in d then d[key] else Null
  }

  /** `str(n)` for a Python `int`. */
  function IntToString(n: int): (s: string)
    ensures |s| > 0
    decreases if n < 0 then 1 - n else n
  {
    if n < 0 then "-" + IntToString(-n)
    else if n < 10 then [Digit(n)]
    else IntToString(n / 10) + [Digit(n % 10)]
  }

  function Digit(d: int): char
    requires 0 <= d < 10
  {
    "0123456789"[d]
  }
}
