/**
 * The values that flow through genox: YAML-loaded metadata, page contexts
 * (Python dicts from string keys to such values) and the failure-carrying
 * wrappers that stand for the exceptions the program raises.
 */
module Values {

  datatype Option<+T> = None | Some(value: T)

  datatype Result<+T, +E> = Success(value: T) | Failure(error: E)

  /** A value a YAML document can load to, as far as genox looks at it. */
  datatype Value =
    | Null
    | Bool(b: bool)
    | Int(i: int)
    | Str(s: string)
    | List(items: seq<Value>)
    | Mapping(entries: map<string, Value>)
    | Other(nonzero: bool)  // a float, date or timestamp: genox only asks whether it is truthy

  /** A page context: the dict that index builds per source file and build renders. */
  type Context = map<string, Value>

  /** Python truthiness, as used by `metadata or {}` and `if slug:`. */
  predicate Truthy(v: Value)
  {
    match v
    case Null => false
    case Bool(b) => b
    case Int(i) => i != 0
    case Str(s) => s != ""
    case List(items) => items != []
    case Mapping(entries) => entries != map[]
    case Other(nonzero) => nonzero
  }

  /** `context.get(key)`: the value stored under key, or None when it is absent. */
  function Get(ctx: Context, key: string): Value
  {
    if key in ctx then ctx[key] else Null
  }
}
