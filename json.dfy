/** JavaScript values as the route handlers receive them from
    `request.json()`, plus `undefined`, with JavaScript's notion of
    truthiness. */
module Json {
  import opened Wrappers

  datatype Value =
    | Undefined
    | Null
    | Bool(b: bool)
    | Num(n: int)
    | Str(s: string)
    | Arr(elems: seq<Value>)
    | Obj(fields: map<string, Value>)

  /** `!!v`: everything is truthy except `undefined`, `null`, `false`, `0`
      and the empty string. */
  predicate Truthy(v: Value) {
    match v
    case Undefined => false
    case Null => false
    case Bool(b) => b
    case Num(n) => n != 0
    case Str(s) => s != ""
    case Arr(_) => true
    case Obj(_) => true
  }

  /** `o[k]` on a plain object: `undefined` when the key is absent. */
  function Get(o: map<string, Value>, k: string): (r: Value)
    ensures k !in o ==> r == Undefined
  {
    if k in o then o[k] else Undefined
  }

  /** `v.k` for any value: `None` stands for the TypeError that reading a
      property of `null` or `undefined` throws; other non-objects have no
      such property. */
  function Prop(v: Value, k: string): (r: Option<Value>)
    ensures r.None? <==> v.Undefined? || v.Null?
  {
    match v
    case Undefined => None
    case Null => None
    case Obj(fields) => Some(Get(fields, k))
    case _ => Some(Undefined)
  }
}
