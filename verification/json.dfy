/**
 * Python values as they arrive from parsed JSON: the shapes the planner's
 * normalisers inspect with `isinstance`, plus the few built-ins they apply
 * to them (`str()`, `int()`, truthiness, `dict.get`, `dict.setdefault`).
 * Objects are maps: no behaviour of the planner depends on key order of
 * task or group objects.
 */
module PyJson {
  import opened Wrappers
  import opened Strings

  datatype Json =
    | JNull
    | JBool(b: bool)
    | JInt(i: int)
    | JStr(s: string)
    | JArr(items: seq<Json>)
    | JObj(fields: map<string, Json>)

  type Obj = map<string, Json>

  /** Python truthiness (`if v:` / `v or default`). */
  predicate Truthy(v: Json) {
    match v
    case JNull => false
    case JBool(b) => b
    case JInt(i) => i != 0
    case JStr(s) => |s| > 0
    case JArr(a) => |a| > 0
    case JObj(m) => |m| > 0
  }

  /** Python `str(v)`. Lists and objects render as a fixed marker. */
  function PyStr(v: Json): string {
    match v
    case JNull => "None"
    case JBool(b) => if b then "True" else "False"
    case JInt(i) => IntToString(i)
    case JStr(s) => s
    case JArr(_) => "[...]"
    case JObj(_) => "{...}"
  }

  /** Python `int(v)`; `None` where `int()` raises. */
  function PyInt(v: Json): (r: Option<int>)
    ensures v.JInt? ==> r == Some(v.i)
    ensures (v.JNull? || v.JArr? || v.JObj?) ==> r.None?
  {
    match v
    case JInt(i) => Some(i)
    case JBool(b) => Some(if b then 1 else 0)
    case JStr(s) => ParseInt(s)
    case _ => None
  }

  /** `isinstance(v, (int, float))` in the integer-only model: `bool` is a subclass of `int`. */
  predicate IsNumber(v: Json) {
    v.JInt? || v.JBool?
  }

  /** The numeric value of a number (`True` is 1). */
  function NumberValue(v: Json): int
    requires IsNumber(v)
  {
    if v.JInt? then v.i else if v.b then 1 else 0
  }

  /** `d.get(k, default)`. */
  function Get(m: Obj, k: string, default: Json): Json {
    if k in m then m[k] else default
  }

  /** `d.setdefault(k, v)` as a new dictionary: an existing value is never overwritten. */
  function SetDefault(m: Obj, k: string, v: Json): (r: Obj)
    ensures k in r && r[k] == (if k in m then m[k] else v)
    ensures r.Keys == m.Keys + {k}
    ensures forall j :: j in m && j != k ==> r[j] == m[j]
  {
    if k in m then m else m[k := v]
  }

  /** `[JStr(s) for s in xs]`. */
  function StrArr(xs: seq<string>): (r: Json)
    ensures r.JArr? && |r.items| == |xs|
    ensures forall i :: 0 <= i < |xs| ==> r.items[i] == JStr(xs[i])
  {
    JArr(seq(|xs|, i requires 0 <= i < |xs| => JStr(xs[i])))
  }
}
