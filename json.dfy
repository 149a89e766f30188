/** The decoded JSON values that the log pipeline handles, and the Python
    operations it applies to them: `dict.get`, truthiness, `len`, iteration,
    `int()`, `==` against an integer, and `str()`. */
module Json {
  import opened Wrappers
  import opened Text

  /** A value produced by `json.loads`. An object keeps its members in insertion
      order with distinct keys, as a Python dict does. */
  datatype JsonValue =
    | JNull
    | JBool(b: bool)
    | JInt(i: int)
    | JReal(r: real)
    | JStr(s: string)
    | JArr(items: seq<JsonValue>)
    | JObj(members: seq<(string, JsonValue)>)

  /** The value stored under `key`, if any. */
  function Lookup(members: seq<(string, JsonValue)>, key: string): (r: Option<JsonValue>)
    ensures r.Some? <==> exists k :: 0 <= k < |members| && members[k].0 == key
    ensures r.Some? ==> exists k :: 0 <= k < |members| && members[k] == (key, r.value)
  {
    if |members| == 0 then None
    else if members[0].0 == key then Some(members[0].1)
    else
      var r := Lookup(members[1..], key);
      assert forall k :: 1 <= k < |members| ==> members[k] == members[1..][k - 1];
      r
  }

  /** `entry.get(key, default)`: `None` stands for the AttributeError raised when
      `entry` is not a dict. */
  function Get(entry: JsonValue, key: string, default: JsonValue): (r: Option<JsonValue>)
    ensures r.Some? <==> entry.JObj?
    ensures entry.JObj? && Lookup(entry.members, key).None? ==> r == Some(default)
  {
    if entry.JObj? then Some(Lookup(entry.members, key).GetOr(default)) else None
  }

  /** Python truthiness: `None`, `False`, zero, and empty strings, lists and dicts are false. */
  predicate Truthy(v: JsonValue) {
    match v
    case JNull => false
    case JBool(b) => b
    case JInt(i) => i != 0
    case JReal(r) => r != 0.0
    case JStr(s) => s != ""
    case JArr(items) => items != []
    case JObj(members) => members != []
  }

  /** Python `int(x)` of a float: truncation toward zero. */
  function Truncate(r: real): (n: int)
    ensures r >= 0.0 ==> n as real <= r < n as real + 1.0
    ensures r < 0.0 ==> n as real - 1.0 < r <= n as real
  {
    if r >= 0.0 then r.Floor else -((-r).Floor)
  }

  /** Python `int(v)`; `None` stands for the ValueError or TypeError that the
      caller turns into 0. Strings follow the restricted decimal syntax of `PyInt`. */
  function IntOf(v: JsonValue): (r: Option<int>)
    ensures v.JInt? ==> r == Some(v.i)
    ensures v.JNull? || v.JArr? || v.JObj? ==> r.None?
  {
    match v
    case JNull => None
    case JBool(b) => Some(if b then 1 else 0)
    case JInt(i) => Some(i)
    case JReal(r) => Some(Truncate(r))
    case JStr(s) => PyInt(s)
    case JArr(_) => None
    case JObj(_) => None
  }

  /** What `for x in v` visits and what `len(v)` counts: the items of a list, the
      one-character strings of a string, the keys of a dict. `None` stands for the
      TypeError raised by `len` on anything else. */
  function Iterated(v: JsonValue): (r: Option<seq<JsonValue>>)
    ensures r.Some? <==> v.JArr? || v.JStr? || v.JObj?
    ensures v.JArr? ==> r == Some(v.items)
    ensures v.JStr? ==> r.Some? && |r.value| == |v.s|
    ensures v.JObj? ==> r.Some? && |r.value| == |v.members|
  {
    match v
    case JArr(items) => Some(items)
    case JStr(s) => Some(seq(|s|, i requires 0 <= i < |s| => JStr([s[i]])))
    case JObj(members) => Some(seq(|members|, i requires 0 <= i < |members| => JStr(members[i].0)))
    case _ => None
  }

  /** Python `v == n` for an integer `n` (`True == 1` and `3.0 == 3` hold). */
  predicate EqualsInt(v: JsonValue, n: int) {
    match v
    case JBool(b) => (if b then 1 else 0) == n
    case JInt(i) => i == n
    case JReal(r) => r == n as real
    case _ => false
  }

  /** Python `str(v)`. Floats, lists and dicts are printed by `render`, which
      stands for Python's own float and container formatting. */
  function PyStr(v: JsonValue, render: JsonValue -> string): string {
    match v
    case JNull => "None"
    case JBool(b) => if b then "True" else "False"
    case JInt(i) => IntToString(i)
    case JStr(s) => s
    case _ => render(v)
  }
}
