/**
  Decoded JSON values as code/build_training_data_from_llm.py sees them
  after `json.loads`, with Python's truthiness, `dict.get` and the `or`
  chains the script uses to tolerate different key names.
 */
module Json {

  datatype JsonValue =
    | JNull
    | JBool(b: bool)
    | JNumber(n: real)
    | JString(s: string)
    | JArray(items: seq<JsonValue>)
    | JObject(fields: map<string, JsonValue>)

  /** Python's `bool(v)` for a decoded value: false exactly for `None`,
      `False`, zero, the empty string, the empty list and the empty dict. */
  predicate Truthy(v: JsonValue)
    ensures !Truthy(v) <==> v in {JNull, JBool(false), JNumber(0.0), JString(""), JArray([]), JObject(map[])}
  {
    match v
    case JNull => false
    case JBool(b) => b
    case JNumber(n) => n != 0.0
    case JString(s) => s != ""
    case JArray(items) => items != []
    case JObject(fields) => fields != map[]
  }

  /** `obj.get(key)`: `None` when the key is absent. */
  function Get(obj: map<string, JsonValue>, key: string): (r: JsonValue)
    ensures key in obj ==> r == obj[key]
    ensures key !in obj ==> r == JNull
    ensures Truthy(r) ==> key in obj
  {
    if key in obj then obj[key] else JNull
  }

  /** `v0 or v1 or ... or vn`: the first truthy value, or the last value when
      none is truthy. */
  function FirstTruthy(vs: seq<JsonValue>): (r: JsonValue)
    requires |vs| > 0
    ensures (exists i :: 0 <= i < |vs| && Truthy(vs[i])) ==>
              Truthy(r) && exists i :: 0 <= i < |vs| && vs[i] == r && forall j :: 0 <= j < i ==> !Truthy(vs[j])
    ensures (forall i :: 0 <= i < |vs| ==> !Truthy(vs[i])) ==> r == vs[|vs| - 1]
  {
    if |vs| == 1 || Truthy(vs[0]) then vs[0]
    else
      var r := FirstTruthy(vs[1..]);
      assert forall i :: 1 <= i < |vs| ==> vs[i] == vs[1..][i - 1];
      if exists i :: 1 <= i < |vs| && Truthy(vs[i]) then
        var i :| 0 <= i < |vs| - 1 && vs[1..][i] == r && forall j :: 0 <= j < i ==> !Truthy(vs[1..][j]);
        assert vs[i + 1] == r;
        r
      else r
  }
}
