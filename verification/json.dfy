/** Decoded JSON values as the scripts see them after `json.loads`, with
    Python's truthiness and `dict.get`, and the oracles that stand for the
    `json` module and `str()`. */
module Json {
  import opened Base
  import opened Text

  /** A decoded JSON value. Objects are unordered maps: the order in which
      Python keeps dictionary keys only affects how a record is printed. */
  datatype Json =
    | JNull
    | JBool(b: bool)
    | JInt(n: int)
    | JStr(s: string)
    | JList(items: seq<Json>)
    | JObj(fields: map<string, Json>)

  /** Python's `bool(v)` for a decoded JSON value. */
  predicate Truthy(j: Json) {
    match j
    case JNull => false
    case JBool(b) => b
    case JInt(n) => n != 0
    case JStr(s) => |s| > 0
    case JList(xs) => |xs| > 0
    case JObj(m) => |m| > 0
  }

  /** Python's `d.get(k, default)`. */
  function GetOr(m: map<string, Json>, k: string, default: Json): Json {
    if k in m then m[k] else default
  }

  /** `obj.get(k, "")` for a field the script treats as text; "" when the field
      is missing, and also when it is falsy, as `obj.get(k, "") or ""` has it. */
  function TextOf(obj: Json, k: string): string {
    if obj.JObj? && k in obj.fields && obj.fields[k].JStr? then obj.fields[k].s else ""
  }

  /** `obj` is an object whose field `k` is missing or a string: what slicing,
      `.strip()` and `+` on `obj.get(k, "")` need to run without an exception. */
  predicate HasTextField(obj: Json, k: string) {
    obj.JObj? && (k !in obj.fields || obj.fields[k].JStr?)
  }

  /** `obj` is an object whose field `k` is missing, falsy or a string: what
      `obj.get(k, "") or ""` needs before it is used as text. */
  predicate HasTextOrFalsyField(obj: Json, k: string) {
    obj.JObj? && (k !in obj.fields || obj.fields[k].JStr? || !Truthy(obj.fields[k]))
  }

  /** Oracles for `json.loads` (None when it raises), `json.dumps` and `str()`
      on a non-string value. */
  datatype Codec = Codec(parse: string -> Option<Json>, dump: Json -> string, render: Json -> string)

  /** Python's `str(v)`. */
  function Str(v: Json, render: Json -> string): string {
    if v.JStr? then v.s else render(v)
  }

  /** `k in m and m[k]`: the field is present and truthy. */
  predicate Selects(m: map<string, Json>, k: string) {
    k in m && Truthy(m[k])
  }

  /** The loop `for k in keys: if k in m and m[k]: return m[k]`. */
  function FirstTruthy(m: map<string, Json>, keys: seq<string>): (r: Option<Json>)
    ensures r.None? <==> forall i :: 0 <= i < |keys| ==> !Selects(m, keys[i])
    ensures r.Some? ==>
              exists i :: 0 <= i < |keys| && Selects(m, keys[i]) && r.value == m[keys[i]]
                          && forall j :: 0 <= j < i ==> !Selects(m, keys[j])
  {
    if |keys| == 0 then None
    else if Selects(m, keys[0]) then Some(m[keys[0]])
    else
      var r := FirstTruthy(m, keys[1..]);
      assert forall i :: 1 <= i < |keys| ==> keys[i] == keys[1..][i - 1];
      if r.Some? then
        var i :| 0 <= i < |keys[1..]| && Selects(m, keys[1..][i]) && r.value == m[keys[1..][i]]
                 && forall j :: 0 <= j < i ==> !Selects(m, keys[1..][j]);
        assert Selects(m, keys[i + 1]) && r.value == m[keys[i + 1]];
        assert forall j :: 0 <= j < i + 1 ==> !Selects(m, keys[j]) by {
          forall j | 0 <= j < i + 1 ensures !Selects(m, keys[j]) {
            if j > 0 { assert keys[j] == keys[1..][j - 1]; }
          }
        }
        r
      else r
  }

  /** A falsy field is as good as a missing one: the search walks past it. */
  lemma {:induction false} FirstTruthyIgnoresFalsy(m: map<string, Json>, keys: seq<string>, k: string, v: Json)
    requires !Truthy(v)
    ensures FirstTruthy(m[k := v], keys) == FirstTruthy(m - {k}, keys)
  {
    if |keys| > 0 {
      FirstTruthyIgnoresFalsy(m, keys[1..], k, v);
    }
  }

  /** Only the listed keys matter to the search. */
  lemma {:induction false} FirstTruthyIgnoresOtherKeys(m: map<string, Json>, keys: seq<string>, k: string, v: Json)
    requires k !in keys
    ensures FirstTruthy(m[k := v], keys) == FirstTruthy(m, keys)
  {
    if |keys| > 0 {
      FirstTruthyIgnoresOtherKeys(m, keys[1..], k, v);
    }
  }
}
