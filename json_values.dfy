/** Values of the JSON columns a routing-policy rule stores (the dynamic
    filter, the custom-match override and the set actions), with the few
    Python operations the rule evaluator applies to them once decoded:
    truthiness, `dict.get` with a default, and the items that `list.extend`
    takes from a value. */
module JsonValues {

  /** A decoded JSON value. Objects keep their members in the order the
      decoder presents them; a decoded object never repeats a key. */
  datatype Json =
    | JNull
    | JBool(b: bool)
    | JNumber(n: int)
    | JString(s: string)
    | JArray(items: seq<Json>)
    | JObject(fields: seq<Field>)

  datatype Field = Field(key: string, value: Json)

  /** Python truthiness of a decoded value: `None`, `False`, `0`, `""`,
      `[]` and `{}` are false, everything else is true. */
  predicate Truthy(j: Json)
  {
    match j
    case JNull => false
    case JBool(b) => b
    case JNumber(n) => n != 0
    case JString(s) => s != ""
    case JArray(items) => items != []
    case JObject(fields) => fields != []
  }

  /** The empty object `{}`. */
  const EmptyObject := JObject([])

  /** `d.get(key, default)` on a decoded object with members `fields`. */
  function Get(fields: seq<Field>, key: string, default: Json): (r: Json)
    ensures (exists i :: 0 <= i < |fields| && fields[i].key == key) ==> r in ValuesOf(fields, key)
    ensures (forall i :: 0 <= i < |fields| ==> fields[i].key != key) ==> r == default
  {
    if fields == [] then default
    else if fields[0].key == key then fields[0].value
    else Get(fields[1..], key, default)
  }

  /** Every value bound to `key` among `fields` (a set, for stating Get). */
  function ValuesOf(fields: seq<Field>, key: string): set<Json>
  {
    set i | 0 <= i < |fields| && fields[i].key == key :: fields[i].value
  }

  /** A member whose key differs from `key` does not change what `get`
      finds for `key` when it is appended. */
  lemma {:induction false} GetIgnoresOtherKeys(fields: seq<Field>, extra: Field, key: string, default: Json)
    requires extra.key != key
    ensures Get(fields + [extra], key, default) == Get(fields, key, default)
  {
    if fields != [] {
      assert (fields + [extra])[1..] == fields[1..] + [extra];
      GetIgnoresOtherKeys(fields[1..], extra, key, default);
    }
  }

  /** What iterating over a decoded value yields, as `list.extend` does:
      the items of an array, the one-character strings of a string, the keys
      of an object. Null, booleans and numbers are not iterable (None). */
  datatype Iteration = Items(values: seq<Json>) | NotIterable

  function Iterate(j: Json): (r: Iteration)
    ensures r.Items? <==> (j.JArray? || j.JString? || j.JObject?)
    ensures j.JArray? ==> r == Items(j.items)
    ensures j.JString? ==>
              (r.Items? && |r.values| == |j.s|
               && forall i :: 0 <= i < |j.s| ==> r.values[i] == JString([j.s[i]]))
    ensures j.JObject? ==>
              (r.Items? && |r.values| == |j.fields|
               && forall i :: 0 <= i < |j.fields| ==> r.values[i] == JString(j.fields[i].key))
  {
    match j
    case JArray(items) => Items(items)
    case JString(s) => Items(seq(|s|, i requires 0 <= i < |s| => JString([s[i]])))
    case JObject(fields) => Items(seq(|fields|, i requires 0 <= i < |fields| => JString(fields[i].key)))
    case _ => NotIterable
  }

  /** The JSON strings for a sequence of Python strings. */
  function Strings(ss: seq<string>): (r: seq<Json>)
    ensures |r| == |ss| && forall i :: 0 <= i < |ss| ==> r[i] == JString(ss[i])
  {
    seq(|ss|, i requires 0 <= i < |ss| => JString(ss[i]))
  }
}
