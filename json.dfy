/**
 * JSON values as Python's `json` module produces them: objects are dictionaries
 * whose keys are unique and keep their insertion order. Numbers are integers here.
 */
module Json {
  import opened Wrappers

  datatype Json =
    | JNull
    | JBool(b: bool)
    | JNumber(n: int)
    | JString(s: string)
    | JArray(items: seq<Json>)
    | JObject(fields: seq<(string, Json)>)

  /** The keys of an object's fields, in order. */
  function Keys(fields: seq<(string, Json)>): (r: seq<string>)
    ensures |r| == |fields| && forall k :: 0 <= k < |fields| ==> r[k] == fields[k].0
  {
    if fields == [] then [] else [fields[0].0] + Keys(fields[1..])
  }

  /** `d.get(key)`: the value stored under the key, or None. */
  function Get(fields: seq<(string, Json)>, key: string): (r: Option<Json>)
    ensures r.None? <==> forall k :: 0 <= k < |fields| ==> fields[k].0 != key
    ensures r.Some? ==> exists k :: 0 <= k < |fields| && fields[k] == (key, r.value)
  {
    if fields == [] then None
    else if fields[0].0 == key then Some(fields[0].1)
    else Get(fields[1..], key)
  }

  /** The value under a key is the one of its first field. */
  lemma {:induction false} GetAt(fields: seq<(string, Json)>, k: nat)
    requires k < |fields| && forall i :: 0 <= i < k ==> fields[i].0 != fields[k].0
    ensures Get(fields, fields[k].0) == Some(fields[k].1)
  {
    if k > 0 {
      GetAt(fields[1..], k - 1);
    }
  }

  /** `d[key] = value` for a key already present: the value changes in place, the order does not. */
  function Replace(fields: seq<(string, Json)>, key: string, value: Json): (r: seq<(string, Json)>)
    ensures Keys(r) == Keys(fields)
    ensures forall other :: other != key ==> Get(r, other) == Get(fields, other)
    ensures Get(fields, key).Some? ==> Get(r, key) == Some(value)
  {
    if fields == [] then []
    else if fields[0].0 == key then [(key, value)] + fields[1..]
    else [fields[0]] + Replace(fields[1..], key, value)
  }
}
