/** JSON values as `json.load` returns them and `json.dump` writes them; an object keeps its keys in order. */
module Json {
  import opened Wrappers

  datatype Json =
    | Null
    | Bool(b: bool)
    | Int(i: int)
    | Float(r: real)
    | Str(s: string)
    | Array(items: seq<Json>)
    | Object(fields: seq<(string, Json)>)

  /** Python's truth value of the loaded value. */
  predicate Truthy(j: Json) {
    match j
    case Null => false
    case Bool(b) => b
    case Int(i) => i != 0
    case Float(r) => r != 0.0
    case Str(s) => s != ""
    case Array(items) => items != []
    case Object(fields) => fields != []
  }

  /** The keys of an object's fields, as a set. */
  function Keys(fields: seq<(string, Json)>): (ks: set<string>)
    ensures forall i :: 0 <= i < |fields| ==> fields[i].0 in ks
    ensures forall k :: k in ks ==> exists i :: 0 <= i < |fields| && fields[i].0 == k
  {
    set i | 0 <= i < |fields| :: fields[i].0
  }

  /** The value of the first field named `key`. */
  function Lookup(fields: seq<(string, Json)>, key: string): (r: Option<Json>)
    ensures r.Some? <==> key in Keys(fields)
  {
    if fields == [] then None
    else if fields[0].0 == key then Some(fields[0].1)
    else Lookup(fields[1..], key)
  }

  /** No key occurs twice, as in a Python dict. */
  predicate DistinctKeys(fields: seq<(string, Json)>) {
    forall i, j :: 0 <= i < j < |fields| ==> fields[i].0 != fields[j].0
  }
}
