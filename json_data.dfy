/** The JSON values of Scryfall's card dump as `json.load` returns them, and
    how a value copied into a card record looks to the search code. */
module JsonData {
  import opened Wrappers
  import opened QueryEngine

  /** A JSON value. An object keeps its keys in document order; as in the
      dict `json.load` builds, each key is listed once. */
  datatype Json =
    | JString(s: string)
    | JInt(n: int)
    | JBool(b: bool)
    | JNull
    | JArray(elems: seq<Json>)
    | JObject(fields: seq<(string, Json)>)

  /** A card of the dump: a JSON object, by key. */
  type Card = map<string, Json>

  /** `d.get(key)` on an object's fields. */
  function Lookup(fields: seq<(string, Json)>, key: string): (r: Option<Json>)
    ensures r.Some? <==> exists i :: 0 <= i < |fields| && fields[i].0 == key
    ensures r.Some? ==> exists i :: 0 <= i < |fields| && fields[i] == (key, r.value)
  {
    if fields == [] then None
    else if fields[0].0 == key then Some(fields[0].1)
    else
      var r := Lookup(fields[1..], key);
      assert forall i :: 1 <= i < |fields| ==> fields[i] == fields[1..][i - 1];
      r
  }

  /** Python's truth value of a JSON value: "", 0, false, null, [] and {}
      are false. */
  predicate Truthy(j: Json) {
    match j
    case JString(s) => s != []
    case JInt(n) => n != 0
    case JBool(b) => b
    case JNull => false
    case JArray(es) => es != []
    case JObject(fs) => fs != []
  }

  /** `len(j)`, or `None` where `len` raises `TypeError`. */
  function Size(j: Json): Option<nat> {
    match j
    case JString(s) => Some(|s|)
    case JArray(es) => Some(|es|)
    case JObject(fs) => Some(|fs|)
    case _ => None
  }

  /** All elements of a list are strings. */
  predicate AllStrings(es: seq<Json>) {
    forall e <- es :: e.JString?
  }

  /** The value a record field holds as `Filter.check` sees it. A boolean is
      an `int` to Python's `isinstance`, so it compares as 0 or 1. An
      object, or a list holding something other than strings, becomes
      `Null`: like a dict, it matches no comparison. */
  function ToValue(j: Json): (v: Value)
    ensures j.JString? ==> v == Str(j.s)
    ensures j.JInt? ==> v == Int(j.n)
    ensures j.JArray? && AllStrings(j.elems) ==>
      v.List? && |v.items| == |j.elems| && forall i :: 0 <= i < |j.elems| ==> j.elems[i] == JString(v.items[i])
  {
    match j
    case JString(s) => Str(s)
    case JInt(n) => Int(n)
    case JBool(b) => Int(if b then 1 else 0)
    case JNull => Null
    case JArray(es) =>
      assert forall i :: 0 <= i < |es| ==> es[i] in es;
      if AllStrings(es) then List(seq(|es|, i requires 0 <= i < |es| => es[i].s)) else Null
    case JObject(_) => Null
  }
}
