/** JSON values as the store keeps them: a document is always a JSON object,
    i.e. a map from member names to values. */
module Json {

  import opened Wrappers

  /** A JSON value. Numbers are integers here (the store only ever does
      arithmetic on millisecond timestamps). */
  datatype Value =
    | Null
    | Bool(b: bool)
    | Num(n: int)
    | Str(s: string)
    | Arr(items: seq<Value>)
    | Obj(fields: map<string, Value>)

  /** The top-level object stored in one entry file. */
  type Doc = map<string, Value>

  /** Object spread `{...base, ...patch}`: every member of `patch` wins,
      every other member of `base` survives, nothing else appears. */
  function Spread(base: Doc, patch: Doc): (r: Doc)
    ensures r.Keys == base.Keys + patch.Keys
    ensures forall k :: k in patch ==> r[k] == patch[k]
    ensures forall k :: k in base && k !in patch ==> r[k] == base[k]
  {
    base + patch
  }

  /** `{...doc, [k]: v}` is `doc` with `k` set to `v`, and spreading it
      over `doc` once more changes nothing. */
  lemma SpreadOne(doc: Doc, k: string, v: Value)
    ensures Spread(doc, map[k := v]) == doc[k := v]
    ensures Spread(doc, doc[k := v]) == doc[k := v]
  {
    assert Spread(doc, map[k := v]).Keys == doc[k := v].Keys;
  }

  /** `doc.field`: the member's value, or None for `undefined`. */
  function Member(doc: Doc, field: string): (r: Option<Value>)
    ensures r.Some? <==> field in doc
    ensures r.Some? ==> r.value == doc[field]
  {
    if field in doc then Some(doc[field]) else None
  }
}
