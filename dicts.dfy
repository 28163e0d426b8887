/**
 * Python's insertion-ordered dict with string keys: `keys` is the order in
 * which keys were first inserted (what `list(d.keys())` gives), and `values`
 * the mapping. Assigning to an existing key keeps its position.
 */
module Dicts {
  datatype Dict<V> = Dict(keys: seq<string>, values: map<string, V>) {
    /** Keys are listed once each, and exactly the mapped keys are listed. */
    ghost predicate Valid() {
      && (forall i, j :: 0 <= i < j < |keys| ==> keys[i] != keys[j])
      && (forall k :: k in values <==> k in keys)
    }
  }

  /** `{}` */
  function Empty<V>(): (d: Dict<V>)
    ensures d.Valid() && d.keys == [] && d.values == map[]
  {
    Dict([], map[])
  }

  /** `d[k] = v`: a new key goes last, an existing key keeps its place and gets the new value. */
  function Put<V>(d: Dict<V>, k: string, v: V): (r: Dict<V>)
    requires d.Valid()
    ensures r.Valid()
    ensures r.values == d.values[k := v]
    ensures r.keys == if k in d.values then d.keys else d.keys + [k]
  {
    if k in d.values then Dict(d.keys, d.values[k := v]) else Dict(d.keys + [k], d.values[k := v])
  }

  /** An empty dict is falsy: `not d` holds exactly when nothing is mapped. */
  lemma EmptyIffNoKeys<V>(d: Dict<V>)
    requires d.Valid()
    ensures d.keys == [] <==> d.values == map[]
  {
    if d.keys != [] {
      assert d.keys[0] in d.values;
    }
  }
}
