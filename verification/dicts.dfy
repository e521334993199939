/**
 * Python dictionaries with string keys: the keys in insertion order (the
 * order in which `items()` visits them) together with the entry of each key.
 */
module Dicts {

  datatype Dict<V> = Dict(keys: seq<string>, entries: map<string, V>) {

    /** Every key is listed once, and exactly the listed keys have an entry. */
    predicate Valid() {
      && (forall i, j :: 0 <= i < j < |keys| ==> keys[i] != keys[j])
      && (forall k :: k in entries ==> k in keys)
      && (forall i :: 0 <= i < |keys| ==> keys[i] in entries)
    }

    /** len(d). */
    function Size(): nat {
      |keys|
    }

    /**
     * d[k] = v: a new key goes to the end of the iteration order, an existing
     * key keeps its place and takes the new value.
     */
    function Put(k: string, v: V): (d: Dict<V>)
      ensures Valid() ==> d.Valid()
      ensures d.entries == entries[k := v]
      ensures k in entries ==> d.keys == keys
      ensures k !in entries ==> d.keys == keys + [k]
    {
      if k in entries then Dict(keys, entries[k := v]) else Dict(keys + [k], entries[k := v])
    }
  }

  /** A valid dict has an entry for a key exactly when the key is listed. */
  lemma ListedIffPresent<V>(d: Dict<V>, k: string)
    requires d.Valid()
    ensures k in d.entries <==> k in d.keys
  {
  }

  /** {} */
  function Empty<V>(): (d: Dict<V>)
    ensures d.Valid() && d.keys == [] && d.entries == map[]
  {
    Dict([], map[])
  }

}
