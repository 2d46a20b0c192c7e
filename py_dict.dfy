/** A Python `dict` as the model sees it: its keys in insertion order and a
    map from key to value. Assigning to a present key replaces the value and
    keeps the key's place; a new key goes to the end. */
module PyDict {
  import opened Tally

  datatype Dict<K, V> = Dict(keys: seq<K>, entries: map<K, V>)

  /** The keys are listed once each, and exactly the keys have entries. */
  predicate Valid<K(==), V>(d: Dict<K, V>) {
    && NoDuplicates(d.keys)
    && (forall i :: 0 <= i < |d.keys| ==> d.keys[i] in d.entries)
    && (forall k | k in d.entries :: k in d.keys)
  }

  function Empty<K, V>(): (d: Dict<K, V>)
    ensures Valid(d) && d.keys == []
  {
    Dict([], map[])
  }

  /** `d[k] = v`. */
  function Put<K(==), V>(d: Dict<K, V>, k: K, v: V): (r: Dict<K, V>)
    requires Valid(d)
    ensures Valid(r)
    ensures r.entries == d.entries[k := v]
  {
    Dict(if k in d.keys then d.keys else d.keys + [k], d.entries[k := v])
  }

  /** `d.get(k, default)`. */
  function GetOr<K, V>(d: Dict<K, V>, k: K, default: V): (v: V)
    ensures k in d.entries ==> v == d.entries[k]
    ensures k !in d.entries ==> v == default
  {
    if k in d.entries then d.entries[k] else default
  }

  /** Filling a dictionary left to right with keys `s` lists the keys in the
      order of their first occurrence: `Put` keeps that order. */
  lemma PutKeysFollowDistinct<K(!new), V>(d: Dict<K, V>, s: seq<K>, k: K, v: V)
    requires Valid(d) && d.keys == Distinct(s)
    ensures Put(d, k, v).keys == Distinct(s + [k])
  {
    assert (s + [k])[..|s|] == s;
  }
}
