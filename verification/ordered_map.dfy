/**
 * Kotlin's `mutableMapOf()`, a `LinkedHashMap`: a map that remembers the
 * order in which keys were first inserted. Re-inserting a present key
 * replaces its value and keeps its position.
 */
module OrderedMap {

  datatype OMap<K(==), V> = OMap(keys: seq<K>, values: map<K, V>)

  /** The key sequence lists every key of the map exactly once. */
  predicate Valid<K(==), V>(m: OMap<K, V>) {
    && (forall i, j :: 0 <= i < j < |m.keys| ==> m.keys[i] != m.keys[j])
    && m.values.Keys == set i | 0 <= i < |m.keys| :: m.keys[i]
  }

  function Empty<K(==), V>(): (r: OMap<K, V>)
    ensures Valid(r) && |r.keys| == 0
  {
    OMap([], map[])
  }

  /** `map[k] = v`. */
  function Put<K(==), V>(m: OMap<K, V>, k: K, v: V): (r: OMap<K, V>)
    requires Valid(m)
    ensures Valid(r)
    ensures r.values == m.values[k := v]
    ensures k in m.values ==> r.keys == m.keys
    ensures k !in m.values ==> r.keys == m.keys + [k]
  {
    if k in m.values then OMap(m.keys, m.values[k := v])
    else
      var keys := m.keys + [k];
      assert forall i :: 0 <= i < |m.keys| ==> m.keys[i] in m.values && m.keys[i] != k;
      assert (set i | 0 <= i < |keys| :: keys[i]) == (set i | 0 <= i < |m.keys| :: m.keys[i]) + {k} by {
        assert keys[|m.keys|] == k;
        assert forall i :: 0 <= i < |m.keys| ==> keys[i] == m.keys[i];
      }
      OMap(keys, m.values[k := v])
  }
}
