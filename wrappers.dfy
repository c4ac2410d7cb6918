/** Small helpers: optional values, and picking keys out of maps. */
module Wrappers {

  /** A value that may be absent: a string that is not a state, a write the store does not refuse. */
  datatype Option<+T> = None | Some(value: T)

  /** Some key of a non-empty map. */
  lemma PickKey<K, V>(m: map<K, V>) returns (k: K)
    requires m != map[]
    ensures k in m
  {
    k :| k in m;
  }

  /** A key under which a map holds the given value. */
  lemma KeyOf<K, V>(m: map<K, V>, v: V) returns (k: K)
    requires v in m.Values
    ensures k in m && m[k] == v
  {
    k :| k in m && m[k] == v;
  }

  /** The value under a key is among the map's values. */
  lemma ValueOf<K, V>(m: map<K, V>, k: K)
    requires k in m
    ensures m[k] in m.Values
  {
  }
}
