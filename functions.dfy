/** inc.functions.php: the helper the render pipeline uses to add keys to template data. */
module Functions {

  /**
   * `array_add_key($array, $key, $value)`: PHP passes the array by value, so the
   * function assigns into its own copy and returns it; the caller's array is
   * never touched. On a map that is a plain update.
   */
  function AddKey<K, V>(m: map<K, V>, key: K, value: V): (r: map<K, V>)
    ensures key in r && r[key] == value
    ensures forall k :: k in m && k != key ==> k in r && r[k] == m[k]
    ensures r.Keys == m.Keys + {key}
  {
    m[key := value]
  }

  /** Adding the same key and value twice is the same as adding it once. */
  lemma AddKeyIdempotent<K, V>(m: map<K, V>, key: K, value: V)
    ensures AddKey(AddKey(m, key, value), key, value) == AddKey(m, key, value)
  {
  }

  /** A second value for the same key replaces the first; nothing is duplicated. */
  lemma AddKeyOverwrites<K, V>(m: map<K, V>, key: K, v1: V, v2: V)
    ensures AddKey(AddKey(m, key, v1), key, v2) == AddKey(m, key, v2)
  {
  }

  /** Adding two different keys gives the same map in either order. */
  lemma AddKeyCommutes<K, V>(m: map<K, V>, k1: K, v1: V, k2: K, v2: V)
    requires k1 != k2
    ensures AddKey(AddKey(m, k1, v1), k2, v2) == AddKey(AddKey(m, k2, v2), k1, v1)
  {
    var a := AddKey(AddKey(m, k1, v1), k2, v2);
    var b := AddKey(AddKey(m, k2, v2), k1, v1);
    assert a.Keys == b.Keys;
    assert forall k :: k in a ==> a[k] == b[k];
  }
}
