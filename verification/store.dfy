/** The `Map` both injectors keep, from identifier to instance. */
module Store {
  import opened JsValue
  import opened Results

  type Instances<K(==)> = map<K, Value>

  /** The entry for `k`, if the map has one. */
  function Entry<K(==)>(m: Instances<K>, k: K): Option<Value> {
    if k in m then Some(m[k]) else None
  }

  /** `Map.prototype.get`: the stored instance, `undefined` for a key with no entry. */
  function Get<K(==)>(m: Instances<K>, k: K): (r: Value)
    ensures k in m ==> r == m[k]
    ensures k !in m ==> r == Undefined
  {
    if k in m then m[k] else Undefined
  }

  /** `Map.prototype.set`: inserts the entry or overwrites the existing one. */
  function Set<K(==)>(m: Instances<K>, k: K, v: Value): (m': Instances<K>)
    ensures m'.Keys == m.Keys + {k}
    ensures m'[k] == v
    ensures forall j :: j in m && j != k ==> m'[j] == m[j]
  {
    m[k := v]
  }

  /** Setting the same key twice keeps only the second instance. */
  lemma SetOverwrites<K>(m: Instances<K>, k: K, v1: Value, v2: Value)
    ensures Set(Set(m, k, v1), k, v2) == Set(m, k, v2)
  {
  }
}
