/** Optional values, as returned by every lookup of the store. */
module Wrappers {

  datatype Option<+T> = None | Some(value: T)

  /** The value stored under `k` in `m`, if any. */
  function Lookup<K, V>(m: map<K, V>, k: K): (r: Option<V>)
    ensures r.Some? <==> k in m
    ensures r.Some? ==> r.value == m[k]
  {
    if k in m then Some(m[k]) else None
  }
}
