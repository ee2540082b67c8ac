/** Optional values, standing in for Python's `None` results and for
    `dict.get` lookups that fall back to a default. */
module Wrappers {

  datatype Option<+T> = None | Some(value: T)

  /** `m.get(k)` without a default: `None` when the key is absent. */
  function Lookup<K, V>(m: map<K, V>, k: K): (r: Option<V>)
    ensures r.Some? <==> k in m
    ensures r.Some? ==> r.value == m[k]
  {
    if k in m then Some(m[k]) else None
  }
}
