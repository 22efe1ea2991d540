/** The absence-carrying value used wherever the program returns `None`. */
module Wrappers {

  datatype Option<+T> = None | Some(value: T)

  /** Dictionary `get`: the value stored under `k`, or `None` when `k` is missing. */
  function Get<K, V>(m: map<K, V>, k: K): (r: Option<V>)
    ensures r.Some? <==> k in m
    ensures r.Some? ==> r.value == m[k]
  {
    if k in m then Some(m[k]) else None
  }
}
