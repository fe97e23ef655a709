/** Optional values and results with an error, the two shapes the course records are built from. */
module Wrappers {

  /** A value that may be absent: an argument that is missing, or a map without the key. */
  datatype Option<+T> = None | Some(value: T)

  /** The outcome of an operation that may throw. */
  datatype Result<+T, +E> = Success(value: T) | Failure(error: E)

  /** The value stored under `k`, if any. */
  function Lookup<K, V>(m: map<K, V>, k: K): (r: Option<V>)
    ensures r.Some? <==> k in m
    ensures r.Some? ==> r.value == m[k]
  {
    if k in m then Some(m[k]) else None
  }
}
