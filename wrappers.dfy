/** Option and Result values for the lookups that may find nothing and the
    operations whose Go originals return an error or panic. */
module Wrappers {

  datatype Option<+T> = None | Some(value: T)

  datatype Result<+T, +E> = Ok(value: T) | Err(error: E)

  function Get<K, V>(m: map<K, V>, k: K): Option<V>
  {
    if k in m then Some(m[k]) else None
  }

  function Max(a: int, b: int): int
  {
    if a >= b then a else b
  }
}
