/** Option and Result values: a dictionary lookup that may miss, and an input
    error that the Python code raises as an exception. */
module Wrappers {

  datatype Option<+T> = None | Some(value: T)

  datatype Result<+R, +E> = Success(value: R) | Failure(error: E)

  /** Python's `d.get(key)`: the value stored under `key`, if any. */
  function Get<K, V>(m: map<K, V>, key: K): Option<V>
  {
    if key in m then Some(m[key]) else None
  }

  /** Python's `d.get(key, default)`. */
  function GetOr<K, V>(m: map<K, V>, key: K, default: V): V
  {
    if key in m then m[key] else default
  }

  /** The elements of a sequence, as a set (Python's `set(xs)`). */
  function Elements<T>(xs: seq<T>): set<T>
  {
    set x | x in xs
  }

  /** No element of `xs` occurs twice. */
  predicate Distinct<T(==)>(xs: seq<T>)
  {
    forall i, j :: 0 <= i < j < |xs| ==> xs[i] != xs[j]
  }
}
