/** Small shared vocabulary: optional values, results with an error value,
    dictionary lookups with a default, and Python-style truthiness of an
    optional string. */
module Basics {

  /** A value that may be absent (a missing dictionary key, or `None`). */
  datatype Option<+T> = None | Some(value: T) {
    /** The value if present, otherwise `default` (Python's `x or default`
        for values that are never falsy). */
    function GetOr(default: T): T {
      match this
      case Some(v) => v
      case None => default
    }
  }

  /** The outcome of an operation that may raise: `Failure` carries what was raised. */
  datatype Result<+T, +E> = Success(value: T) | Failure(error: E)

  /** Python's `d.get(k, default)`. */
  function Lookup<K, V>(m: map<K, V>, k: K, default: V): V {
    if k in m then m[k] else default
  }

  /** Python truthiness of an optional string: neither `None` nor `""`. */
  predicate Truthy(s: Option<string>) {
    s.Some? && s.value != ""
  }

  function MaxReal(a: real, b: real): real {
    if a >= b then a else b
  }
}
