/** Failure-compatible result types and a map lookup with a default value,
    shared by every module of the model. */
module Wrappers {

  /** An optional value; `None` plays the role of a null pointer or a
      failed lookup. */
  datatype Option<+T> = None | Some(value: T)

  /** The outcome of an operation that either succeeds with a value or
      aborts the process with an error. */
  datatype Result<+R, +E> = Success(value: R) | Failure(error: E) {

    predicate IsFailure() {
      Failure?
    }

    function PropagateFailure<U>(): Result<U, E>
      requires Failure?
    {
      Failure(error)
    }

    function Extract(): R
      requires Success?
    {
      value
    }
  }

  /** The value stored under `k`, or `default` when `k` has no entry. This
      is what reading a `std::map` through `operator[]` yields when the
      entry it would create is never observed. */
  function Lookup<K, V>(m: map<K, V>, k: K, default: V): (v: V)
    ensures k in m ==> v == m[k]
    ensures k !in m ==> v == default
  {
    if k in m then m[k] else default
  }
}
