/** Optional values and results with an error, standing for JavaScript's
    `undefined`/`null` and for thrown exceptions. */
module Wrappers {

  /** A value that may be absent: `None` is `undefined` or `null`. */
  datatype Option<+T> = None | Some(value: T)

  /** The outcome of a computation that may throw: `Failure` carries what was thrown. */
  datatype Result<+T, +E> = Success(value: T) | Failure(error: E)

  /** JavaScript's nullish coalescing `o ?? d`. */
  function OrElse<T>(o: Option<T>, d: T): (r: T)
    ensures o.Some? ==> r == o.value
    ensures o.None? ==> r == d
  {
    match o
    case Some(v) => v
    case None => d
  }
}
