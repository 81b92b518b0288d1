/** Failure-compatible wrappers and a sequence predicate shared by the build,
    recommend and evaluate models. */
module Results {

  /** A value that may be absent; Python's `None` for an unresolved node. */
  datatype Option<+T> = None | Some(value: T)

  /** The outcome of an operation that may raise instead of returning. */
  datatype Result<+T, +E> = Success(value: T) | Failure(error: E)

  /** No element occurs twice. */
  ghost predicate NoDuplicates<T>(xs: seq<T>) {
    forall a, b :: 0 <= a < b < |xs| ==> xs[a] != xs[b]
  }
}
