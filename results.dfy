/** Failure-compatible results standing in for C#'s `default(T)` returns and thrown exceptions. */
module Results {

  /** `None` stands where the C# classes return `default(T)` for "nothing there". */
  datatype Option<T> = None | Some(value: T)

  /** A value, or the exception the C# classes would throw. */
  datatype Result<T, E> = Success(value: T) | Failure(error: E)

  /** The outcome of an operation that returns nothing but may throw. */
  datatype Outcome<E> = Pass | Fail(error: E)
}
