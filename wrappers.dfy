/** Optional values (a Java reference that may be null) and the results of operations that can throw. */
module Wrappers {
  datatype Option<T> = None | Some(value: T)

  /** The unchecked exceptions the collections throw on a bad argument. */
  datatype Error =
    | IndexOutOfBounds    // java.lang.IndexOutOfBoundsException
    | IllegalArgument     // java.lang.IllegalArgumentException
    | NullPointer         // java.lang.NullPointerException: a null reference dereferenced

  datatype Result<T> = Success(value: T) | Failure(error: Error)
}
