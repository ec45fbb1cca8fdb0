/** Optional values and success-or-error results, standing in for Kotlin's
    nullable types and thrown exceptions. */
module Results {

  datatype Option<+T> = None | Some(value: T)

  datatype Result<+R, +E> = Success(value: R) | Failure(error: E)
}
