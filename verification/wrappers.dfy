/** Optional values and results that carry an error, used where the game
    code returns `null` or a `{ success, error }` record. */
module Wrappers {

  datatype Option<+T> = None | Some(value: T)

  datatype Result<+T, +E> = Success(value: T) | Failure(error: E)
}
