/** Optional values and results carrying an error, used for the exceptions of the game. */
module Wrappers {

  /** A value that may be absent. The empty case is `Nothing` so as not to clash with `Player.None`. */
  datatype Option<+T> = Nothing | Some(value: T)

  /** The outcome of an operation that either returns a value or throws. */
  datatype Result<+T, +E> = Success(value: T) | Failure(error: E)
}
