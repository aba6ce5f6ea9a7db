/** Optional values and results with an error, as the bot's JavaScript uses `undefined`/`null` and exceptions. */
module Wrappers {

  datatype Option<+T> = None | Some(value: T)

  /** The outcome of an external call: a value, or the thrown error's `message`. */
  datatype Result<+R> = Success(value: R) | Failure(message: string)
}
