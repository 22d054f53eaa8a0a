/** Optional values (TypeScript's `T | null` and `T | undefined`), and the
    outcome of an asynchronous call that either resolves or rejects. */
module Outcomes {

  datatype Option<+T> = None | Some(value: T)

  /** A call that resolves with a value or rejects with an error message. */
  datatype Result<+R, +E> = Success(value: R) | Failure(error: E)

  /** A call that resolves with nothing (`Promise<void>`) or rejects. */
  datatype Outcome<+E> = Pass | Fail(error: E)
}
