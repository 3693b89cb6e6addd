/** Failures the storage endpoints report to their HTTP callers. */
module StorageErrors {

  /** Why a request was refused. Every key error is answered with HTTP 400
      (bad request); a point read that finds no record with HTTP 404. */
  datatype Error =
    | KeyRequired        // a point operation was given no key segments
    | TooManySegments    // a point key longer than the four slots allow
    | PrefixOutOfRange   // a range prefix that is empty or longer than four
    | NotFound           // a point read whose padded key has no record

  /** The outcome of an operation: a value, or the error it raised. */
  datatype Result<+T> = Ok(value: T) | Err(error: Error)
}
