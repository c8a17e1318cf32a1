/** The error values of the data layer, the Option/Result wrappers used for
    Go's `(value, error)` returns, and the failures a store can report while
    it runs a multi-row query. */
module Errors {

  datatype Option<T> = None | Some(value: T)

  /** A Go `error`: the data package's sentinels, database/sql's
      ErrNoRows, or any other error, known by its text. */
  datatype Error =
    | ErrRecordNotFound
    | ErrDuplicateEmail
    | ErrAlreadyBorrowed
    | ErrNoAvailableCopies
    | ErrNoRows
    | Other(message: string)

  datatype Result<T> = Ok(value: T) | Err(error: Error)

  /** Where a multi-row query fails, if it does: the statement itself, the
      scan of row `row`, or the final `rows.Err()` check. These stand for
      the store's transport and driver failures. */
  datatype Fault =
    | NoFault
    | QueryFails(cause: Error)
    | ScanFails(row: nat, cause: Error)
    | IterationFails(cause: Error)

  /** The translation every single-row lookup applies to its Scan error. */
  function NotFoundIfNoRows(e: Error): Error {
    if e == ErrNoRows then ErrRecordNotFound else e
  }
}
