/** Failure-carrying results shared by the skip list, the multiset and the regex modules.
    They stand in for the Python exceptions the source raises. */
module Outcomes {

  /** A value that may be absent, as Python's `None`. */
  datatype Option<+T> = None | Some(value: T)

  /** Either a value or the error the source would raise instead. */
  datatype Result<+T, +E> = Success(value: T) | Failure(error: E)
}
