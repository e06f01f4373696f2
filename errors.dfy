/** The exceptions the backup engine throws or catches, and the wrappers that
    carry them out of an operation instead of unwinding. */
module Errors {

  datatype Exception =
    | FileNotFound(path: string)          // FileNotFoundException
    | DirectoryNotFound(path: string)     // DirectoryNotFoundException
    | Argument(message: string)           // ArgumentException
    | Format(text: string)                // FormatException from DateTime.ParseExact
    | IO(path: string)                    // IOException while creating a file or directory
    | UnauthorizedAccess(path: string)    // UnauthorizedAccessException (deleting, or a directory in the way)
    | InvalidArchive(path: string)        // the archive stream is not a gzip-compressed tar

  datatype Option<T> = None | Some(value: T) {
    function GetOr(default: T): T {
      match this
      case Some(v) => v
      case None => default
    }
  }

  /** An operation that returns nothing: it either completes or throws. */
  datatype Outcome = Pass | Fail(error: Exception)

  /** An operation that returns a value or throws. */
  datatype Result<T> = Success(value: T) | Failure(error: Exception)
}
