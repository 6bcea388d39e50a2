/** Failure-carrying values: the model's stand-in for null references and .NET exceptions. */
module Wrappers {

  datatype Option<+T> = None | Some(value: T)

  /** The exceptions the modelled code raises or lets through. */
  datatype Exception =
    | NotSupported(message: string)   // System.NotSupportedException
    | NullReference                   // a member called on a null string
    | IndexOutOfRange                 // indexing past the end of an array
    | Argument                        // reflection SetValue with a value of the wrong type
    | SqliteError                     // any error the database engine raises for a statement
    | InvalidOperation                // a transaction begun while another is open

  /** A value, or the exception that was thrown instead of returning one. */
  datatype Result<+T> = Success(value: T) | Failure(error: Exception)

  /** Completion of an operation that returns nothing. */
  datatype Outcome = Pass | Fail(error: Exception)
}
