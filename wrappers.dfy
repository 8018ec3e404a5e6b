/** The Option and Result datatypes shared by the other modules. */
module Wrappers {

  /** A value that may be absent: a SQL NULL, an undefined request field, an empty LIMIT 1. */
  datatype Option<+T> = None | Some(value: T)

  /** The outcome of a request handler: a payload, or the error the handler answers with. */
  datatype Result<+R, +E> = Success(value: R) | Failure(error: E)
}
