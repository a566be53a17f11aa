/** Failure-carrying wrappers shared by the comparison engine and the file-store endpoints. */
module Common {

  /** A value that may be absent: a missing dictionary key, a Python `None`,
      or an exception raised by an external collaborator. */
  datatype Option<+T> = None | Some(value: T)

  /** The outcome of an operation that either returns a value or raises one of
      the typed errors of its module. */
  datatype Result<+T, +E> = Ok(value: T) | Err(error: E)

  /** A document's text as produced by the extractor: an ordered sequence of words. */
  type Tokens = seq<string>
}
