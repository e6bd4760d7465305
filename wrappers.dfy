/** Option and Result values for the model's nullable references and exceptions. */
module Wrappers {

  /** A C# reference that may be null. */
  datatype Option<+T> = None | Some(value: T)

  /** A computation that either returns a value or throws. */
  datatype Result<+T, +E> = Ok(value: T) | Err(error: E)
  {
    predicate IsFailure()
    {
      Err?
    }

    function PropagateFailure<U>(): Result<U, E>
      requires Err?
    {
      Err(error)
    }

    function Extract(): T
      requires Ok?
    {
      value
    }
  }

  /** A computation that either completes or throws. */
  datatype Outcome<+E> = Pass | Fail(error: E)
}

/** The exceptions the decoding engine can raise. */
module Errors {

  datatype Error =
    | WrongMarker        // DbxException "Wrong object marker!"
    | FileMissing        // DbxException "File does not exist!"
    | NotDbxExtension    // DbxException "File does not have dbx extension"
    | OutOfRange         // IndexOutOfRange / ArgumentException from an array access or copy
    | NullReference      // NullReferenceException from a member of a null object
    | Cyclic             // a forward chain revisits an address: the loop never completes

  /** The errors that a `catch (DbxException)` handler intercepts. */
  predicate IsDbxException(e: Error)
  {
    e.WrongMarker? || e.FileMissing? || e.NotDbxExtension?
  }
}
