/** Option and Result values used where the Python code returns None or raises. */
module Wrappers {

  datatype Option<+T> = None | Some(value: T)

  /** The exceptions the modelled Python code can raise. */
  datatype Error =
    | ValueError   // WordSequence built from an empty list
    | IndexError   // indexing the first character of an empty string

  /** Either a value or the exception the Python code would raise instead. */
  datatype Result<+R> = Ok(value: R) | Err(error: Error) {

    predicate IsFailure() {
      Err?
    }

    function PropagateFailure<U>(): Result<U>
      requires Err?
    {
      Err(error)
    }

    function Extract(): R
      requires Ok?
    {
      value
    }
  }
}
