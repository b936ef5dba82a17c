/** Option and Result values used where the library returns null or throws. */
module Wrappers {
  datatype Option<T> = None | Some(value: T)

  /** The exceptions the library raises, by kind. */
  datatype Error =
    | ArgumentOutOfRange
    | NullReference
    | NotImplemented
    | InvalidCast
    | KeyNotFound
    | InvalidOperation
    | DoesNotTerminate
    | Failure(message: string)

  /** The message of the exception a dictionary raises when a key is added twice. */
  const DuplicateKey := "An item with the same key has already been added."

  datatype Result<T> = Ok(value: T) | Err(error: Error)
  {
    predicate IsFailure() { Err? }
    function PropagateFailure<U>(): Result<U> requires Err? { Err(error) }
    function Extract(): T requires Ok? { value }
  }
}
