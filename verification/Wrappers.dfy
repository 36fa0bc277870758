/** The result of an operation that may stop with one of lodepng's error codes. */
module Wrappers {

  datatype Option<+T> = None | Some(value: T)

  datatype Result<+T> = Ok(value: T) | Error(code: nat) {
    predicate IsFailure() {
      Error?
    }

    function PropagateFailure<U>(): Result<U>
      requires Error?
    {
      Error(code)
    }

    function Extract(): T
      requires Ok?
    {
      value
    }
  }
}
