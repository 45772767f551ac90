/** Failure-compatible wrappers: an optional value and a result that is
    either a value or an error. */
module Wrappers {

  datatype Option<+T> = None | Some(value: T)

  datatype Result<+T, +E> = Ok(value: T) | Fail(error: E) {
    predicate IsFailure() {
      Fail?
    }

    function PropagateFailure<U>(): (r: Result<U, E>)
      requires Fail?
      ensures r.Fail? && r.error == error
    {
      Fail(error)
    }

    function Extract(): (v: T)
      requires Ok?
      ensures v == value
    {
      value
    }
  }
}
