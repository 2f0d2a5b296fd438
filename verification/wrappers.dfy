/** Failure-compatible result type used by every service operation, and the
    HTTP status codes the services throw with. */
module Wrappers {

  datatype Option<+T> = None | Some(value: T)

  /** An application error: the HTTP status a service throws with and its message. */
  datatype Error = Error(status: int, message: string)

  datatype Result<+T> = Ok(value: T) | Err(error: Error) {
    predicate IsFailure() { Err? }

    function PropagateFailure<U>(): Result<U>
      requires Err?
    {
      Err(error)
    }

    function Extract(): T
      requires Ok?
    {
      value
    }
  }

  /** A check that either passes or fails with an error, usable with `:-`. */
  datatype Outcome = Pass | Fail(error: Error) {
    predicate IsFailure() { Fail? }

    function PropagateFailure<U>(): Result<U>
      requires Fail?
    {
      Err(error)
    }
  }

  function Need(condition: bool, status: int, message: string): (o: Outcome)
    ensures o.Pass? <==> condition
    ensures o.Fail? ==> o.error == Error(status, message)
  {
    if condition then Pass else Fail(Error(status, message))
  }

  const BadRequest: int := 400
  const Unauthorized: int := 401
  const Forbidden: int := 403
  const NotFound: int := 404
  const Conflict: int := 409
  const InternalServerError: int := 500

  /** The status a result failed with, or 0 for a success. */
  function StatusOf<T>(r: Result<T>): int
  {
    if r.Err? then r.error.status else 0
  }
}
