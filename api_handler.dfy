/**
 * `withErrorHandler`: whatever the wrapped handler does, the caller gets a
 * response. A returned response passes through, an `ApiError` becomes
 * `{ error: message }` with its status, anything else a bare 500.
 */
module ApiHandler {
  import opened Assertions
  import opened ApiResponse

  /** A handler's response together with the table it leaves behind. */
  datatype Handled<+T, +R> = Handled(response: Response<T>, rows: seq<R>)

  /** The catch block applied to what the wrapped handler returned or threw. */
  function WithErrorHandler<T>(outcome: Outcome<Response<T>>): (r: Response<T>)
    ensures outcome.Returned? ==> r == outcome.value
    ensures outcome.Threw? ==> r.IsError()
    ensures outcome.Threw? && outcome.thrown.Api? ==>
      r.status == outcome.thrown.error.status && r.body.error == outcome.thrown.error.message
    ensures outcome.Threw? && outcome.thrown.Unexpected? ==> r == ServerError()
  {
    match outcome
    case Returned(response) => response
    case Threw(Api(e)) => Error(e.message, e.status)
    case Threw(Unexpected(_)) => ServerError()
  }

  /** Two different unexpected faults give the same response: no internal detail reaches the caller. */
  lemma NoInternalDetailLeaks<T>(f: Fault, g: Fault)
    ensures WithErrorHandler<T>(Threw(Unexpected(f))) == WithErrorHandler<T>(Threw(Unexpected(g)))
    ensures WithErrorHandler<T>(Threw(Unexpected(f))) == Response(500, ErrorBody("Internal server error"))
  {
  }

  /** A failed `assert` inside a wrapped handler surfaces as its message with its status (400 by default). */
  lemma FailedAssertResponse<T>(message: string, status: int)
    ensures WithErrorHandler<T>(Threw(Assert(false, message, status).thrown)) == Error(message, status)
    ensures WithErrorHandler<T>(Threw(Assert(false, message).thrown)) == BadRequest(message)
  {
  }
}
