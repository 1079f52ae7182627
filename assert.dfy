/**
 * `ApiError` and `assert`: a failed business rule raises an `ApiError`
 * carrying the message and an HTTP status (400 unless given). JavaScript's
 * throw/return is modelled by `Outcome`, whose `:-` propagation plays the
 * part of an exception unwinding to the nearest handler.
 */
module Assertions {

  /** The `ApiError` class: `name` is always "ApiError", `status` defaults to 400. */
  datatype ApiError = ApiError(message: string, status: int := 400)
  {
    const name: string := "ApiError"
  }

  /**
   * Failures that are not `ApiError`s: what the database driver and the
   * JavaScript runtime throw. They reach the caller only as a generic
   * server error.
   */
  datatype Fault =
    | UniqueConstraintFailed  // insert clashes with a unique index
    | RecordNotFound          // `update` found no row with the given id
    | MalformedJson           // `request.json()` rejected the body
    | NullDestructured        // `const { x } = null` raises a TypeError

  /** Whatever a call can throw. */
  datatype Thrown = Api(error: ApiError) | Unexpected(fault: Fault)

  /** A call either returns a value or throws. */
  datatype Outcome<+T> = Returned(value: T) | Threw(thrown: Thrown)
  {
    predicate IsFailure()
    {
      Threw?
    }

    function PropagateFailure<U>(): Outcome<U>
      requires Threw?
    {
      Threw(thrown)
    }

    function Extract(): T
      requires Returned?
    {
      value
    }
  }

  /** `assert(condition, message, status = 400)`: returns when the condition holds, otherwise throws. */
  function Assert(condition: bool, message: string, status: int := 400): (r: Outcome<()>)
    ensures r.Returned? <==> condition
    ensures r.Threw? ==> r.thrown.Api? && r.thrown.error.message == message && r.thrown.error.status == status
  {
    if condition then Returned(()) else Threw(Api(ApiError(message, status)))
  }

  /** A failed assertion without a status raises a 400 `ApiError` named "ApiError" with exactly the message. */
  lemma FailedAssertDefaultsTo400(message: string)
    ensures Assert(false, message) == Threw(Api(ApiError(message, 400)))
    ensures Assert(false, message).thrown.error.name == "ApiError"
  {
  }
}
