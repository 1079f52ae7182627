/**
 * The `ApiResponse` helpers: every response is a status code and a JSON
 * body, either the data itself or `{ error: message }`.
 */
module ApiResponse {

  /** A JSON body: the payload, or an object with a single `error` message. */
  datatype Body<+T> = Data(data: T) | ErrorBody(error: string)

  datatype Response<+T> = Response(status: int, body: Body<T>)
  {
    predicate IsError()
    {
      body.ErrorBody?
    }
  }

  /** `success(data)`: 200 with the data as body. */
  function Success<T>(data: T): (r: Response<T>)
    ensures r.status == 200 && !r.IsError() && r.body.data == data
  {
    Response(200, Data(data))
  }

  /** `created(data)`: 201 with the data as body. */
  function Created<T>(data: T): (r: Response<T>)
    ensures r.status == 201 && !r.IsError() && r.body.data == data
  {
    Response(201, Data(data))
  }

  /** `error(message, status)`: the given status with body `{ error: message }`. */
  function Error<T>(message: string, status: int): (r: Response<T>)
    ensures r.status == status && r.IsError() && r.body.error == message
  {
    Response(status, ErrorBody(message))
  }

  function BadRequest<T>(message: string): (r: Response<T>)
    ensures r == Error(message, 400)
  {
    Response(400, ErrorBody(message))
  }

  function NotFound<T>(message: string := "Not found"): (r: Response<T>)
    ensures r == Error(message, 404)
  {
    Response(404, ErrorBody(message))
  }

  function Conflict<T>(message: string): (r: Response<T>)
    ensures r == Error(message, 409)
  {
    Response(409, ErrorBody(message))
  }

  function ServerError<T>(message: string := "Internal server error"): (r: Response<T>)
    ensures r == Error(message, 500)
  {
    Response(500, ErrorBody(message))
  }

  /** The argument-free helpers use their documented defaults. */
  lemma DefaultMessages<T>()
    ensures NotFound<T>() == Response(404, ErrorBody("Not found"))
    ensures ServerError<T>() == Response(500, ErrorBody("Internal server error"))
  {
  }
}
