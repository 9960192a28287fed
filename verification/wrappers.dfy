/** Failure-compatible result types shared by every module of the model. */
module Wrappers {

  /** A value that may be missing: Python's `None`, JavaScript's `null`/`undefined`. */
  datatype Option<+T> = None | Some(value: T) {

    /** The wrapped value, or `default` when there is none. */
    function GetOr(default: T): T {
      match this
      case Some(v) => v
      case None => default
    }
  }

  /** The outcome of an operation that can fail with an error of type `E`. */
  datatype Result<+T, +E> = Success(value: T) | Failure(error: E)

  /** An HTTP error raised by a request handler: status code and detail text. */
  datatype ApiError = ApiError(status: nat, detail: string)

  /** Status codes the handlers raise. */
  const BadRequest: nat := 400
  const Unauthorized: nat := 401
  const NotFound: nat := 404
  const Unprocessable: nat := 422
  const ServerError: nat := 500

  /** The answer when the database refuses a write (a text longer than its
      column, an integer beyond the column's range): the handlers do not catch
      the error, so the server answers 500 with its stock text. */
  const InternalServerError: ApiError := ApiError(ServerError, "Internal Server Error")
}
