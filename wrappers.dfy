/** Optional values and results with an error, as used by the three services. */
module Wrappers {

  /** Python's `None` or a value. */
  datatype Option<+T> = None | Some(value: T)

  /** A successful value or an error (exceptions raised by an endpoint). */
  datatype Result<+R, +E> = Success(value: R) | Failure(error: E)

  /** An `HTTPException` raised by a FastAPI endpoint. */
  datatype HttpError = HttpError(statusCode: int, detail: string)
}
