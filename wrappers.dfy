/** Option and result values shared by the frontend and backend models. */
module Wrappers {

  /** A value that may be missing: Python's None, TypeScript's undefined or null. */
  datatype Option<+T> = None | Some(value: T) {
    function GetOr(default: T): T {
      match this
      case Some(v) => v
      case None => default
    }
  }

  /** An HTTP error as FastAPI's HTTPException carries it: a status code and a detail text. */
  datatype HttpError = HttpError(status: int, detail: string)

  /** The outcome of a backend operation that either returns a value or raises an HTTPException. */
  datatype Result<+T> = Ok(value: T) | Err(error: HttpError)
}
