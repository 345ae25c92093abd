/** Optional values and HTTP-style outcomes shared by every module of the model. */
module Wrappers {

  /** A value that may be absent: Python's `None`, TypeScript's `null`/`undefined`. */
  datatype Option<+T> = None | Some(value: T) {

    /** The carried value, or `default` when there is none. */
    function GetOr(default: T): T {
      match this
      case Some(v) => v
      case None => default
    }
  }

  /** The error half of a FastAPI endpoint: an `HTTPException(status_code, detail)`. */
  datatype HttpError = HttpError(status: nat, detail: string)

  /** An exception that escapes an endpoint: FastAPI answers 500. */
  const ServerError := HttpError(500, "Internal Server Error")

  /** What an endpoint answers: a response body, or an `HTTPException`. */
  datatype Reply<+T> = Ok(value: T) | Fail(error: HttpError) {

    predicate IsOk() {
      Ok?
    }

    /**
     * The status code of a failure. Every success reads as 200, standing
     * for whichever success status the endpoint declares (201 and 204 included).
     */
    function Status(): nat {
      match this
      case Ok(_) => 200
      case Fail(e) => e.status
    }
  }
}
