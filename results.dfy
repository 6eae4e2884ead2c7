/** Outcomes of remote calls and of the HTTP operations built on them. */
module Results {

  /** A failure reported by the remote transfer service (its TransferAPIError). */
  datatype RemoteError =
    | Exists(message: string)                  // code ExternalError.MkdirFailed.Exists
    | NotFound(message: string)                // HTTP 404 from the remote
    | Other(status: int, message: string)      // any other remote failure
  {
    /** The HTTP status the remote attaches to the failure. */
    function Status(): int {
      match this
      case Exists(_) => 502
      case NotFound(_) => 404
      case Other(s, _) => s
    }
  }

  datatype Option<T> = None | Some(value: T)

  /** The result of one remote call. */
  datatype RemoteResult<T> = Success(value: T) | Failure(error: RemoteError)

  /** The result of one HTTP operation: a value, or an HTTPException's status and detail. */
  datatype Result<T> = Ok(value: T) | Err(status: int, detail: string)

  /** What the web framework answers for an exception the handler does not catch. */
  function Uncaught<T>(): (r: Result<T>)
    ensures r.Err? && r.status == 500
  {
    Err(500, "Internal Server Error")
  }
}
