/**
 * Failure values shared by the whole core: the HTTP statuses the core raises
 * through ODataApplicationException, the data provider's own exception, and
 * a Result type that carries either a value or one of those failures.
 */
module Outcomes {

  datatype Option<+T> = None | Some(value: T)

  /** The statuses raised by the core (HttpStatusCode in Olingo). */
  datatype Status = BadRequest | NotFound | InternalServerError | NotImplemented

  /** The numeric HTTP status code of each status. */
  function Code(s: Status): int
  {
    match s
    case BadRequest => 400
    case NotFound => 404
    case InternalServerError => 500
    case NotImplemented => 501
  }

  /**
   * AppError is an ODataApplicationException carrying a status;
   * WrongKey is DataProviderException("Wrong key!").
   */
  datatype Error = AppError(status: Status) | WrongKey

  datatype Result<+T> = Ok(value: T) | Err(error: Error)

  function Fail<T>(s: Status): Result<T>
  {
    Err(AppError(s))
  }
}
