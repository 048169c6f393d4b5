/**
 * HTTP statuses and the two kinds of error a handler can see: an HttpException
 * (NestJS's NotFoundException, ConflictException, ... are all HttpExceptions)
 * and any other error (a failed network call, a TypeError on a null document).
 */
module Http {

  datatype HttpStatus =
    | Ok | Created
    | BadRequest | Unauthorized | Forbidden | NotFound | Conflict
    | InternalServerError

  datatype Error =
    | HttpException(status: HttpStatus)
    | OtherError

  /**
   * The catch block shared by every course handler: an HttpException is
   * thrown on unchanged, anything else becomes 500.
   */
  function Rethrow(e: Error): (s: HttpStatus)
    ensures e.HttpException? ==> s == e.status
    ensures e.OtherError? ==> s == InternalServerError
  {
    match e
    case HttpException(status) => status
    case OtherError => InternalServerError
  }
}
