/** Failure-carrying values shared by every module of the model.
    The PHP code signals errors by throwing; the model returns them. */
module Results {

  /** PHP `null` (or a missing array key) versus a present value. */
  datatype Option<+T> = None | Some(value: T) {

    function GetOr(default: T): T {
      match this
      case Some(v) => v
      case None => default
    }
  }

  /** The two exception classes the library throws. */
  datatype Error =
    | InvalidArgument(message: string)   // \InvalidArgumentException
    | RequestFailed(message: string)     // HttpRequestException, carrying curl's error text

  /** A value, or the exception the PHP code would have thrown instead. */
  datatype Result<+T> = Success(value: T) | Failure(error: Error) {

    predicate IsFailure() {
      Failure?
    }

    function PropagateFailure<U>(): Result<U>
      requires Failure?
    {
      Failure(error)
    }

    function Extract(): T
      requires Success?
    {
      value
    }
  }
}
