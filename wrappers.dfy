/** Option and Result values, and the exceptions the backend raises. */
module Wrappers {

  datatype Option<+T> = None | Some(value: T) {
    function GetOr(default: T): T {
      match this
      case Some(v) => v
      case None => default
    }
  }

  datatype Result<+R, +E> = Ok(value: R) | Err(error: E)

  /** The Python exceptions that leave the services, with their messages where
      the model can build them. */
  datatype Error =
    | ValueError(msg: string)
    | RuntimeError(msg: string)
    | ZeroDivisionError
    | Cv2Error(msg: string)
    | DecodeError
}
