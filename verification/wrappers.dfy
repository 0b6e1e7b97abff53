/** Optional values and outcomes that may fail, shared by every module of the model. */
module Wrappers {

  /** A value that may be absent; stands in for a Java reference that may be null. */
  datatype Option<+T> = None | Some(value: T)

  /** The outcome of a computation that may raise; usable with `:-`. */
  datatype Result<+T, +E> = Ok(value: T) | Err(error: E) {

    predicate IsFailure() {
      Err?
    }

    function PropagateFailure<U>(): Result<U, E>
      requires Err?
    {
      Err(error)
    }

    function Extract(): T
      requires Ok?
    {
      value
    }
  }
}

/** The HTTP statuses the modelled controllers answer with. */
module Http {

  datatype Status = Ok | BadRequest | Unauthorized | NotFound | InternalServerError {

    /** The numeric status code sent on the wire. */
    function Code(): nat {
      match this
      case Ok => 200
      case BadRequest => 400
      case Unauthorized => 401
      case NotFound => 404
      case InternalServerError => 500
    }
  }
}
