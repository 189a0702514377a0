/** Failure-carrying wrappers shared by every module of the model. */
module Common {

  /** A value that may be absent: Python's `None` versus a present object. */
  datatype Option<+T> = None | Some(value: T)

  /** The outcome of a step that may raise: its value, or the reason it failed. */
  datatype Result<+R, +E> = Success(value: R) | Failure(error: E) {

    /** Forgets the failure reason. */
    function ToOption(): Option<R>
    {
      match this
      case Success(v) => Some(v)
      case Failure(_) => None
    }
  }
}
