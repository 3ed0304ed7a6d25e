/** Failure-carrying wrappers shared by the drawing-log modules. */
module Results {

  /** A value that may be absent (Python's `None`, or a lookup that found nothing). */
  datatype Option<+T> = None | Some(value: T)

  /** Either a value, or the error a Python call would have raised instead of returning. */
  datatype Result<+T, +E> = Success(value: T) | Failure(error: E)
}
