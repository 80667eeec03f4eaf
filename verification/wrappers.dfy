/** Failure-compatible Option and Result types used throughout the model.
    `Result` carries an `Error` naming the exception the Python code raises. */
module Wrappers {

  datatype Option<+T> = None | Some(value: T) {

    /** The value, or `default` when absent. */
    function GetOr(default: T): T {
      match this
      case Some(v) => v
      case None => default
    }
  }

  /** The exceptions that escape an operation of the model. */
  datatype Error =
    | LayerNotFound(layer: string)        // reading a layer the container does not hold
    | UnsupportedGeometry(kind: string)   // ValueError from geometry routing
    | NotAGeometry                        // the geometry cell holds no geometry object
    | BadTemakode                         // int(row["temakode"]) fails
    | MissingColumn(column: string)       // KeyError on a frame column

  datatype Result<+T> = Success(value: T) | Failure(error: Error) {

    predicate IsFailure() {
      Failure?
    }

    function PropagateFailure<U>(): Result<U>
      requires Failure?
    {
      Failure(error)
    }

    function Extract(): T
      requires Success?
    {
      value
    }
  }
}
