/** Failure-compatible result types used in place of the library's exceptions
    and nullable sentinels. */
module Wrappers {

  datatype Option<+T> = None | Some(value: T)

  /** The exceptions the library throws, as values. */
  datatype Error =
    | DivideByZero          // XY division by exactly zero
    | ArgumentOutOfRange    // MathUtils.Map with an empty source range
    | Overflow              // an array allocated with a negative length
    | TooFewPoints          // Polygon with fewer than three points
    | NoPoints              // Polyline with no points
    | NoCandidate           // closest-point search over zero segments
    | InvalidSegments       // Bezier sampling with fewer than one segment

  datatype Result<+T> = Success(value: T) | Failure(error: Error) {
    predicate IsFailure() {
      Failure?
    }

    function PropagateFailure<U>(): Result<U>
      requires Failure?
    {
      Failure(error)
    }

    function Extract(): T
      requires Success?
    {
      value
    }
  }
}
