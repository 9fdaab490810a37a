/** Errors raised by the graph loader and the value-or-error type its operations return. */
module Outcome {

  /** The two `invalid_argument` exceptions the loader throws. */
  datatype Error =
    | FileNotFound   // the edge-list file could not be opened
    | EmptyEdgeList  // the edge list holds no edge, so no vertex count can be derived

  datatype Result<+T> = Ok(value: T) | Err(error: Error)
}
