/** Failure-carrying results: the Python exceptions the utilities raise become values. */
module Wrappers {

  datatype Option<T> = None | Some(value: T)

  /** The exceptions raised by geolib/utils.py, each named after its cause. */
  datatype Failure =
    | EmptyArgument              // ValueError from min()/max() over an empty list of points
    | NotOnPolyline              // ValueError: x is not between the start and end of the polyline
    | ZeroDivision               // ZeroDivisionError: the bracketing segment is vertical
    | UnimplementedIntersection  // ValueError: unsupported shapely intersection type

  datatype Result<T> = Ok(value: T) | Err(failure: Failure)
}
