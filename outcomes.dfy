/** Option and Result values, and the two Python exceptions that the
    latency endpoint can raise while it aggregates. */
module Outcomes {

  /** A JSON object field that may be absent (`None`) or present. */
  datatype Option<+T> = None | Some(value: T)

  /** The exceptions raised by the aggregation: a dictionary lookup of a
      missing key, and a failure inside Python's `statistics` module. */
  datatype Error =
    | KeyError(key: string)
    | StatisticsError(message: string)

  /** Either the computed value or the exception that aborted the computation. */
  datatype Result<+T> = Success(value: T) | Failure(error: Error) {

    predicate IsFailure() {
      Failure?
    }

    function PropagateFailure<U>(): Result<U>
      requires Failure?
    {
      Failure(error)
    }

    function Extract(): T
      requires Success?
    {
      value
    }
  }
}
