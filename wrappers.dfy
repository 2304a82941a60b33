/** Failure-carrying result types shared by the tracer's modules. */
module Wrappers {

  /** A value that may be absent; `None` stands for Python's `None`. */
  datatype Option<+T> = None | Some(value: T)

  /** The run-time error the core can raise: a float division by zero
      (Python's `ZeroDivisionError`). In the model it arises when `unit` is
      asked to normalise a vector of length zero. The divisions in
      `hit_with_ray` by the squared direction length and by the radius are
      excluded by that function's precondition instead. */
  datatype Error = ZeroDivision

  /** The outcome of a computation that may raise. */
  datatype Result<+T> = Success(value: T) | Failure(error: Error)

  /** The outcome of a computation that returns nothing but may raise. */
  datatype Outcome = Pass | Fail(error: Error)
}
