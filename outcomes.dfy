/** The exceptions of the sharing pipeline that the model represents, as values. */
module Outcomes {

  /** The two Python exceptions the model represents. */
  datatype Failure =
    | DivisionByZero              // ZeroDivisionError: `/` by a zero denominator
    | SampleLargerThanPopulation  // ValueError raised by random.sample

  datatype Result<+T> = Ok(value: T) | Err(error: Failure)
}
