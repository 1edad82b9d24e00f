/** The two failure-compatible shapes the modelled code returns. */
module Outcome {

  datatype Option<+T> = None | Some(value: T)

  /** `Err` carries no payload: which message an error prints is not modelled. */
  datatype Result<+T> = Ok(value: T) | Err {

    predicate IsFailure() {
      Err?
    }

    function PropagateFailure<U>(): Result<U>
      requires Err?
    {
      Err
    }

    function Extract(): T
      requires Ok?
    {
      value
    }
  }
}
