/** Results and options: the source's error returns and missing values. */
module Wrappers {
  datatype Option<+T> = None | Some(value: T)

  /** A value, or the error the source returns in its place. */
  datatype Result<+T> = Ok(value: T) | Err(error: string) {
    predicate IsFailure() { Err? }

    function PropagateFailure<U>(): Result<U>
      requires Err?
    {
      Err(error)
    }

    function Extract(): T
      requires Ok?
    {
      value
    }
  }
}
