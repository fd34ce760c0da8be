/** Outcomes of the modelled Python operations.

    Python raises exceptions and some `Matrix` operators return `None`;
    both become values here. `Result` is failure-compatible, so `:-`
    propagates an exception the way Python unwinds it. */
module Outcomes {

  /** The exceptions the modelled code can raise. */
  datatype Error =
    | DimensionMismatch   // the explicit "Vectors must be in one dimension"
    | IndexError          // a list or Vector subscript out of range
    | ZeroDivisionError   // `1 / 0` or `x /= 0`
    | TypeError           // an operand of the wrong type
    | AttributeError      // `other.vectors` on something that is not a Matrix

  /** Python's `None` next to an ordinary return value. */
  datatype Option<+T> = None | Some(value: T)

  /** A returned value, or the exception that was raised instead. */
  datatype Result<+T> = Ok(value: T) | Err(error: Error) {

    predicate IsFailure() {
      Err?
    }

    function PropagateFailure<U>(): Result<U>
      requires Err?
    {
      Err(error)
    }

    function Extract(): T
      requires Ok?
    {
      value
    }
  }
}
