/**
 * How a modelled operation ends: normally, or with the Java exception it throws.
 */
module Outcomes {

  datatype Exception = IllegalArgument | IndexOutOfBounds | NegativeArraySize | NullPointer

  datatype Status = Ok | Throws(e: Exception)

  /** A reference that may be null. */
  datatype Option<T> = None | Some(value: T)
}
