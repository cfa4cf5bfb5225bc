/** Failure values shared by the whole model: the Java exceptions the core throws,
    nullable references, and results of operations that may throw. */
module Wrappers {

  /** The exception classes thrown by the core. `NumberFormat` is Java's
      NumberFormatException, a subclass of IllegalArgumentException, kept apart
      because Integer.parseInt is the only place that throws it. `AssertionFailed`
      is the AssertionError of a Java `assert` statement; `NegativeArraySize` is
      NegativeArraySizeException; `Arithmetic` is the ArithmeticException of an
      overflow-checked `long` product (Math.multiplyExact). */
  datatype Exception =
    | NullPointer
    | IllegalArgument
    | IllegalState
    | NumberFormat
    | AssertionFailed
    | NegativeArraySize
    | Arithmetic

  /** A Java reference that may be null: `None` is null. */
  datatype Option<+T> = None | Some(value: T)

  /** The value an operation returns, or the exception it throws. */
  datatype Result<+T> = Ok(value: T) | Err(error: Exception)

  /** The outcome of a `void` operation: it returns normally or throws. */
  datatype Outcome = Pass | Fail(error: Exception)
}
