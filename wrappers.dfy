/** Failure-compatible result types shared by the other modules. */
module Wrappers {

  /** A present value, or its absence (Java's `null`). */
  datatype Option<+T> = None | Some(value: T)

  /** Success, or a failure carrying an error value (an exception the source throws). */
  datatype Outcome<+E> = Pass | Fail(error: E)

  function Min(a: int, b: int): int
  {
    if a <= b then a else b
  }
}
