/** Java's nullable references become `Option`; an exception that escapes an
    operation becomes the `Failure` side of `Result`. Also the `Math.min` and
    `Math.max` the bounding box uses. */
module Wrappers {

  datatype Option<+T> = None | Some(value: T)

  datatype Result<+R, +E> = Success(value: R) | Failure(error: E)

  function Min(a: int, b: int): int {
    if a <= b then a else b
  }

  /** Java's `Math.max(double, double)` on non-NaN arguments. */
  function MaxReal(a: real, b: real): real {
    if a >= b then a else b
  }

  /** Java's `Math.min(double, double)` on non-NaN arguments. */
  function MinReal(a: real, b: real): real {
    if a <= b then a else b
  }
}
