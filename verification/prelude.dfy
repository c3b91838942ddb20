/**
 * Small standard shapes shared by both designs: Rust's `Option`, `Result`
 * and `Ordering`, and `Run`, which says whether a Rust call returned or
 * panicked.
 */
module Prelude {

  datatype Option<+T> = None | Some(value: T)

  datatype Result<+T, +E> = Ok(value: T) | Err(error: E)

  /** `std::cmp::Ordering`. */
  datatype Ordering = Less | Equal | Greater

  /**
   * How a call of the Rust code ends: it returns a value, or it panics.
   * A panic is an `unwrap` of an error, an integer division by zero, an
   * `unreachable!`, or unbounded recursion that overflows the stack. A
   * panic aborts the whole computation, so `Panics` absorbs every
   * enclosing call.
   */
  datatype Run<+T> = Returns(value: T) | Panics
}
