/**
  Failure-compatible result types shared by every module of the model.

  The modelled Rust code has no recoverable error type for its runtime faults: an overflowing
  `checked_add(..).expect(..)`, a failed `assert!`, an explicit `abort()` or reading a value that
  is not there all end the computation. The model makes each of them a `Fault` value so that the
  operations stay total functions and the error paths can be stated and proved about.
*/
module Outcome {

  /** Why a modelled computation ends abnormally. */
  datatype Fault =
    | CountOverflow          // `checked_add(1).expect(..)` on a reference count
    | CountUnderflow         // a reference count decremented at zero
    | Aborted                // the runtime called its `abort()`
    | PolledAfterCompletion  // `Handle::poll` found no output to return
    | AssertionFailed        // an `assert!` or `debug_assert!` fired, or `unwrap` met `None` or `Err`
    | ArithmeticOverflow     // integer arithmetic overflowed in a build with overflow checks
    | InvalidOrdering        // an atomic store was given an ordering it cannot honour, and panicked
    | Undefined              // the source would touch memory that holds no live value
    | Diverges               // a loop that never exits; the model stops after its fuel

  /** The outcome of an operation that can fault; usable with `:-`. */
  datatype Res<+T> = Ok(value: T) | Fail(fault: Fault) {

    predicate IsFailure() {
      Fail?
    }

    function PropagateFailure<U>(): Res<U>
      requires Fail?
    {
      Fail(fault)
    }

    function Extract(): T
      requires Ok?
    {
      value
    }
  }

  /** Rust's `Option`. */
  datatype Option<+T> = None | Some(value: T)
}
