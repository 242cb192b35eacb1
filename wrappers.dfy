/** Result types shared by the model. */
module Wrappers {

  datatype Option<T> = None | Some(value: T)

  /** Why a computation panicked: an `assert_eq!` whose two operands differed. */
  datatype Failure = AssertEqFailed(left: nat, right: nat)

  /** A computation that either returns a value or panics. */
  datatype Outcome<T> = Ok(value: T) | Panic(failure: Failure)
}
