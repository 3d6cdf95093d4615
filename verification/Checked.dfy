/** Arithmetic on candid's unbounded `Nat`: subtraction and division panic, and
    a panic inside a canister call is a trap that undoes the whole message. */
module Checked {

  /** Why a computation trapped. */
  datatype Trap =
    | Underflow        // Nat subtraction below zero
    | DivisionByZero   // Nat division by zero
    | TargetIsZero     // assert!(v0 > 0, "TARGET_IS_ZERO")

  datatype Result<+T, +E> = Success(value: T) | Failure(error: E) {
    predicate IsFailure() {
      Failure?
    }

    function PropagateFailure<U>(): Result<U, E>
      requires Failure?
    {
      Failure(error)
    }

    function Extract(): T
      requires Success?
    {
      value
    }
  }

  datatype Option<+T> = None | Some(value: T) {
    function GetOr(default: T): T {
      if Some? then value else default
    }
  }

  type Checked<+T> = Result<T, Trap>

  function Sub(a: nat, b: nat): Checked<nat> {
    if a < b then Failure(Underflow) else Success(a - b)
  }

  function Div(a: nat, b: nat): Checked<nat> {
    if b == 0 then Failure(DivisionByZero) else Success(a / b)
  }
}
