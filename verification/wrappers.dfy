/** Failure-compatible wrappers shared by the whole model, and the errors
    the contact book raises. Python signals every failure of this program
    with a `ValueError`; the constructors below name the message each
    raise site uses. */
module Wrappers {

  /** An optional value: Python's `None` or a present value. */
  datatype Option<+T> = None | Some(value: T)

  /** Either a value or the error that was raised instead of producing it. */
  datatype Result<+R, +E> = Success(value: R) | Failure(error: E) {

    predicate IsFailure() {
      Failure?
    }

    function PropagateFailure<U>(): Result<U, E>
      requires Failure?
    {
      Failure(error)
    }

    function Extract(): R
      requires Success?
    {
      value
    }
  }

  /** The `ValueError`s of the program, by message. */
  datatype ValueError =
    | InvalidPhoneNumber   // "Invalid phone number format."
    | InvalidDateFormat    // "Invalid date format. Use DD.MM.YYYY"
    | DayOutOfRange        // raised by `date.replace` for 29 February in a common year
    | YearOutOfRange       // raised by `date.replace` outside years 1..9999

  /** The state of a mutable object after a method call, together with the
      exception the call raised, if any. A call that raises leaves `state`
      as it was before the call. */
  datatype Effect<+T> = Effect(state: T, raised: Option<ValueError>)
}
