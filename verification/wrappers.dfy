/** Failure-carrying datatypes shared by the whole model.
    `Option` stands for a value that may be missing (a decoder that rejects
    its input); `Result` stands for a Python or JavaScript call that either
    returns a value or raises an exception carrying a message. */
module Wrappers {

  datatype Option<+T> = None | Some(value: T) {
    predicate IsFailure() {
      None?
    }

    function PropagateFailure<U>(): Option<U>
      requires None?
    {
      None
    }

    function Extract(): T
      requires Some?
    {
      value
    }

    function GetOr(default: T): T {
      match this
      case Some(v) => v
      case None => default
    }
  }

  /** `Raise(msg)` is an exception that escapes the modelled function. */
  datatype Result<+R> = Ok(value: R) | Raise(msg: string) {
    predicate IsFailure() {
      Raise?
    }

    function PropagateFailure<U>(): Result<U>
      requires Raise?
    {
      Raise(msg)
    }

    function Extract(): R
      requires Ok?
    {
      value
    }
  }
}
