/** The outcome types shared by every component.

    A Rust call ends in one of three ways: it returns `Ok`, it returns `Err`, or it panics
    (a slice index out of range, an `expect` on `None`).  `Outcome` keeps the three apart,
    so that no operation needs a precondition merely to rule a panic out. */
module Wrappers {
  datatype Option<+T> = None | Some(value: T)

  datatype Error =
    | InvalidMagic(expected: int, actual: int)
    | UnsupportedVersion(version: int)
    | ChecksumMismatch(expectedHex: string, actualHex: string)
    | FileTooSmall(size: int, minimum: int)
    | InvalidMphf
    | TooManyRecords(count: int, max: int)
    | Serialization
    | Io
    | BadInputSize(length: int)
    | InvalidHex
    | LookupsFailed(failures: int)

  datatype Outcome<+T> = Done(value: T) | Failed(error: Error) | Panicked {
    predicate IsFailure() {
      !Done?
    }

    function PropagateFailure<U>(): Outcome<U>
      requires IsFailure()
    {
      match this
      case Failed(e) => Failed(e)
      case Panicked => Panicked
    }

    function Extract(): T
      requires Done?
    {
      value
    }
  }
}
