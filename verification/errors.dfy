/**
 * Failure kinds of the virtual file system and the failure-compatible
 * wrappers the rest of the model returns. Each constructor of `FsError`
 * stands for one exception class of the file system; the message texts
 * are not modelled.
 */
module Errors {

  datatype FsError =
    | InvalidPath
    | InvalidName
    | InvalidOperation
    | DirectoryAlreadyExists
    | DirectoryDoesNotExist
    | FileDoesNotExist
    | DirectoryNotEmpty

  datatype Option<+T> = None | Some(value: T)

  /** Either the value of a completed operation or the one labelled failure it raised. */
  datatype Result<+T> = Ok(value: T) | Err(error: FsError) {

    predicate IsFailure() {
      Err?
    }

    function PropagateFailure<U>(): Result<U>
      requires Err?
    {
      Err(error)
    }

    function Extract(): T
      requires Ok?
    {
      value
    }
  }

  /** A check that either passes or raises one labelled failure. */
  datatype Outcome = Pass | Fail(error: FsError) {

    predicate IsFailure() {
      Fail?
    }

    function PropagateFailure<U>(): Result<U>
      requires Fail?
    {
      Err(error)
    }
  }
}
