/** Failure-compatible wrappers shared by every module of the archive model. */
module Results {

  /** An optional value: Python's `None` versus a present value. */
  datatype Option<+T> = None | Some(value: T) {
    predicate IsFailure() { None? }

    function PropagateFailure<U>(): Option<U>
      requires None?
    {
      None
    }

    function Extract(): T
      requires Some?
    {
      value
    }
  }

  /** Why a run of the archiver stops: each case is an exception the program
      does not catch, so it ends the whole run rather than one image. */
  datatype Fault =
    | UnreadableImage        // the image cannot be opened (missing file or not an image)
    | NoExifCapability       // the opened image has no Exif reader at all
    | MalformedDateTime      // a primary date/time tag does not parse
    | MalformedSubSecond     // a sub-second tag is not an integer
    | DateOutOfRange         // adding the sub-seconds leaves years 1..9999
    | NotADirectory          // a directory to create is already a file
    | IsADirectory           // a path read as a file is a directory

  /** Success with a value or a run-ending fault. */
  datatype Result<+R> = Success(value: R) | Failure(error: Fault) {
    predicate IsFailure() { Failure? }

    function PropagateFailure<U>(): Result<U>
      requires Failure?
    {
      Failure(error)
    }

    function Extract(): R
      requires Success?
    {
      value
    }
  }
}
