/** Error kinds raised by the index and the small wrappers that carry them. */
module Status {

  /** The failures the index reports by throwing. */
  datatype Error =
    | NotTrained             // adding before the quantizer is trained
    | ConfigurationMismatch  // geometry (d, nlist, code_size, type) differs
    | UnsupportedOperation   // a direct map in use on a merge or a copy
    | RangeError             // decoded list number or id range out of bounds
    | InvalidKey             // a probe key >= nlist
    | NotImplemented         // a subset type other than 0, 1 or 2
    | AssertionFailure       // an internal consistency assertion aborts

  datatype Option<+T> = None | Some(value: T)

  datatype Result<+T> = Ok(value: T) | Err(error: Error)

  /** A call that returns nothing but may fail. */
  datatype Outcome = Pass | Fail(error: Error)
}
