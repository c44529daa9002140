/** Result and option types shared by the whole model, and the Python exception
  * classes that the modelled code raises. */
module Errors {

  datatype Option<T> = None | Some(value: T)

  /** The exception kinds raised by the modelled code. */
  datatype Error =
    | TypeError
    | ValueError
    | UnicodeEncodeError  // a subclass of ValueError
    | KeyError
    | IndexError
    | OverflowError
    | RuntimeError
    | NameError
    | HunterResultNotFound
    | StratagemCreationFailed
    | StratagemNotRequired
    | StratagemRequired
    | OperationNotSupported
    | OperationAlignmentError
    | SystemExit
    | PatternError  // re.error: a regular expression that does not compile
    | AttributeError

  /** The outcome of a call that may raise. */
  datatype Result<T> = Ok(value: T) | Err(error: Error)
}
