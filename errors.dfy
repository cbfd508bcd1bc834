/** Error values and the small wrapper types shared by the other modules. */
module Errors {

  datatype Option<+T> = None | Some(value: T)

  /** A constructor that either succeeds or panics with a reason. */
  datatype Result<+T> = Ok(value: T) | Panic(reason: Error)

  /** The distinguished errors of the library, plus the opaque errors that
      come from user work functions and from Go's `fmt.Errorf` wrappers. */
  datatype Error =
    | ErrNoBucket                            // no free token under fast-fail
    | ErrTaskTimeout                         // deadline or cancellation fired first
    | ErrParentFail                          // zombie mode short-circuit
    | ErrSizeTooLarge                        // bucket size above LimitSize
    | ErrNegativeSize                        // channel size below zero
    | GetTokenFailed(cause: Error)           // `Go`'s wrapping of a Get failure
    | RunPanicked(id: string, value: string) // a recovered panic of a task body
    | WorkError(message: string)             // an error returned by user code
}
