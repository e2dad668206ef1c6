/** The sentinel errors of the authentication package and the shapes of the
    values its functions return.

    Go returns either `nil` or an error value, normally one of four
    package-level ones; here they are variants returned by value. */
module AuthErrors {

  /** The four package-level error values, one variant each, and any other
      error value a repository may produce, told apart by an opaque code.
      Message texts are presentation and are not modelled. */
  datatype AuthError =
    | ErrUserOrPassIncorrect
    | ErrNotFound
    | ErrValueRequired
    | ErrLenCarcterMax
    | ErrOther(code: int) // any other error a repository implementation may return

  /** A Go `error` result: `nil` (Ok) or an error value. */
  datatype Outcome = Ok | Fail(err: AuthError)

  /** A Go `(*T, error)` pair in which exactly one side is non-nil. */
  datatype Result<+T> = Success(value: T) | Failure(error: AuthError)
}
