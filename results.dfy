/** Failure-carrying wrappers: an optional value, a value-or-error, and a
    pass-or-error outcome. They stand for Python's `None` and for the
    exceptions that abort the pipeline. */
module Results {

  datatype Option<+T> = None | Some(value: T)

  datatype Result<+R, +E> = Success(value: R) | Failure(error: E)

  datatype Outcome<+E> = Pass | Fail(error: E)
}
