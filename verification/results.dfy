/** Failure-carrying values used for the C++ exceptions of the modelled code:
    a call either produces its value or the error it would have thrown. */
module Results {

  datatype Option<+T> = None | Some(value: T)

  datatype Result<+T, +E> = Returned(value: T) | Raised(error: E)
}
