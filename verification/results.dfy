/** The success-or-error value every fallible operation of the model returns,
    standing for Rust's `Result`; the model spells out each `?` as a match
    that passes the error on. */
module Results {

  datatype Result<+T, +E> = Ok(value: T) | Err(error: E)

  datatype Option<+T> = None | Some(value: T)
}
