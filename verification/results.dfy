/** Success/failure values used in place of the exceptions the uploader and
    the builder raise. */
module Results {

  datatype Result<+T, +E> = Ok(value: T) | Err(error: E)
}
