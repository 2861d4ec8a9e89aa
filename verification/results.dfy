/** Explicit success/failure values for the stages that raise in the original
    program (an empty histogram, a degenerate lane split, an array-shape clash). */
module Results {

  datatype Result<+T, +E> = Ok(value: T) | Err(error: E)

}
