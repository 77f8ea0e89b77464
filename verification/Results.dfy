/**
 * Option and Result: the absent values and the thrown error codes of the modelled programs; and
 * their largest integer.
 */
module Results {
  const MAX_SAFE_INTEGER: nat := 9007199254740991

  datatype Option<+T> = None | Some(value: T)

  datatype Result<+T, +E> = Ok(value: T) | Err(error: E)
}
