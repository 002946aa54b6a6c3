/**
 Results shared by the modules: a value that may be missing, and a value or the reason there is
 none.
 */
module Results {

  datatype Option<+T> = None | Some(value: T)

  datatype Outcome<+T, +E> = Ok(value: T) | Err(error: E)
}
