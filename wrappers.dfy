/** Optional values and results with an error, for operations that can fail. */
module Wrappers {

  datatype Option<T> = None | Some(value: T)

  datatype Result<T, E> = Ok(value: T) | Err(error: E) {
    predicate IsOk() {
      Ok?
    }
  }
}
