/** Optional values and fallible results, as the Rust code uses `Option` and `Result`. */
module Options {

  datatype Option<+T> = None | Some(value: T)

  datatype Result<+T, +E> = Success(value: T) | Failure(error: E)
}
