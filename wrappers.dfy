/** Failure-compatible result types shared by the splitter, the categorizer and
    the post-processing of model output. */
module Wrappers {

  /** An optional value: the `Option<T>` the Rust code returns from its lookups. */
  datatype Option<+T> = None | Some(value: T)

  /** A value or an error message: the `Result<T>` the Rust code returns,
      with the error reduced to its message text. */
  datatype Result<+T> = Ok(value: T) | Err(error: string)
}
