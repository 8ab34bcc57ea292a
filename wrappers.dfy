/** Optional values, results with an error value, and pass/fail outcomes.
    `None` stands for a Go nil pointer or interface, `Err`/`Fail` for a
    returned error or a panic. */
module Wrappers {

  datatype Option<+T> = None | Some(value: T)

  datatype Result<+R, +E> = Ok(value: R) | Err(error: E)

  datatype Outcome<+E> = Pass | Fail(error: E)
}
