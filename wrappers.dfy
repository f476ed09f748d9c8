/** Failure-carrying return values. A C# call either returns normally or throws;
    the model returns `Ok`/`Pass` for the first and `Err`/`Fail` carrying the
    exception kind for the second. `None` stands for a C# `null` reference. */
module Wrappers {

  datatype Option<+T> = None | Some(value: T)

  datatype Result<+T, +E> = Ok(value: T) | Err(error: E)

  /** The outcome of a call that returns nothing (a `void` method or a `Task`). */
  datatype Outcome<+E> = Pass | Fail(error: E)
}
