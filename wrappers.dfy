/** Option and Result: Kotlin's nullable returns and thrown configuration errors. */
module Wrappers {

  /** A value that may be absent: Kotlin's `T?`. */
  datatype Option<+T> = None | Some(value: T)

  /** Either a value or a fatal error message: a Kotlin call that may throw. */
  datatype Result<+T> = Ok(value: T) | Fatal(message: string)
}
