/** A value that may be missing: Kotlin's nullable types (`String?`,
    `ErrorType?`) and "the call threw an exception" both become `None`. */
module Options {

  datatype Option<+T> = None | Some(value: T)
}
