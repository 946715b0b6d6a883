/** The optional value used for the result panel and the helper texts,
    which the Kotlin source represents as a nullable String. */
module Wrappers {
  datatype Option<+T> = None | Some(value: T)
}
