/** A value that may be absent: Kotlin's nullable types and JavaScript's null/undefined. */
module Optional {
  datatype Option<+T> = None | Some(value: T)
}
