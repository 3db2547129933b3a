/** A value that may be absent: an optional form field, a thrown error's
    optional HTTP status, a file or record that may not have been produced. */
module Options {
  datatype Option<T> = None | Some(value: T)
}
