/** The result of a parse that may fail (JavaScript's NaN). */
module Options {
  datatype Option<+T> = None | Some(value: T)
}
