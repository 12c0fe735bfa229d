/*
 * A value that may be absent: a run without advances, or a conversion
 * whose result is undefined.
 */
module Optional {
  datatype Option<T> = None | Some(value: T)
}
