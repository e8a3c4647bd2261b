// A value that may be missing: a null pointer or a zero the C code treats as one.
module Optional {
  datatype Option<T> = None | Some(v: T)
}
