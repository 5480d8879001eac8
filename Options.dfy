// The optional value the model uses for "not found", "no match" and "the
// source throws here".

module Options {
  datatype Option<T> = None | Some(value: T)
}
