/** The absence-or-value type that stands for C#'s nullable references. */
module Optional {
  datatype Option<+T> = None | Some(value: T)
}
